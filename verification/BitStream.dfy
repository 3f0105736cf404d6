/** Parameters to serial bits and back (Prm2bits, Bits2prm): every parameter is a field of
    the mode's width, most significant bit first, one bit per array element. */
module BitStream {
  import opened FixedPoint
  import opened Modes

  const BIT_0: Word16 := 0
  const BIT_1: Word16 := 1

  // ----- one parameter -----

  /** The binary number written by the bits; anything but BIT_1 reads as zero. */
  function Number(bits: seq<Word16>): nat {
    if bits == [] then 0
    else 2 * Number(bits[..|bits| - 1]) + if bits[|bits| - 1] == BIT_1 then 1 else 0
  }

  /** The low n bits of v, the most significant first. */
  function Digits(v: int, n: nat): (bits: seq<Word16>)
    ensures |bits| == n
    ensures forall i :: 0 <= i < n ==> bits[i] in {BIT_0, BIT_1}
    decreases n
  {
    if n == 0 then [] else Digits(v / 2, n - 1) + [if v % 2 == 0 then BIT_0 else BIT_1]
  }

  lemma ShiftInBit(v: nat)
    ensures Shl(Sat16(v), 1) == Sat16(2 * v)
    ensures Add(Sat16(2 * v), 1) == Sat16(2 * v + 1)
  {
    ShlSaturates(Sat16(v), 1);
    assert Pow2(1) == 2 by { assert Pow2(0) == 1; }
  }

  lemma ShiftOutBit(v: Word16)
    ensures Shr(v, 1) == (v as int) / 2
  {
    assert Pow2(1) == 2 by { assert Pow2(0) == 1; }
  }

  /** Bin2int: reads one field. Fields wider than 15 bits would saturate. */
  method Bin2int(noOfBits: nat, bitstream: array<Word16>, at: nat) returns (value: Word16)
    requires at + noOfBits <= bitstream.Length
    ensures value == Sat16(Number(bitstream[at..at + noOfBits]))
  {
    hide Shl, Add;
    value := 0;
    for i := 0 to noOfBits
      invariant value == Sat16(Number(bitstream[at..at + i]))
    {
      ShiftInBit(Number(bitstream[at..at + i]));
      assert bitstream[at..at + i + 1][..i] == bitstream[at..at + i];
      value := Shl(value, 1);
      var bit := bitstream[at + i];
      if Sub(bit, BIT_1) == 0 {
        value := Add(value, 1);
      }
    }
  }

  /** Int2bin: writes one field from its last bit backwards. */
  method Int2bin(v: Word16, noOfBits: nat, bitstream: array<Word16>, at: nat)
    requires at + noOfBits <= bitstream.Length
    modifies bitstream
    ensures bitstream[..] == old(bitstream[..at]) + Digits(v, noOfBits) + old(bitstream[at + noOfBits..])
  {
    hide Shr;
    var value := v;
    var pt := at + noOfBits;
    for i := 0 to noOfBits
      invariant pt == at + noOfBits - i
      invariant Digits(v, noOfBits) == Digits(value, noOfBits - i) + bitstream[pt..at + noOfBits]
      invariant bitstream[..pt] == old(bitstream[..pt])
      invariant bitstream[at + noOfBits..] == old(bitstream[at + noOfBits..])
    {
      ghost var tail := bitstream[pt..at + noOfBits];
      var bit := (value as int) % 2;
      pt := pt - 1;
      bitstream[pt] := if bit == 0 then BIT_0 else BIT_1;
      assert bitstream[pt..at + noOfBits] == [bitstream[pt]] + tail;
      ShiftOutBit(value);
      value := Shr(value, 1);
    }
    assert bitstream[..] == bitstream[..at] + bitstream[at..at + noOfBits] + bitstream[at + noOfBits..];
  }

  // ----- a field read back -----

  /** The digits keep the value modulo 2^n, negative values included. */
  lemma {:induction false} NumberOfDigits(v: int, n: nat)
    ensures Number(Digits(v, n)) == v % Pow2(n)
    decreases n
  {
    if n > 0 {
      NumberOfDigits(v / 2, n - 1);
      assert Digits(v, n)[..n - 1] == Digits(v / 2, n - 1);
      HalvedRemainder(v, Pow2(n - 1));
    }
  }

  lemma HalvedRemainder(v: int, p: int)
    requires p >= 1
    ensures v % (2 * p) == 2 * (v / 2 % p) + v % 2
  {
    var h := v / 2;
    var q := h / p;
    assert h == q * p + h % p;
    EuclidUnique(v, 2 * p, q, 2 * (h % p) + v % 2);
  }

  predicate Serial(bits: seq<Word16>) { forall i :: 0 <= i < |bits| ==> bits[i] in {BIT_0, BIT_1} }

  lemma {:induction false} DigitsOfNumber(bits: seq<Word16>)
    requires Serial(bits)
    ensures Number(bits) < Pow2(|bits|)
    ensures Digits(Number(bits), |bits|) == bits
  {
    if bits != [] { DigitsOfNumber(bits[..|bits| - 1]); }
  }

  // ----- a whole frame -----

  function Total(widths: seq<nat>): nat {
    if widths == [] then 0 else Total(widths[..|widths| - 1]) + widths[|widths| - 1]
  }

  /** The bits a parameter vector becomes. */
  function Serialised(widths: seq<nat>, prm: seq<Word16>): (bits: seq<Word16>)
    requires |prm| == |widths|
    ensures |bits| == Total(widths)
  {
    if widths == [] then []
    else
      var n := |widths| - 1;
      Serialised(widths[..n], prm[..n]) + Digits(prm[n], widths[n])
  }

  /** Adjacent slices of the stream, each read as one parameter. */
  function Parsed(widths: seq<nat>, bits: seq<Word16>): (prm: seq<Word16>)
    requires Total(widths) <= |bits|
    ensures |prm| == |widths|
  {
    if widths == [] then []
    else
      var n := |widths| - 1;
      var at := Total(widths[..n]);
      Parsed(widths[..n], bits) + [Sat16(Number(bits[at..at + widths[n]]))]
  }

  lemma {:induction false} TotalGrows(widths: seq<nat>, n: nat)
    requires n <= |widths|
    ensures Total(widths[..n]) <= Total(widths)
  {
    if n < |widths| {
      TotalGrows(widths[..|widths| - 1], n);
      assert widths[..|widths| - 1][..n] == widths[..n];
    } else {
      assert widths[..n] == widths;
    }
  }

  method Bits2prm(widths: seq<nat>, bits: array<Word16>, prm: array<Word16>)
    requires Total(widths) <= bits.Length && |widths| <= prm.Length && bits != prm
    modifies prm
    ensures prm[..|widths|] == Parsed(widths, bits[..])
    ensures prm[|widths|..] == old(prm[|widths|..])
  {
    var at := 0;
    assert widths[..0] == [];
    for i := 0 to |widths|
      invariant at == Total(widths[..i]) <= bits.Length
      invariant prm[..i] == Parsed(widths[..i], bits[..])
      invariant prm[|widths|..] == old(prm[|widths|..])
    {
      NextField(widths, i);
      prm[i] := Bin2int(widths[i], bits, at);
      assert bits[..][at..at + widths[i]] == bits[at..at + widths[i]];
      at := at + widths[i];
    }
    assert widths[..|widths|] == widths;
  }

  lemma NextField(widths: seq<nat>, i: nat)
    requires i < |widths|
    ensures widths[..i + 1][..i] == widths[..i]
    ensures Total(widths[..i + 1]) == Total(widths[..i]) + widths[i] <= Total(widths)
  {
    assert widths[..i + 1][..i] == widths[..i];
    TotalGrows(widths, i + 1);
  }

  method Prm2bits(widths: seq<nat>, prm: array<Word16>, bits: array<Word16>)
    requires Total(widths) <= bits.Length && |widths| <= prm.Length && bits != prm
    modifies bits
    ensures bits[..Total(widths)] == Serialised(widths, prm[..|widths|])
    ensures bits[Total(widths)..] == old(bits[Total(widths)..])
  {
    var at := 0;
    assert widths[..0] == [];
    for i := 0 to |widths|
      invariant at == Total(widths[..i]) <= Total(widths)
      invariant bits[..at] == Serialised(widths[..i], prm[..i])
      invariant bits[Total(widths)..] == old(bits[Total(widths)..])
    {
      NextField(widths, i);
      Int2bin(prm[i], widths[i], bits, at);
      assert prm[..i + 1][..i] == prm[..i];
      at := at + widths[i];
    }
    assert widths[..|widths|] == widths;
  }

  // ----- round trips -----

  predicate Fits(widths: seq<nat>, prm: seq<Word16>) {
    && |prm| == |widths|
    && forall i :: 0 <= i < |prm| ==> 0 <= prm[i] < Pow2(widths[i])
  }

  predicate Narrow(widths: seq<nat>) { forall i :: 0 <= i < |widths| ==> widths[i] <= 15 }

  /** What is left of a parameter after its field was written and read. */
  function Kept(v: Word16, width: nat): Word16
  {
    Sat16(v % Pow2(width))
  }

  lemma KeptWhole(v: Word16, width: nat)
    ensures Kept(v, width) == v <==> 0 <= v < Pow2(width)
  {
    RemainderRange(v, Pow2(width));
  }

  lemma RemainderRange(v: Word16, p: int)
    requires p >= 1
    ensures 0 <= v % p < p
    ensures 0 <= v < p ==> v % p == v
    ensures v % p == v ==> 0 <= v < p
  {
    if 0 <= v < p { EuclidUnique(v, p, 0, v); }
  }

  /** Whatever follows it in the stream, a written frame reads back field by field. */
  lemma {:induction false} ParseAfterSerialise(widths: seq<nat>, prm: seq<Word16>, more: seq<Word16>)
    requires |prm| == |widths|
    ensures var back := Parsed(widths, Serialised(widths, prm) + more);
            forall i :: 0 <= i < |prm| ==> back[i] == Kept(prm[i], widths[i])
  {
    hide Number, Digits, Kept;
    if widths != [] {
      var n := |widths| - 1;
      var front, field := Serialised(widths[..n], prm[..n]), Digits(prm[n], widths[n]);
      ParseAfterSerialise(widths[..n], prm[..n], field + more);
      assert front + (field + more) == Serialised(widths, prm) + more;
      LastField(prm[n], widths[n]);
      assert (front + (field + more))[|front|..|front| + widths[n]] == field;
    }
  }

  lemma LastField(v: Word16, width: nat)
    ensures Sat16(Number(Digits(v, width))) == Kept(v, width)
  {
    NumberOfDigits(v, width);
  }

  /** The round trip is exact if and only if every parameter fits its field. */
  lemma RoundTripIffFits(widths: seq<nat>, prm: seq<Word16>, more: seq<Word16>)
    requires |prm| == |widths|
    ensures Parsed(widths, Serialised(widths, prm) + more) == prm <==> Fits(widths, prm)
  {
    hide Kept, Parsed, Serialised;
    ParseAfterSerialise(widths, prm, more);
    var back := Parsed(widths, Serialised(widths, prm) + more);
    forall i | 0 <= i < |prm|
      ensures back[i] == prm[i] <==> 0 <= prm[i] < Pow2(widths[i])
    {
      KeptWhole(prm[i], widths[i]);
    }
  }

  /** Reading a frame and writing it again restores the bits that were consumed. */
  lemma {:induction false} SerialiseAfterParse(widths: seq<nat>, bits: seq<Word16>)
    requires Total(widths) <= |bits| && Narrow(widths) && Serial(bits)
    ensures Serialised(widths, Parsed(widths, bits)) == bits[..Total(widths)]
  {
    hide Number, Digits, Sat16;
    if widths != [] {
      var n := |widths| - 1;
      var at := Total(widths[..n]);
      SerialiseAfterParse(widths[..n], bits);
      FieldRestored(bits[at..at + widths[n]]);
      assert Parsed(widths, bits)[..n] == Parsed(widths[..n], bits);
      assert bits[..at] + bits[at..at + widths[n]] == bits[..at + widths[n]];
    }
  }

  lemma FieldRestored(field: seq<Word16>)
    requires Serial(field) && |field| <= 15
    ensures Digits(Sat16(Number(field)), |field|) == field
  {
    hide Number, Digits;
    DigitsOfNumber(field);
    Pow2Values();
    Pow2Mono(|field|, 15);
  }

  // ----- the modes' tables -----

  /** bitno[mode] */
  function Widths(m: Mode): seq<nat> {
    match m
    case MR475 => [8, 8, 7] + [8, 7, 2, 8] + [4, 7, 2] + [4, 7, 2, 8] + [4, 7, 2]
    case MR515 => [8, 8, 7] + [8, 7, 2, 6] + [4, 7, 2, 6] + [4, 7, 2, 6] + [4, 7, 2, 6]
    case MR59 => [8, 9, 9] + [8, 9, 2, 6] + [4, 9, 2, 6] + [8, 9, 2, 6] + [4, 9, 2, 6]
    case MR67 => [8, 9, 9] + [8, 11, 3, 7] + [4, 11, 3, 7] + [8, 11, 3, 7] + [4, 11, 3, 7]
    case MR74 => [8, 9, 9] + [8, 13, 4, 7] + [5, 13, 4, 7] + [8, 13, 4, 7] + [5, 13, 4, 7]
    case MR795 => [9, 9, 9] + [8, 13, 4, 4, 5] + [6, 13, 4, 4, 5] + [8, 13, 4, 4, 5] + [6, 13, 4, 4, 5]
    case MR102 =>
      [8, 9, 9] + ([8] + Pulses8()) + ([5] + Pulses8()) + ([8] + Pulses8()) + ([5] + Pulses8())
    case MR122 =>
      [7, 8, 9, 8, 6] + ([9] + Pulses10()) + ([6] + Pulses10()) + ([9] + Pulses10()) + ([6] + Pulses10())
    case MRDTX => [3, 8, 9, 9, 6]
  }

  function Pulses8(): seq<nat> { [1, 1, 1, 1] + [10, 10, 7, 7] }

  function Pulses10(): seq<nat> { [4, 4, 4, 4] + [4, 4, 3, 3] + [3, 3, 3, 5] }

  function SpeechBits(m: Mode): nat {
    match m
    case MR475 => 95
    case MR515 => 103
    case MR59 => 118
    case MR67 => 134
    case MR74 => 148
    case MR795 => 159
    case MR102 => 204
    case MR122 => 244
    case MRDTX => 35
  }

  lemma {:induction false} TotalConcat(a: seq<nat>, b: seq<nat>)
    ensures Total(a + b) == Total(a) + Total(b)
  {
    if b == [] {
      assert a + b == a;
    } else {
      var n := |b| - 1;
      TotalConcat(a, b[..n]);
      assert (a + b)[..|a + b| - 1] == a + b[..n];
    }
  }

  /** A stretch of narrow fields with the given total. */
  predicate Stretch(s: seq<nat>, total: nat) { Total(s) == total && Narrow(s) }

  lemma Joined(a: seq<nat>, b: seq<nat>, m: nat, n: nat)
    requires Stretch(a, m) && Stretch(b, n)
    ensures Stretch(a + b, m + n)
  {
    TotalConcat(a, b);
  }

  /** Up to five fields. */
  lemma Short(s: seq<nat>)
    requires |s| <= 5 && Narrow(s)
    ensures Stretch(s, (if |s| > 0 then s[0] else 0) + (if |s| > 1 then s[1] else 0) + (if |s| > 2 then s[2] else 0)
                       + (if |s| > 3 then s[3] else 0) + (if |s| > 4 then s[4] else 0))
  {
    if |s| > 0 { Short(s[..|s| - 1]); }
  }

  lemma FiveStretches(a: seq<nat>, b: seq<nat>, c: seq<nat>, d: seq<nat>, e: seq<nat>,
                      v: nat, w: nat, x: nat, y: nat, z: nat)
    requires Stretch(a, v) && Stretch(b, w) && Stretch(c, x) && Stretch(d, y) && Stretch(e, z)
    ensures Stretch(a + b + c + d + e, v + w + x + y + z)
  {
    hide Stretch;
    Joined(a, b, v, w);
    Joined(a + b, c, v + w, x);
    Joined(a + b + c, d, v + w + x, y);
    Joined(a + b + c + d, e, v + w + x + y, z);
  }

  lemma PulseFields(first: nat)
    requires first <= 15
    ensures Stretch([first] + Pulses8(), first + 38)
    ensures Stretch([first] + Pulses10(), first + 44)
  {
    hide Stretch;
    Short([first]);
    Short([1, 1, 1, 1]); Short([10, 10, 7, 7]);
    Joined([1, 1, 1, 1], [10, 10, 7, 7], 4, 34);
    Joined([first], Pulses8(), first, 38);
    Short([4, 4, 4, 4]); Short([4, 4, 3, 3]); Short([3, 3, 3, 5]);
    Joined([4, 4, 4, 4], [4, 4, 3, 3], 16, 14);
    Joined([4, 4, 4, 4] + [4, 4, 3, 3], [3, 3, 3, 5], 30, 14);
    Joined([first], Pulses10(), first, 44);
  }

  lemma LowRates(m: Mode)
    requires m.MR475? || m.MR515? || m.MR59?
    ensures Stretch(Widths(m), SpeechBits(m))
  {
    hide Stretch, Pulses8, Pulses10;
    match m
    case MR475 =>
      Short([8, 8, 7]); Short([8, 7, 2, 8]); Short([4, 7, 2]); Short([4, 7, 2, 8]);
      FiveStretches([8, 8, 7], [8, 7, 2, 8], [4, 7, 2], [4, 7, 2, 8], [4, 7, 2], 23, 25, 13, 21, 13);
    case MR515 =>
      Short([8, 8, 7]); Short([8, 7, 2, 6]); Short([4, 7, 2, 6]);
      FiveStretches([8, 8, 7], [8, 7, 2, 6], [4, 7, 2, 6], [4, 7, 2, 6], [4, 7, 2, 6], 23, 23, 19, 19, 19);
    case MR59 =>
      Short([8, 9, 9]); Short([8, 9, 2, 6]); Short([4, 9, 2, 6]);
      FiveStretches([8, 9, 9], [8, 9, 2, 6], [4, 9, 2, 6], [8, 9, 2, 6], [4, 9, 2, 6], 26, 25, 21, 25, 21);
  }

  lemma MiddleRates(m: Mode)
    requires m.MR67? || m.MR74? || m.MR795?
    ensures Stretch(Widths(m), SpeechBits(m))
  {
    hide Stretch, Pulses8, Pulses10;
    match m
    case MR67 =>
      Short([8, 9, 9]); Short([8, 11, 3, 7]); Short([4, 11, 3, 7]);
      FiveStretches([8, 9, 9], [8, 11, 3, 7], [4, 11, 3, 7], [8, 11, 3, 7], [4, 11, 3, 7], 26, 29, 25, 29, 25);
    case MR74 =>
      Short([8, 9, 9]); Short([8, 13, 4, 7]); Short([5, 13, 4, 7]);
      FiveStretches([8, 9, 9], [8, 13, 4, 7], [5, 13, 4, 7], [8, 13, 4, 7], [5, 13, 4, 7], 26, 32, 29, 32, 29);
    case MR795 =>
      Short([9, 9, 9]); Short([8, 13, 4, 4, 5]); Short([6, 13, 4, 4, 5]);
      FiveStretches([9, 9, 9], [8, 13, 4, 4, 5], [6, 13, 4, 4, 5], [8, 13, 4, 4, 5], [6, 13, 4, 4, 5],
                    27, 34, 32, 34, 32);
  }

  lemma HighRates(m: Mode)
    requires m.MR102? || m.MR122? || m.MRDTX?
    ensures Stretch(Widths(m), SpeechBits(m))
  {
    hide Stretch, Pulses8, Pulses10;
    match m
    case MR102 =>
      Short([8, 9, 9]); PulseFields(8); PulseFields(5);
      FiveStretches([8, 9, 9], [8] + Pulses8(), [5] + Pulses8(), [8] + Pulses8(), [5] + Pulses8(), 26, 46, 43, 46, 43);
    case MR122 =>
      Short([7, 8, 9, 8, 6]); PulseFields(9); PulseFields(6);
      FiveStretches([7, 8, 9, 8, 6], [9] + Pulses10(), [6] + Pulses10(), [9] + Pulses10(), [6] + Pulses10(),
                    38, 53, 50, 53, 50);
    case MRDTX =>
      Short([3, 8, 9, 9, 6]);
  }

  /** The widths of every mode add up to its frame size, and all fields are narrow. */
  lemma FrameSize(m: Mode)
    ensures Total(Widths(m)) == SpeechBits(m) && Narrow(Widths(m))
  {
    assert Stretch(Widths(m), SpeechBits(m)) by {
      hide Widths, Stretch;
      if m.MR475? || m.MR515? || m.MR59? { LowRates(m); }
      else if m.MR67? || m.MR74? || m.MR795? { MiddleRates(m); }
      else { HighRates(m); }
    }
  }

  /** So for every mode the two conversions are inverse to each other on its frames. */
  lemma FrameRoundTrip(m: Mode, prm: seq<Word16>, bits: seq<Word16>)
    requires Fits(Widths(m), prm) && |bits| == SpeechBits(m) && Serial(bits)
    ensures |Serialised(Widths(m), prm)| == |bits| && Total(Widths(m)) == |bits|
    ensures Parsed(Widths(m), Serialised(Widths(m), prm)) == prm
    ensures Serialised(Widths(m), Parsed(Widths(m), bits)) == bits
  {
    hide Widths, Narrow, Serialised, Parsed, Total;
    FrameSize(m);
    RoundTripIffFits(Widths(m), prm, []);
    assert Serialised(Widths(m), prm) + [] == Serialised(Widths(m), prm);
    SerialiseAfterParse(Widths(m), bits);
    assert bits[..|bits|] == bits;
  }
}
