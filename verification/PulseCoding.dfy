/** Index and sign words of the two-, three- and four-pulse codebooks: build_code of the
    encoder and decode_*bits of the decoder. */
module PulseCoding {
  import opened FixedPoint
  import opened PulseStages
  import opened Kernel

  /** The codebooks by index plus sign bits; the smallest one depends on the subframe. */
  datatype Book = Bits9(subNr: nat) | Bits11 | Bits14 | Bits17 {
    predicate Valid() { Bits9? ==> subNr < 4 }

    function Pulses(): (n: nat)
      ensures 2 <= n <= 4
    {
      match this case Bits9(_) => 2 case Bits11 => 2 case Bits14 => 3 case Bits17 => 4
    }

    function IndexRange(): nat {
      match this case Bits9(_) => 128 case Bits11 => 512 case Bits14 => 2048 case Bits17 => 8192
    }
  }

  const GRAY: seq<nat> := [0, 1, 3, 2, 6, 4, 5, 7]
  const DGRAY: seq<nat> := [0, 1, 3, 2, 5, 6, 4, 7]

  /** Track to table bit; -1 marks a track the subframe does not code. */
  const TRACK_TABLE: seq<int> := [0, 1, 0, 1, -1, 0, -1, 1, 0, 1, 0, 1, 0, -1, 1, 0, 1, -1, 0, 1]

  // ----- encoder -----

  lemma FifthOf(i: Pos)
    ensures Mult(i, 6554) == i / 5
  {
  }

  lemma FiveTimes(k: nat)
    requires k < 8
    ensures LShr(LMult(k, 5), 1) == 5 * k
  {
    assert LMult(k, 5) == 10 * k;
    assert Pow2(1) == 2 by { assert Pow2(0) == 1; }
  }

  /** A position as (position / 5, position % 5), by the multiply-and-shift of build_code. */
  function Split(i: Pos): (r: (nat, nat))
    ensures r == (i / STEP, i % STEP)
  {
    FifthOf(i);
    FiveTimes(i / 5);
    hide Mult, LMult, LShr;
    var index := Mult(i, 6554);
    (index, Sub(i, ExtractL(LShr(LMult(index, 5), 1))))
  }

  /** The index contribution and sign slot of the k-th pulse at position i. */
  function PulseCode(book: Book, k: nat, i: Pos): (r: (int, nat))
    requires book.Valid() && k < book.Pulses()
    ensures r.1 < book.Pulses()
  {
    var (index, track) := Split(i);
    match book
    case Bits9(subNr) =>
      var first := TRACK_TABLE[5 * subNr + track];
      if first == 0 then (if k == 0 then (index, 0) else (Wrap16(index * 8), 1))
      else (if k == 0 then (Wrap16(index + 64), 0) else (Wrap16(index * 8), 1))
    case Bits11 =>
      if track == 0 then (Wrap16(index * 64), 1)
      else if track == 1 then
        (if k == 0 then (Wrap16(index * 2), 0) else (Add(Wrap16(index * 64), 16), 1))
      else if track == 2 then (Add(Wrap16(index * 64), 32), 1)
      else if track == 3 then (Add(Wrap16(index * 2), 1), 0)
      else (Add(Wrap16(index * 64), 48), 1)
    case Bits14 =>
      if track == 0 then (index, 0)
      else if track == 1 then (Wrap16(index * 16), 1)
      else if track == 2 then (Wrap16(index * 256), 2)
      else if track == 3 then (Add(Wrap16(index * 16), 8), 1)
      else (Add(Wrap16(index * 256), 128), 2)
    case Bits17 =>
      var g := GRAY[index];
      if track == 0 then (g, 0)
      else if track == 1 then (Wrap16(g * 8), 1)
      else if track == 2 then (Wrap16(g * 64), 2)
      else if track == 3 then (Wrap16(g * 1024), 3)
      else (Add(Wrap16(g * 1024), 512), 3)
  }

  const PLUS: Word16 := 8191
  const MINUS: Word16 := -8192

  /** The sum of the index contributions of pulses 0..n. */
  function IndexWord(book: Book, v: seq<Pos>, n: nat): Word16
    requires book.Valid() && n <= |v| == book.Pulses()
  {
    if n == 0 then 0 else Add(IndexWord(book, v, n - 1), Sat16(PulseCode(book, n - 1, v[n - 1]).0))
  }

  /** One sign bit, set for a positive pulse, in the slot of each of pulses 0..n. */
  function SignWord(book: Book, v: seq<Pos>, dnSign: Corr, n: nat): Word16
    requires book.Valid() && n <= |v| == book.Pulses()
  {
    if n == 0 then 0
    else if dnSign[v[n - 1]] > 0 then
      Add(SignWord(book, v, dnSign, n - 1), Shl(1, PulseCode(book, n - 1, v[n - 1]).1))
    else SignWord(book, v, dnSign, n - 1)
  }

  function SignedPulse(dnSign: Corr, i: Pos): Word16 {
    if dnSign[i] > 0 then PLUS else MINUS
  }

  /** The code vector: a signed pulse at each position of v, zero elsewhere. */
  ghost predicate IsCode(cod: seq<Word16>, v: seq<Pos>, dnSign: Corr) {
    |cod| == L_CODE && forall i :: 0 <= i < L_CODE ==> cod[i] == if i in v then SignedPulse(dnSign, i) else 0
  }

  /** The signs given to the filter for pulses 0..n. */
  function FilterSigns(v: seq<Pos>, dnSign: Corr, n: nat): (signs: seq<Word16>)
    requires n <= |v|
    ensures |signs| == n
  {
    if n == 0 then [] else FilterSigns(v, dnSign, n - 1) + [if dnSign[v[n - 1]] > 0 then MAX_16 else MIN_16]
  }

  /** h is preceded by zeros. */
  function Impulse(h: Corr, j: int): Word16
    requires j < L_CODE
  {
    if j < 0 then 0 else h[j]
  }

  /** Sample i of the filtered pulses, accumulated with saturation. */
  function Accumulate(h: Corr, v: seq<Pos>, signs: seq<Word16>, i: Pos, n: nat): Word32
    requires n <= |v| == |signs|
  {
    if n == 0 then 0 else LMac(Accumulate(h, v, signs, i, n - 1), Impulse(h, i - v[n - 1]), signs[n - 1])
  }

  method SetZero(x: array<Word16>)
    modifies x
    ensures forall i :: 0 <= i < x.Length ==> x[i] == 0
  {
    for i := 0 to x.Length
      invariant forall j :: 0 <= j < i ==> x[j] == 0
    {
      x[i] := 0;
    }
  }

  /** The words and filter signs accumulated for pulses 0..n. */
  predicate WordsUpto(book: Book, v: seq<Pos>, dnSign: Corr, n: nat, indx: Word16, rsign: Word16, signs: seq<Word16>)
    requires book.Valid() && n <= |v| == book.Pulses()
  {
    indx == IndexWord(book, v, n) && rsign == SignWord(book, v, dnSign, n) && signs == FilterSigns(v, dnSign, n)
  }

  lemma WordsStart(book: Book, v: seq<Pos>, dnSign: Corr)
    requires book.Valid() && |v| == book.Pulses()
    ensures WordsUpto(book, v, dnSign, 0, 0, 0, [])
  {
  }

  lemma WordsStep(book: Book, v: seq<Pos>, dnSign: Corr, n: nat, indx: Word16, rsign: Word16, signs: seq<Word16>)
    requires book.Valid() && n < |v| == book.Pulses() && WordsUpto(book, v, dnSign, n, indx, rsign, signs)
    ensures var (index, track) := PulseCode(book, n, v[n]);
      if dnSign[v[n]] > 0 then
        WordsUpto(book, v, dnSign, n + 1, Add(indx, Sat16(index)), Add(rsign, Shl(1, track)), signs + [MAX_16])
      else
        WordsUpto(book, v, dnSign, n + 1, Add(indx, Sat16(index)), rsign, signs + [MIN_16])
  {
    hide PulseCode, Shl;
  }

  lemma WordsEnd(book: Book, v: seq<Pos>, dnSign: Corr, n: nat, indx: Word16, rsign: Word16, signs: seq<Word16>)
    requires book.Valid() && n <= |v| == book.Pulses() && WordsUpto(book, v, dnSign, n, indx, rsign, signs)
    ensures indx == IndexWord(book, v, n) && rsign == SignWord(book, v, dnSign, n) && signs == FilterSigns(v, dnSign, n)
  {
  }

  /** Write one signed pulse; the sign word with its bit, and its filter sign. */
  method SetPulse(cod: array<Word16>, dnSign: Corr, i: Pos, track: nat, rsign0: Word16)
    returns (rsign: Word16, filter: Word16)
    requires cod.Length == L_CODE && track <= 31
    modifies cod
    ensures cod[..] == old(cod[..])[i := SignedPulse(dnSign, i)]
    ensures rsign == if dnSign[i] > 0 then Add(rsign0, Shl(1, track)) else rsign0
    ensures filter == if dnSign[i] > 0 then MAX_16 else MIN_16
  {
    hide Shl;
    rsign := rsign0;
    if dnSign[i] > 0 {
      cod[i] := PLUS;
      filter := MAX_16;
      rsign := Add(rsign, Shl(1, track));
    } else {
      cod[i] := MINUS;
      filter := MIN_16;
    }
  }

  /** One pulse: its contribution to the words, its filter sign and its sample. */
  method PlaceNext(book: Book, codvec: seq<Pos>, dnSign: Corr, cod: array<Word16>, k: nat,
                   indx0: Word16, rsign0: Word16, signs0: seq<Word16>)
    returns (indx: Word16, rsign: Word16, signs: seq<Word16>)
    requires book.Valid() && k < |codvec| == book.Pulses() && cod.Length == L_CODE
    requires WordsUpto(book, codvec, dnSign, k, indx0, rsign0, signs0) && IsCode(cod[..], codvec[..k], dnSign)
    modifies cod
    ensures WordsUpto(book, codvec, dnSign, k + 1, indx, rsign, signs) && IsCode(cod[..], codvec[..k + 1], dnSign)
  {
    hide Add, Sat16, PulseCode, Shl, IsCode, SignedPulse, WordsUpto, IndexWord, SignWord, FilterSigns;
    WordsStep(book, codvec, dnSign, k, indx0, rsign0, signs0);
    OnePulseMore(cod[..], codvec, dnSign, k);
    var (index, track) := PulseCode(book, k, codvec[k]);
    var filter;
    rsign, filter := SetPulse(cod, dnSign, codvec[k], track, rsign0);
    signs := signs0 + [filter];
    indx := Add(indx0, Sat16(index));
  }

  /** The loop over the pulses: index and sign words, code vector and filter signs. */
  method PlacePulses(book: Book, codvec: seq<Pos>, dnSign: Corr, cod: array<Word16>)
    returns (indx: Word16, rsign: Word16, signs: seq<Word16>)
    requires book.Valid() && |codvec| == book.Pulses() && cod.Length == L_CODE
    modifies cod
    ensures indx == IndexWord(book, codvec, |codvec|)
    ensures rsign == SignWord(book, codvec, dnSign, |codvec|)
    ensures signs == FilterSigns(codvec, dnSign, |codvec|)
    ensures IsCode(cod[..], codvec, dnSign)
  {
    WordsStart(book, codvec, dnSign);
    hide IsCode, WordsUpto, IndexWord, SignWord, FilterSigns;
    SetZero(cod);
    NoPulses(cod[..], codvec, dnSign);
    indx, rsign, signs := 0, 0, [];
    for k := 0 to |codvec|
      invariant WordsUpto(book, codvec, dnSign, k, indx, rsign, signs)
      invariant IsCode(cod[..], codvec[..k], dnSign)
    {
      indx, rsign, signs := PlaceNext(book, codvec, dnSign, cod, k, indx, rsign, signs);
    }
    assert codvec[..|codvec|] == codvec;
    WordsEnd(book, codvec, dnSign, |codvec|, indx, rsign, signs);
  }

  method BuildCode(book: Book, codvec: seq<Pos>, dnSign: Corr, h: Corr, cod: array<Word16>, y: array<Word16>)
    returns (indx: Word16, rsign: Word16)
    requires book.Valid() && |codvec| == book.Pulses()
    requires cod.Length == L_CODE && y.Length == L_CODE && cod != y
    modifies cod, y
    ensures indx == IndexWord(book, codvec, |codvec|)
    ensures rsign == SignWord(book, codvec, dnSign, |codvec|)
    ensures IsCode(cod[..], codvec, dnSign)
    ensures forall i :: 0 <= i < L_CODE ==>
      y[i] == Round(Accumulate(h, codvec, FilterSigns(codvec, dnSign, |codvec|), i, |codvec|))
  {
    hide IsCode;
    var signs;
    indx, rsign, signs := PlacePulses(book, codvec, dnSign, cod);
    ghost var code := cod[..];
    FilterPulses(h, codvec, signs, y);
    assert cod[..] == code;
  }

  lemma NoPulses(c: seq<Word16>, v: seq<Pos>, dnSign: Corr)
    requires |c| == L_CODE && forall i :: 0 <= i < L_CODE ==> c[i] == 0
    ensures IsCode(c, v[..0], dnSign)
  {
  }

  lemma OnePulseMore(c: seq<Word16>, v: seq<Pos>, dnSign: Corr, k: nat)
    requires k < |v| && IsCode(c, v[..k], dnSign)
    ensures |c| == L_CODE && IsCode(c[v[k] := SignedPulse(dnSign, v[k])], v[..k + 1], dnSign)
  {
    hide SignedPulse;
    TakeOneMore(v, k);
  }

  lemma TakeOneMore<T>(s: seq<T>, k: nat)
    requires k < |s|
    ensures s[..k + 1] == s[..k] + [s[k]]
  {
  }

  /** The loop over the samples: one multiply-accumulate for each pulse. */
  method FilterPulses(h: Corr, codvec: seq<Pos>, signs: seq<Word16>, y: array<Word16>)
    requires |signs| == |codvec| && y.Length == L_CODE
    modifies y
    ensures forall i :: 0 <= i < L_CODE ==> y[i] == Round(Accumulate(h, codvec, signs, i, |codvec|))
  {
    hide LMac, Round;
    for i := 0 to L_CODE
      invariant forall j :: 0 <= j < i ==> y[j] == Round(Accumulate(h, codvec, signs, j, |codvec|))
    {
      var s: Word32 := 0;
      for k := 0 to |codvec|
        invariant s == Accumulate(h, codvec, signs, i, k)
      {
        s := LMac(s, Impulse(h, i - codvec[k]), signs[k]);
      }
      y[i] := Round(s);
    }
  }

  // ----- decoder -----

  function Positions(book: Book, index: Word16): (pos: seq<Pos>)
    requires book.Valid()
    ensures |pos| == book.Pulses()
  {
    match book
    case Bits9(subNr) =>
      var j := index / 64 % 2;
      [index % 8 * 5 + START_POS[j * 8 + subNr * 2], index / 8 % 8 * 5 + START_POS[j * 8 + subNr * 2 + 1]]
    case Bits11 =>
      var j := index / 16 % 4;
      [index / 2 % 8 * 5 + 1 + index % 2 * 2, index / 64 % 8 * 5 + (if j == 3 then 4 else j)]
    case Bits14 =>
      [index % 8 * 5, index / 16 % 8 * 5 + 1 + index / 8 % 2 * 2, index / 256 % 8 * 5 + 2 + index / 128 % 2 * 2]
    case Bits17 =>
      [DGRAY[index % 8] * 5, DGRAY[index / 8 % 8] * 5 + 1, DGRAY[index / 64 % 8] * 5 + 2,
       DGRAY[index / 1024 % 8] * 5 + 3 + index / 512 % 2]
  }

  function Bit(word: int, j: nat): (b: nat)
    ensures b < 2
  {
    (word / Pow2(j)) % 2
  }

  /** The code vector after decoding the first n signs. */
  function Decoded(pos: seq<Pos>, sign: Word16, n: nat): (cod: seq<Word16>)
    requires n <= |pos|
    ensures |cod| == L_CODE
  {
    if n == 0 then Silence() else Decoded(pos, sign, n - 1)[pos[n - 1] := Bit(sign, n - 1) * 16383 - 8192]
  }

  method DecodeCode(book: Book, sign: Word16, index: Word16, cod: array<Word16>)
    requires book.Valid() && cod.Length == L_CODE
    modifies cod
    ensures cod[..] == Decoded(Positions(book, index), sign, book.Pulses())
  {
    hide Positions;
    var pos := Positions(book, index);
    SetZero(cod);
    assert cod[..] == Silence();
    var rest := sign;
    for j := 0 to book.Pulses()
      invariant rest == sign / Pow2(j)
      invariant cod[..] == Decoded(pos, sign, j)
    {
      var i := rest % 2;
      cod[pos[j]] := i * 16383 - 8192;
      DivTwice(sign, Pow2(j));
      rest := rest / 2;
    }
  }

  lemma DivTwice(x: int, p: int)
    requires p > 0
    ensures x / p / 2 == x / (2 * p)
  {
    var q, r := x / p / 2, x / p % 2;
    assert x / p == 2 * q + r;
    assert x == (x / p) * p + x % p;
    assert x == q * (2 * p) + (r * p + x % p);
    if r == 1 { assert r * p == p; }
    EuclidUnique(x, 2 * p, q, r * p + x % p);
  }

  // ----- the round trip -----

  /** The code vectors the searches produce. */
  ghost predicate Legal(book: Book, v: seq<Pos>) {
    && book.Valid() && |v| == book.Pulses()
    && match book
       case Bits9(s) =>
         || (v[0] % STEP == START_POS[2 * s] && v[1] % STEP == START_POS[2 * s + 1])
         || (v[0] % STEP == START_POS[2 * s + 8] && v[1] % STEP == START_POS[2 * s + 9])
       case Bits11 => (v[0] % STEP == 1 || v[0] % STEP == 3) && v[1] % STEP != 3
       case Bits14 => OnePerSlot(3, v)
       case Bits17 => OnePerSlot(4, v)
  }

  function InSlot(book: Book, v: seq<Pos>, s: nat): Pos
    requires |v| >= 3
  {
    if Slot(book.Pulses(), v[0]) == s then v[0] else if Slot(book.Pulses(), v[1]) == s then v[1]
    else if |v| == 3 || Slot(book.Pulses(), v[2]) == s then v[2] else v[3 % |v|]
  }

  /** The pulses in the order of their index fields. */
  function Slotted(book: Book, v: seq<Pos>): (w: seq<Pos>)
    requires |v| == book.Pulses()
    ensures |w| == |v|
  {
    match book
    case Bits9(_) => v
    case Bits11 => v
    case Bits14 => [InSlot(book, v, 0), InSlot(book, v, 1), InSlot(book, v, 2)]
    case Bits17 => [InSlot(book, v, 0), InSlot(book, v, 1), InSlot(book, v, 2), InSlot(book, v, 3)]
  }

  function Field14(p: Pos): nat {
    var index, track := p / STEP, p % STEP;
    if track == 0 then index else if track == 1 then index * 16 else if track == 2 then index * 256
    else if track == 3 then index * 16 + 8 else index * 256 + 128
  }

  function Field17(p: Pos): nat {
    var g, track := GRAY[p / STEP], p % STEP;
    if track == 0 then g else if track == 1 then g * 8 else if track == 2 then g * 64
    else if track == 3 then g * 1024 else g * 1024 + 512
  }

  lemma GrayInverse(x: nat)
    requires x < 8
    ensures GRAY[x] < 8 && DGRAY[x] < 8
    ensures DGRAY[GRAY[x]] == x && GRAY[DGRAY[x]] == x
  {
  }

  lemma PulseCode14(k: nat, p: Pos)
    requires k < 3
    ensures PulseCode(Bits14, k, p) == (Field14(p), Slot(3, p)) && Field14(p) < 2048
  {
    hide Mult, Sub, LMult, LShr;
    var index, track := p / STEP, p % STEP;
    assert index < 8 && track < 5 && Split(p) == (index, track);
  }

  lemma PulseCode17(k: nat, p: Pos)
    requires k < 4
    ensures PulseCode(Bits17, k, p) == (Field17(p), Slot(4, p)) && Field17(p) < 8192
  {
    hide Mult, Sub, LMult, LShr;
    var index, track := p / STEP, p % STEP;
    assert index < 8 && track < 5 && Split(p) == (index, track);
    GrayInverse(index);
  }

  lemma PulseCode9(s: nat, k: nat, p: Pos)
    requires s < 4 && k < 2
    ensures var second := TRACK_TABLE[5 * s + p % STEP] != 0;
      PulseCode(Bits9(s), k, p) == (if k == 0 then p / STEP + (if second then 64 else 0) else p / STEP * 8, k)
  {
    hide Mult, Sub, LMult, LShr;
    var index, track := p / STEP, p % STEP;
    assert index < 8 && track < 5 && Split(p) == (index, track);
  }

  lemma PulseCode11(k: nat, p: Pos)
    requires k < 2 && if k == 0 then p % STEP == 1 || p % STEP == 3 else p % STEP != 3
    ensures var track := p % STEP;
      PulseCode(Bits11, k, p) == (if k == 0 then p / STEP * 2 + track / 2
                                  else p / STEP * 64 + 16 * (if track == 4 then 3 else track), k)
  {
    hide Mult, Sub, LMult, LShr;
    var index, track := p / STEP, p % STEP;
    assert index < 8 && track < 5 && Split(p) == (index, track);
  }

  // ----- the bit fields of the index words -----

  lemma Unpack9(x: nat, y: nat, t: nat)
    requires x < 8 && y < 8 && t < 2
    ensures var w := x + 8 * y + 64 * t;
      0 <= w < 128 && w % 8 == x && w / 8 % 8 == y && w / 64 % 2 == t
  {
    assert (x + 8 * y + 64 * t) / 8 == y + 8 * t;
    assert (x + 8 * y + 64 * t) / 64 == t;
  }

  lemma Unpack11(j: nat, x: nat, k: nat, y: nat)
    requires j < 2 && x < 8 && k < 4 && y < 8
    ensures var w := j + 2 * x + 16 * k + 64 * y;
      0 <= w < 512 && w % 2 == j && w / 2 % 8 == x && w / 16 % 4 == k && w / 64 % 8 == y
  {
    var w := j + 2 * x + 16 * k + 64 * y;
    assert w / 2 == x + 8 * k + 32 * y;
    assert w / 16 == k + 4 * y;
    assert w / 64 == y;
  }

  lemma Unpack14(x: nat, j: nat, y: nat, k: nat, z: nat)
    requires x < 8 && j < 2 && y < 8 && k < 2 && z < 8
    ensures var w := x + 8 * j + 16 * y + 128 * k + 256 * z;
      0 <= w < 2048 && w % 8 == x && w / 8 % 2 == j && w / 16 % 8 == y && w / 128 % 2 == k && w / 256 % 8 == z
  {
    var w := x + 8 * j + 16 * y + 128 * k + 256 * z;
    assert w / 8 == j + 2 * y + 16 * k + 32 * z;
    assert w / 16 == y + 8 * k + 16 * z;
    assert w / 128 == k + 2 * z;
    assert w / 256 == z;
  }

  lemma Unpack17(x: nat, y: nat, z: nat, j: nat, t: nat)
    requires x < 8 && y < 8 && z < 8 && j < 2 && t < 8
    ensures var w := x + 8 * y + 64 * z + 512 * j + 1024 * t;
      0 <= w < 8192 && w % 8 == x && w / 8 % 8 == y && w / 64 % 8 == z && w / 512 % 2 == j && w / 1024 % 8 == t
  {
    var w := x + 8 * y + 64 * z + 512 * j + 1024 * t;
    assert w / 8 == y + 8 * z + 64 * j + 128 * t;
    assert w / 64 == z + 8 * j + 16 * t;
    assert w / 512 == j + 2 * t;
    assert w / 1024 == t;
  }

  // ----- index words decode to the pulses they were made of -----

  /** The first two, three and four steps of the index sum. */
  lemma IndexSum(book: Book, v: seq<Pos>)
    requires book.Valid() && |v| == book.Pulses()
    ensures var f := (k: nat) requires k < |v| => Sat16(PulseCode(book, k, v[k]).0);
      && IndexWord(book, v, 2) == Add(f(0), f(1))
      && (|v| >= 3 ==> IndexWord(book, v, 3) == Add(Add(f(0), f(1)), f(2)))
      && (|v| == 4 ==> IndexWord(book, v, 4) == Add(Add(Add(f(0), f(1)), f(2)), f(3)))
  {
    hide PulseCode;
    assert IndexWord(book, v, 0) == 0;
    assert IndexWord(book, v, 1) == Sat16(PulseCode(book, 0, v[0]).0);
  }

  /** The table bit selects the pair of tracks the two pulses lie on. */
  lemma TableBit(s: nat, v: seq<Pos>) returns (t: nat)
    requires Legal(Bits9(s), v)
    ensures s < 4 && |v| == 2 && t < 2
    ensures Coded(s, v[0] % STEP) == t && First(s, t) == v[0] % STEP && Second(s, t) == v[1] % STEP
  {
    hide Legal, First, Second, Coded;
    t := LegalPair(s, v);
    PairIsCoded(s, t);
  }

  /** trackTable: which of the subframe's two track pairs a first pulse's track selects. */
  function Coded(s: nat, track: nat): int
    requires s < 4 && track < 5
  {
    TRACK_TABLE[5 * s + track]
  }

  /** The tracks of the first and second pulse in pair t of subframe s. */
  function First(s: nat, t: nat): nat
    requires s < 4 && t < 2
  {
    START_POS[8 * t + 2 * s]
  }

  function Second(s: nat, t: nat): nat
    requires s < 4 && t < 2
  {
    START_POS[8 * t + 2 * s + 1]
  }

  lemma LegalPair(s: nat, v: seq<Pos>) returns (t: nat)
    requires Legal(Bits9(s), v)
    ensures s < 4 && |v| == 2 && t < 2 && v[0] % STEP == First(s, t) && v[1] % STEP == Second(s, t)
  {
    t := if v[0] % STEP == START_POS[2 * s] && v[1] % STEP == START_POS[2 * s + 1] then 0 else 1;
  }

  lemma PairIsCoded(s: nat, t: nat)
    requires s < 4 && t < 2
    ensures First(s, t) < 5 && Coded(s, First(s, t)) == t
  {
  }

  lemma Decode9(s: nat, x: nat, y: nat, t: nat)
    requires s < 4 && x < 8 && y < 8 && t < 2
    ensures 0 <= x + 8 * y + 64 * t < 128
    ensures Positions(Bits9(s), x + 8 * y + 64 * t)
         == [x * 5 + START_POS[8 * t + 2 * s], y * 5 + START_POS[8 * t + 2 * s + 1]]
  {
    Unpack9(x, y, t);
  }

  lemma IndexRoundTrip9(s: nat, v: seq<Pos>)
    requires Legal(Bits9(s), v)
    ensures 0 <= IndexWord(Bits9(s), v, 2) < 128
    ensures Positions(Bits9(s), IndexWord(Bits9(s), v, 2)) == v
  {
    hide IndexWord, Positions, Legal;
    var t := TableBit(s, v);
    Word9(s, v, v[0] / STEP, v[1] / STEP, t);
    Decode9(s, v[0] / STEP, v[1] / STEP, t);
  }

  lemma IndexRoundTrip11(v: seq<Pos>)
    requires Legal(Bits11, v)
    ensures 0 <= IndexWord(Bits11, v, 2) < 512
    ensures Positions(Bits11, IndexWord(Bits11, v, 2)) == v
  {
    hide IndexWord, Positions;
    var track := v[1] % STEP;
    Word11(v, v[0] / STEP, v[0] % STEP, v[1] / STEP, track);
    Decode11(v[0] % STEP / 2, v[0] / STEP, if track == 4 then 3 else track, v[1] / STEP);
  }

  lemma Decode11(j: nat, x: nat, k: nat, y: nat)
    requires j < 2 && x < 8 && k < 4 && y < 8
    ensures 0 <= j + 2 * x + 16 * k + 64 * y < 512
    ensures Positions(Bits11, j + 2 * x + 16 * k + 64 * y) == [x * 5 + 1 + j * 2, y * 5 + (if k == 3 then 4 else k)]
  {
    Unpack11(j, x, k, y);
  }

  lemma Fields14Decode(a: Pos, b: Pos, c: Pos)
    requires Slot(3, a) == 0 && Slot(3, b) == 1 && Slot(3, c) == 2
    ensures Field14(a) + Field14(b) + Field14(c) < 2048
    ensures Positions(Bits14, Field14(a) + Field14(b) + Field14(c)) == [a, b, c]
  {
    hide Field14;
    var j, k := (if b % STEP == 3 then 1 else 0), (if c % STEP == 4 then 1 else 0);
    Unpack14(a / STEP, j, b / STEP, k, c / STEP);
    Pack14(a, b, c, j, k);
  }

  lemma Pack14(a: Pos, b: Pos, c: Pos, j: nat, k: nat)
    requires Slot(3, a) == 0 && Slot(3, b) == 1 && Slot(3, c) == 2
    requires j == (if b % STEP == 3 then 1 else 0) && k == (if c % STEP == 4 then 1 else 0)
    ensures Field14(a) + Field14(b) + Field14(c) == a / STEP + 8 * j + 16 * (b / STEP) + 128 * k + 256 * (c / STEP)
  {
  }

  lemma IndexRoundTrip14(v: seq<Pos>)
    requires Legal(Bits14, v)
    ensures 0 <= IndexWord(Bits14, v, 3) < 2048
    ensures Positions(Bits14, IndexWord(Bits14, v, 3)) == Slotted(Bits14, v)
  {
    hide Positions, Field14, IndexWord;
    Word14(v);
    var w := Slotted(Bits14, v);
    Fields14Decode(w[0], w[1], w[2]);
  }

  lemma Fields17Decode(a: Pos, b: Pos, c: Pos, d: Pos)
    requires Slot(4, a) == 0 && Slot(4, b) == 1 && Slot(4, c) == 2 && Slot(4, d) == 3
    ensures Field17(a) + Field17(b) + Field17(c) + Field17(d) < 8192
    ensures Positions(Bits17, Field17(a) + Field17(b) + Field17(c) + Field17(d)) == [a, b, c, d]
  {
    hide Field17, Positions, Slot;
    GrayInverse(a / STEP);
    GrayInverse(b / STEP);
    GrayInverse(c / STEP);
    GrayInverse(d / STEP);
    var j := if d % STEP == 4 then 1 else 0;
    SlotPlaces(a, b, c, d, j);
    Pack17(a, b, c, d, j);
    Decode17(GRAY[a / STEP], GRAY[b / STEP], GRAY[c / STEP], j, GRAY[d / STEP]);
  }

  lemma SlotPlaces(a: Pos, b: Pos, c: Pos, d: Pos, j: nat)
    requires Slot(4, a) == 0 && Slot(4, b) == 1 && Slot(4, c) == 2 && Slot(4, d) == 3
    requires j == if d % STEP == 4 then 1 else 0
    ensures a == a / STEP * 5 && b == b / STEP * 5 + 1 && c == c / STEP * 5 + 2 && d == d / STEP * 5 + 3 + j
  {
  }

  lemma Decode17(x: nat, y: nat, z: nat, j: nat, t: nat)
    requires x < 8 && y < 8 && z < 8 && j < 2 && t < 8
    ensures var w := x + 8 * y + 64 * z + 512 * j + 1024 * t;
      w < 8192
      && Positions(Bits17, w) == [DGRAY[x] * 5, DGRAY[y] * 5 + 1, DGRAY[z] * 5 + 2, DGRAY[t] * 5 + 3 + j]
  {
    Unpack17(x, y, z, j, t);
  }

  lemma Pack17(a: Pos, b: Pos, c: Pos, d: Pos, j: nat)
    requires Slot(4, a) == 0 && Slot(4, b) == 1 && Slot(4, c) == 2 && Slot(4, d) == 3
    requires j == if d % STEP == 4 then 1 else 0
    ensures Field17(a) + Field17(b) + Field17(c) + Field17(d)
         == GRAY[a / STEP] + 8 * GRAY[b / STEP] + 64 * GRAY[c / STEP] + 512 * j + 1024 * GRAY[d / STEP]
  {
  }

  lemma IndexRoundTrip17(v: seq<Pos>)
    requires Legal(Bits17, v)
    ensures 0 <= IndexWord(Bits17, v, 4) < 8192
    ensures Positions(Bits17, IndexWord(Bits17, v, 4)) == Slotted(Bits17, v)
  {
    hide Positions, Field17, IndexWord;
    Word17(v);
    var w := Slotted(Bits17, v);
    Fields17Decode(w[0], w[1], w[2], w[3]);
  }

  /** The index word of a legal codvec stays in its range and decodes to the pulses. */
  lemma IndexRoundTrip(book: Book, v: seq<Pos>)
    requires Legal(book, v)
    ensures 0 <= IndexWord(book, v, |v|) < book.IndexRange()
    ensures Positions(book, IndexWord(book, v, |v|)) == Slotted(book, v)
  {
    hide Positions, IndexWord;
    match book
    case Bits9(s) => IndexRoundTrip9(s, v);
    case Bits11 => IndexRoundTrip11(v);
    case Bits14 => IndexRoundTrip14(v);
    case Bits17 => IndexRoundTrip17(v);
  }

  // ----- every word stands for exactly one set of pulses -----

  lemma Recompose9(w: nat)
    requires w < 128
    ensures w == w % 8 + 8 * (w / 8 % 8) + 64 * (w / 64 % 2)
  {
    assert w / 8 / 8 == w / 64;
  }

  lemma Recompose11(w: nat)
    requires w < 512
    ensures w == w % 2 + 2 * (w / 2 % 8) + 16 * (w / 16 % 4) + 64 * (w / 64 % 8)
  {
    assert w / 2 / 8 == w / 16 && w / 16 / 4 == w / 64;
  }

  lemma Recompose14(w: nat)
    requires w < 2048
    ensures w == w % 8 + 8 * (w / 8 % 2) + 16 * (w / 16 % 8) + 128 * (w / 128 % 2) + 256 * (w / 256 % 8)
  {
    assert w / 8 / 2 == w / 16 && w / 16 / 8 == w / 128 && w / 128 / 2 == w / 256;
  }

  lemma Recompose17(w: nat)
    requires w < 8192
    ensures w == w % 8 + 8 * (w / 8 % 8) + 64 * (w / 64 % 8) + 512 * (w / 512 % 2) + 1024 * (w / 1024 % 8)
  {
    assert w / 8 / 8 == w / 64 && w / 64 / 8 == w / 512 && w / 512 / 2 == w / 1024;
  }

  /** The position split back into its track and its index on the track. */
  lemma OnTrack(x: nat, track: nat)
    requires x < 8 && track < STEP
    ensures (x * 5 + track) / STEP == x && (x * 5 + track) % STEP == track
  {
  }

  lemma Encode9(s: nat, x: nat, y: nat, t: nat, pos: seq<Pos>)
    requires s < 4 && x < 8 && y < 8 && t < 2
    requires pos == [x * 5 + START_POS[8 * t + 2 * s], y * 5 + START_POS[8 * t + 2 * s + 1]]
    ensures Legal(Bits9(s), pos) && IndexWord(Bits9(s), pos, 2) == x + 8 * y + 64 * t
  {
    hide IndexWord, Legal;
    TrackOfBit(s, t);
    OnTrack(x, START_POS[8 * t + 2 * s]);
    OnTrack(y, START_POS[8 * t + 2 * s + 1]);
    PairLegal(s, t, pos);
    Word9(s, pos, x, y, t);
  }

  lemma PairLegal(s: nat, t: nat, v: seq<Pos>)
    requires s < 4 && t < 2 && |v| == 2
    requires v[0] % STEP == START_POS[8 * t + 2 * s] && v[1] % STEP == START_POS[8 * t + 2 * s + 1]
    ensures Legal(Bits9(s), v)
  {
  }

  lemma Word9(s: nat, v: seq<Pos>, x: nat, y: nat, t: nat)
    requires s < 4 && |v| == 2 && x < 8 && y < 8 && t < 2
    requires v[0] / STEP == x && TRACK_TABLE[5 * s + v[0] % STEP] == t && v[1] / STEP == y
    ensures IndexWord(Bits9(s), v, 2) == x + 8 * y + 64 * t
  {
    hide PulseCode, IndexWord;
    IndexSum(Bits9(s), v);
    PulseCode9(s, 0, v[0]);
    PulseCode9(s, 1, v[1]);
  }

  lemma WordRoundTrip9(s: nat, w: nat)
    requires s < 4 && w < 128
    ensures Legal(Bits9(s), Positions(Bits9(s), w))
    ensures IndexWord(Bits9(s), Positions(Bits9(s), w), 2) == w
  {
    hide IndexWord, Legal, Positions;
    Recompose9(w);
    Decode9(s, w % 8, w / 8 % 8, w / 64 % 2);
    Encode9(s, w % 8, w / 8 % 8, w / 64 % 2, Positions(Bits9(s), w));
  }

  lemma TrackOfBit(s: nat, j: nat)
    requires s < 4 && j < 2
    ensures START_POS[8 * j + 2 * s] < STEP && START_POS[8 * j + 2 * s + 1] < STEP
    ensures TRACK_TABLE[5 * s + START_POS[8 * j + 2 * s]] == j
  {
  }

  lemma Encode11(j: nat, x: nat, k: nat, y: nat, pos: seq<Pos>)
    requires j < 2 && x < 8 && k < 4 && y < 8
    requires pos == [x * 5 + 1 + j * 2, y * 5 + (if k == 3 then 4 else k)]
    ensures Legal(Bits11, pos) && IndexWord(Bits11, pos, 2) == j + 2 * x + 16 * k + 64 * y
  {
    hide IndexWord;
    var track1, track2 := 1 + 2 * j, if k == 3 then 4 else k;
    OnTrack(x, track1);
    OnTrack(y, track2);
    Word11(pos, x, track1, y, track2);
  }

  lemma Word11(v: seq<Pos>, x: nat, track1: nat, y: nat, track2: nat)
    requires |v| == 2 && x < 8 && y < 8
    requires v[0] / STEP == x && v[0] % STEP == track1 && (track1 == 1 || track1 == 3)
    requires v[1] / STEP == y && v[1] % STEP == track2 && track2 != 3
    ensures IndexWord(Bits11, v, 2) == 2 * x + track1 / 2 + 64 * y + 16 * (if track2 == 4 then 3 else track2)
  {
    hide PulseCode, IndexWord;
    IndexSum(Bits11, v);
    PulseCode11(0, v[0]);
    PulseCode11(1, v[1]);
  }

  lemma WordRoundTrip11(w: nat)
    requires w < 512
    ensures Legal(Bits11, Positions(Bits11, w))
    ensures IndexWord(Bits11, Positions(Bits11, w), 2) == w
  {
    hide IndexWord, Legal;
    Recompose11(w);
    Encode11(w % 2, w / 2 % 8, w / 16 % 4, w / 64 % 8, Positions(Bits11, w));
  }

  lemma Encode14(x: nat, j: nat, y: nat, k: nat, z: nat, pos: seq<Pos>)
    requires x < 8 && j < 2 && y < 8 && k < 2 && z < 8
    requires pos == [x * 5, y * 5 + 1 + j * 2, z * 5 + 2 + k * 2]
    ensures Legal(Bits14, pos) && IndexWord(Bits14, pos, 3) == x + 8 * j + 16 * y + 128 * k + 256 * z
  {
    hide IndexWord;
    OnTrack(x, 0);
    OnTrack(y, 1 + j * 2);
    OnTrack(z, 2 + k * 2);
    Word14(pos);
    hide Legal;
  }

  lemma Word14(v: seq<Pos>)
    requires |v| == 3
    ensures IndexWord(Bits14, v, 3) == Field14(v[0]) + Field14(v[1]) + Field14(v[2])
  {
    hide PulseCode, IndexWord, Field14;
    IndexSum(Bits14, v);
    PulseCode14(0, v[0]);
    PulseCode14(1, v[1]);
    PulseCode14(2, v[2]);
  }

  lemma Word17(v: seq<Pos>)
    requires |v| == 4
    ensures IndexWord(Bits17, v, 4) == Field17(v[0]) + Field17(v[1]) + Field17(v[2]) + Field17(v[3])
  {
    hide PulseCode, IndexWord, Field17;
    IndexSum(Bits17, v);
    PulseCode17(0, v[0]);
    PulseCode17(1, v[1]);
    PulseCode17(2, v[2]);
    PulseCode17(3, v[3]);
  }

  lemma WordRoundTrip14(w: nat)
    requires w < 2048
    ensures Legal(Bits14, Positions(Bits14, w))
    ensures IndexWord(Bits14, Positions(Bits14, w), 3) == w
  {
    hide IndexWord, Legal;
    Recompose14(w);
    Encode14(w % 8, w / 8 % 2, w / 16 % 8, w / 128 % 2, w / 256 % 8, Positions(Bits14, w));
  }

  lemma WordRoundTrip17(w: nat)
    requires w < 8192
    ensures Legal(Bits17, Positions(Bits17, w))
    ensures IndexWord(Bits17, Positions(Bits17, w), 4) == w
  {
    hide PulseCode, IndexWord;
    var pos := Positions(Bits17, w);
    Recompose17(w);
    Field17Of(w % 8, 0, pos[0]);
    Field17Of(w / 8 % 8, 1, pos[1]);
    Field17Of(w / 64 % 8, 2, pos[2]);
    Field17Of(w / 1024 % 8, 3 + w / 512 % 2, pos[3]);
    Word17(pos);
  }

  lemma Field17Of(g: nat, track: nat, p: Pos)
    requires g < 8 && track < STEP && p == DGRAY[g] * 5 + track
    ensures Slot(4, p) == if track == 4 then 3 else track
    ensures Field17(p) == (if track == 0 then g else if track == 1 then 8 * g else if track == 2 then 64 * g
                           else if track == 3 then 1024 * g else 1024 * g + 512)
  {
    GrayInverse(g);
    OnTrack(DGRAY[g], track);
  }

  /** Encoding what an index word decodes to gives the word back. */
  lemma WordRoundTrip(book: Book, w: nat)
    requires book.Valid() && w < book.IndexRange()
    ensures Legal(book, Positions(book, w))
    ensures IndexWord(book, Positions(book, w), book.Pulses()) == w
  {
    hide Positions, IndexWord;
    match book
    case Bits9(s) => WordRoundTrip9(s, w);
    case Bits11 => WordRoundTrip11(w);
    case Bits14 => WordRoundTrip14(w);
    case Bits17 => WordRoundTrip17(w);
  }

  // ----- signs -----

  function Positive(dnSign: Corr, p: Pos): nat { if dnSign[p] > 0 then 1 else 0 }

  /** What the k-th pulse adds to the sign word. */
  function SignPart(book: Book, v: seq<Pos>, dnSign: Corr, k: nat): (b: Word16)
    requires book.Valid() && k < |v| == book.Pulses()
  {
    if dnSign[v[k]] > 0 then Shl(1, PulseCode(book, k, v[k]).1) else 0
  }

  lemma SignSteps(book: Book, v: seq<Pos>, dnSign: Corr)
    requires book.Valid() && |v| == book.Pulses()
    requires forall k: nat :: k < |v| ==> 0 <= SignPart(book, v, dnSign, k) <= 8
    ensures SignWord(book, v, dnSign, |v|)
         == SignPart(book, v, dnSign, 0) + SignPart(book, v, dnSign, 1)
          + (if |v| >= 3 then SignPart(book, v, dnSign, 2) else 0)
          + (if |v| == 4 then SignPart(book, v, dnSign, 3) else 0)
  {
    hide PulseCode, Shl;
    assert SignWord(book, v, dnSign, 0) == 0;
    assert SignWord(book, v, dnSign, 1) == SignPart(book, v, dnSign, 0);
    assert SignWord(book, v, dnSign, 2) == SignPart(book, v, dnSign, 0) + SignPart(book, v, dnSign, 1);
    if |v| >= 3 {
      assert SignWord(book, v, dnSign, 3) == SignWord(book, v, dnSign, 2) + SignPart(book, v, dnSign, 2);
    }
  }

  /** The slot of the k-th pulse. */
  lemma SlotOfPulse(book: Book, v: seq<Pos>, k: nat)
    requires Legal(book, v) && k < |v|
    ensures PulseCode(book, k, v[k]).1 == if |v| == 2 then k else Slot(book.Pulses(), v[k])
  {
    hide PulseCode, Field14, Field17;
    match book
    case Bits9(s) => PulseCode9(s, k, v[k]);
    case Bits11 => PulseCode11(k, v[k]);
    case Bits14 => PulseCode14(k, v[k]);
    case Bits17 => PulseCode17(k, v[k]);
  }

  lemma ShlOne(t: nat)
    requires t < 4
    ensures Shl(1, t) == (if t == 0 then 1 else if t == 1 then 2 else if t == 2 then 4 else 8)
  {
    assert Pow2(0) == 1 && Pow2(1) == 2 && Pow2(2) == 4 && Pow2(3) == 8;
  }

  /** Bit `slot` of a sign word, when it belongs to a pulse of sign f. */
  function Weighted(slot: nat, f: nat): nat {
    if slot == 0 then f else if slot == 1 then 2 * f else if slot == 2 then 4 * f else 8 * f
  }

  lemma SignPartValue(book: Book, v: seq<Pos>, dnSign: Corr, k: nat)
    requires Legal(book, v) && k < |v|
    ensures SignPart(book, v, dnSign, k)
         == Weighted(if |v| == 2 then k else Slot(book.Pulses(), v[k]), Positive(dnSign, v[k]))
  {
    hide PulseCode, Legal, Shl;
    SlotOfPulse(book, v, k);
    ShlOne(if |v| == 2 then k else Slot(book.Pulses(), v[k]));
  }

  /** The value of the sign word whose bit s is the sign of pulse w[s]. */
  function SignsInOrder(dnSign: Corr, w: seq<Pos>): nat
    requires 2 <= |w| <= 4
  {
    Positive(dnSign, w[0]) + 2 * Positive(dnSign, w[1])
    + (if |w| >= 3 then 4 * Positive(dnSign, w[2]) else 0)
    + (if |w| == 4 then 8 * Positive(dnSign, w[3]) else 0)
  }

  lemma Reordered(book: Book, v: seq<Pos>, dnSign: Corr)
    requires Legal(book, v) && |v| >= 3
    ensures Weighted(Slot(book.Pulses(), v[0]), Positive(dnSign, v[0]))
          + Weighted(Slot(book.Pulses(), v[1]), Positive(dnSign, v[1]))
          + Weighted(Slot(book.Pulses(), v[2]), Positive(dnSign, v[2]))
          + (if |v| == 4 then Weighted(Slot(book.Pulses(), v[3]), Positive(dnSign, v[3])) else 0)
         == SignsInOrder(dnSign, Slotted(book, v))
  {
    hide Positive;
  }

  /** The sign word is the binary number of the signs in slot order. */
  lemma SignWordValue(book: Book, v: seq<Pos>, dnSign: Corr)
    requires Legal(book, v)
    ensures SignWord(book, v, dnSign, |v|) == SignsInOrder(dnSign, Slotted(book, v))
  {
    hide PulseCode, SignWord, SignPart, Slot, Slotted;
    forall k: nat | k < |v|
      ensures SignPart(book, v, dnSign, k)
           == Weighted(if |v| == 2 then k else Slot(book.Pulses(), v[k]), Positive(dnSign, v[k]))
    {
      SignPartValue(book, v, dnSign, k);
    }
    SignSteps(book, v, dnSign);
    if |v| == 2 { TwoAreInOrder(book, v); } else { Reordered(book, v, dnSign); }
  }

  lemma TwoAreInOrder(book: Book, v: seq<Pos>)
    requires |v| == book.Pulses() == 2
    ensures Slotted(book, v) == v
  {
  }

  /** Each bit of the sign word is the sign of the pulse in that slot. */
  lemma SignBits(dnSign: Corr, w: seq<Pos>, s: nat)
    requires 2 <= |w| <= 4 && s < |w|
    ensures Bit(SignsInOrder(dnSign, w), s) == Positive(dnSign, w[s])
  {
    assert Pow2(0) == 1 && Pow2(1) == 2 && Pow2(2) == 4 && Pow2(3) == 8;
  }

  // ----- the decoder rebuilds the encoder's code vector -----

  lemma {:induction false} DecodedIsCode(pos: seq<Pos>, sign: Word16, dnSign: Corr, n: nat)
    requires n <= |pos|
    requires forall s: nat :: s < n ==> Bit(sign, s) == Positive(dnSign, pos[s])
    ensures IsCode(Decoded(pos, sign, n), pos[..n], dnSign)
  {
    hide Bit;
    if n > 0 {
      DecodedIsCode(pos, sign, dnSign, n - 1);
      TakeOneMore(pos, n - 1);
    }
  }

  lemma SamePulses(book: Book, v: seq<Pos>)
    requires Legal(book, v)
    ensures forall p :: p in Slotted(book, v) <==> p in v
  {
    var w := Slotted(book, v);
    if |v| >= 3 {
      assert forall k :: 0 <= k < |v| ==> v[k] == w[Slot(book.Pulses(), v[k])];
      assert forall s :: 0 <= s < |w| ==> w[s] in v;
    }
  }

  /** For every legal codvec and every sign pattern, decoding the index and sign words
      gives exactly the code vector the encoder used. */
  lemma CodeRoundTrip(book: Book, v: seq<Pos>, dnSign: Corr)
    requires Legal(book, v)
    ensures IsCode(Decoded(Positions(book, IndexWord(book, v, |v|)), SignWord(book, v, dnSign, |v|), |v|), v, dnSign)
    ensures 0 <= SignWord(book, v, dnSign, |v|) < Pow2(|v|)
  {
    hide IndexWord, SignWord, Positions, Slotted, Bit;
    IndexRoundTrip(book, v);
    SignWordValue(book, v, dnSign);
    var w := Slotted(book, v);
    forall s: nat | s < |w| ensures Bit(SignWord(book, v, dnSign, |v|), s) == Positive(dnSign, w[s]) {
      SignBits(dnSign, w, s);
    }
    DecodedIsCode(w, SignWord(book, v, dnSign, |v|), dnSign, |w|);
    SamePulses(book, v);
    assert w[..|w|] == w;
    assert Pow2(2) == 4 && Pow2(3) == 8 && Pow2(4) == 16;
  }

  /** A code vector is determined by its pulses, so two vectors built from the same pulses
      are the same vector. */
  lemma CodeIsUnique(c: seq<Word16>, d: seq<Word16>, v: seq<Pos>, dnSign: Corr)
    requires IsCode(c, v, dnSign) && IsCode(d, v, dnSign)
    ensures c == d
  {
  }

  /** The preset codvec (0, 1) of the two-pulse searches is not a legal codvec, and coding
      it loses it: with both signs positive the 11-bit sign word needs a third bit. */
  lemma PresetIsNotLegal(book: Book, dnSign: Corr)
    requires book.Valid() && book.Pulses() == 2
    ensures !Legal(book, [0, 1])
    ensures book.Bits11? && dnSign[0] > 0 && dnSign[1] > 0 ==> SignWord(book, [0, 1], dnSign, 2) == 4
  {
    if book.Bits11? {
      assert Split(0) == (0, 0) && Split(1) == (0, 1);
      ShlOne(1);
      assert SignWord(book, [0, 1], dnSign, 0) == 0;
    }
  }
}
