/** The 35-bit codebook: ten pulses, two on each of five tracks. Each pair of pulses shares
    one sign bit; the second sign is carried by the order of the two positions. */
module TenPulseCode {
  import opened FixedPoint
  import opened PulseStages
  import opened PulseCoding

  const NB_TRACK := 5
  const NB_PULSE := 10
  const AMPLITUDE: Word16 := 4096

  // ----- encoder: one track -----

  /** The index of a pulse on its track, with bit 3 set when it is negative. */
  function PulseIndex(p: Pos, sign: Corr): (x: nat)
    ensures x < 16
  {
    p / STEP + (if sign[p] > 0 then 0 else 8)
  }

  /** Put two pulse indices of one track in transmission order. */
  function Order(x: nat, y: nat): (nat, nat) {
    if x / 8 % 2 == y / 8 % 2 then (if x <= y then (x, y) else (y, x))
    else if x % 8 <= y % 8 then (y, x)
    else (x, y)
  }

  /** What indx[t] and indx[t + 5] hold after the first n pulses. */
  datatype TrackState = Empty | Single(first: nat) | Pair(first: nat, second: nat)

  function AddPulse(s: TrackState, x: nat): TrackState {
    if s.Empty? then Single(x)
    else
      var (a, b) := Order(s.first, x);
      Pair(a, b)
  }

  function TrackAfter(v: seq<Pos>, sign: Corr, t: nat, n: nat): (s: TrackState)
    requires n <= |v|
    ensures (s.Single? ==> s.first < 16) && (s.Pair? ==> s.first < 16 && s.second < 16)
  {
    if n == 0 then Empty
    else if v[n - 1] % STEP == t then AddPulse(TrackAfter(v, sign, t, n - 1), PulseIndex(v[n - 1], sign))
    else TrackAfter(v, sign, t, n - 1)
  }

  // ----- encoder: the code vector -----

  function Signed(sign: Corr, p: Pos): Word16 { if sign[p] > 0 then AMPLITUDE else -AMPLITUDE }

  /** How many of the first n pulses are at p. */
  function Count(v: seq<Pos>, p: int, n: nat): (c: nat)
    requires n <= |v|
    ensures c <= n
  {
    if n == 0 then 0 else Count(v, p, n - 1) + (if v[n - 1] == p then 1 else 0)
  }

  /** Pulses at the same position add up. */
  ghost predicate IsCode10(cod: seq<Word16>, v: seq<Pos>, sign: Corr, n: nat)
    requires n <= |v|
  {
    |cod| == L_CODE && forall p :: 0 <= p < L_CODE ==> cod[p] == Wrap16(Amplitude(sign, p, Count(v, p, n)))
  }

  function Amplitude(sign: Corr, p: Pos, count: nat): int {
    if sign[p] > 0 then 4096 * count else -4096 * count
  }

  /** The contents of the index array that matter for track t. */
  ghost predicate Holds(indx: seq<int>, t: nat, s: TrackState)
    requires |indx| == NB_PULSE && t < NB_TRACK
  {
    match s
    case Empty => indx[t] == -1
    case Single(x) => indx[t] == x
    case Pair(x, y) => indx[t] == x && indx[t + 5] == y
  }

  function FilterSigns10(v: seq<Pos>, sign: Corr, n: nat): (signs: seq<Word16>)
    requires n <= |v|
    ensures |signs| == n
  {
    if n == 0 then [] else FilterSigns10(v, sign, n - 1) + [2 * Signed(sign, v[n - 1])]
  }

  lemma OnePulseMore10(c: seq<Word16>, v: seq<Pos>, sign: Corr, n: nat)
    requires n < |v| && IsCode10(c, v, sign, n)
    ensures |c| == L_CODE && IsCode10(c[v[n] := Wrap16(c[v[n]] + Signed(sign, v[n]))], v, sign, n + 1)
  {
    WrapSum(Amplitude(sign, v[n], Count(v, v[n], n)), Signed(sign, v[n]));
  }

  lemma WrapSum(a: int, b: int)
    ensures Wrap16(Wrap16(a) + b) == Wrap16(a + b)
  {
    var m := Wrapped16(a);
    WrapPeriod(a + b, m);
  }

  lemma WrapPeriod(x: int, m: int)
    ensures Wrap16(x + m * 0x1_0000) == Wrap16(x)
  {
    assert (x + m * 0x1_0000 + 0x8000) % 0x1_0000 == (x + 0x8000) % 0x1_0000;
  }

  /** File the index of one pulse under its track. */
  method FilePulse(indx: array<Word16>, track: nat, index: nat, ghost s: TrackState)
    requires indx.Length == NB_PULSE && track < NB_TRACK && index < 16 && Holds(indx[..], track, s)
    modifies indx
    ensures Holds(indx[..], track, AddPulse(s, index))
    ensures forall t :: 0 <= t < NB_PULSE && t != track && t != track + 5 ==> indx[t] == old(indx[t])
  {
    if indx[track] < 0 {
      indx[track] := index;
    } else if index / 8 % 2 == indx[track] / 8 % 2 {
      if indx[track] <= index {
        indx[track + 5] := index;
      } else {
        indx[track + 5] := indx[track];
        indx[track] := index;
      }
    } else if indx[track] % 8 <= index % 8 {
      indx[track + 5] := indx[track];
      indx[track] := index;
    } else {
      indx[track + 5] := index;
    }
  }

  /** Add one signed pulse to the code vector; its filter sign and the sign bit of its index. */
  method AddPulseTo(cod: array<Word16>, sign: Corr, i: Pos) returns (filter: Word16, bit: nat)
    requires cod.Length == L_CODE
    modifies cod
    ensures cod[..] == old(cod[..])[i := Wrap16(old(cod[i]) + Signed(sign, i))]
    ensures filter == 2 * Signed(sign, i) && bit == if sign[i] > 0 then 0 else 8
  {
    hide Wrap16;
    var c: int := cod[i];
    if sign[i] > 0 {
      cod[i] := Wrap16(c + 4096);
      filter, bit := 8192, 0;
    } else {
      cod[i] := Wrap16(c - 4096);
      filter, bit := -8192, 8;
    }
  }

  method PlacePulses10(codvec: seq<Pos>, sign: Corr, cod: array<Word16>, indx: array<Word16>)
    returns (signs: seq<Word16>)
    requires |codvec| == NB_PULSE && cod.Length == L_CODE && indx.Length == NB_PULSE && cod != indx
    modifies cod, indx
    ensures IsCode10(cod[..], codvec, sign, NB_PULSE)
    ensures Filed(indx[..], codvec, sign, NB_PULSE)
    ensures signs == FilterSigns10(codvec, sign, NB_PULSE)
  {
    SetZero(cod);
    ClearFiles(indx);
    signs := [];
    NothingPlaced(cod[..], indx[..], codvec, sign);
    hide IsCode10, Holds, AddPulse, Signed, TrackAfter, Filed, Wrap16;
    for k := 0 to NB_PULSE
      invariant IsCode10(cod[..], codvec, sign, k)
      invariant Filed(indx[..], codvec, sign, k)
      invariant signs == FilterSigns10(codvec, sign, k)
    {
      var (index, track) := Split(codvec[k]);
      OnePulseMore10(cod[..], codvec, sign, k);
      var filter, bit := AddPulseTo(cod, sign, codvec[k]);
      signs := signs + [filter];
      index := index + bit;
      ghost var code, files := cod[..], indx[..];
      FiledAt(files, codvec, sign, k, track);
      FilePulse(indx, track, index, TrackAfter(codvec, sign, track, k));
      assert cod[..] == code;
      FiledStep(files, indx[..], codvec, sign, k);
    }
  }

  lemma NothingPlaced(c: seq<Word16>, x: seq<int>, v: seq<Pos>, sign: Corr)
    requires |c| == L_CODE && |x| == NB_PULSE
    requires (forall p :: 0 <= p < L_CODE ==> c[p] == 0) && (forall t :: 0 <= t < NB_TRACK ==> x[t] == -1)
    ensures IsCode10(c, v, sign, 0) && Filed(x, v, sign, 0)
  {
  }

  /** Every track's file is up to date with the first n pulses. */
  ghost predicate Filed(indx: seq<int>, v: seq<Pos>, sign: Corr, n: nat)
    requires |indx| == NB_PULSE && n <= |v|
  {
    forall t: nat :: t < NB_TRACK ==> Holds(indx, t, TrackAfter(v, sign, t, n))
  }

  lemma FiledAt(x: seq<int>, v: seq<Pos>, sign: Corr, n: nat, t: nat)
    requires |x| == NB_PULSE && n <= |v| && Filed(x, v, sign, n) && t < NB_TRACK
    ensures Holds(x, t, TrackAfter(v, sign, t, n))
  {
  }

  lemma FiledStep(x: seq<int>, y: seq<int>, v: seq<Pos>, sign: Corr, n: nat)
    requires |x| == |y| == NB_PULSE && n < |v| && Filed(x, v, sign, n)
    requires var t := v[n] % STEP;
      && Holds(y, t, AddPulse(TrackAfter(v, sign, t, n), PulseIndex(v[n], sign)))
      && forall j :: 0 <= j < NB_PULSE && j != t && j != t + 5 ==> y[j] == x[j]
    ensures Filed(y, v, sign, n + 1)
  {
    hide Holds, AddPulse;
    var m := n + 1;
    forall t: nat | t < NB_TRACK
      ensures Holds(y, t, TrackAfter(v, sign, t, m))
    {
      if t != v[n] % STEP { SameFiles(x, y, t, TrackAfter(v, sign, t, n)); }
    }
  }

  method ClearFiles(indx: array<Word16>)
    requires indx.Length == NB_PULSE
    modifies indx
    ensures forall t :: 0 <= t < NB_TRACK ==> indx[t] == -1
  {
    for i := 0 to NB_TRACK
      invariant forall t :: 0 <= t < i ==> indx[t] == -1
    {
      indx[i] := -1;
    }
  }

  lemma SameFiles(x: seq<int>, y: seq<int>, t: nat, s: TrackState)
    requires |x| == |y| == NB_PULSE && t < NB_TRACK && Holds(x, t, s)
    requires x[t] == y[t] && x[t + 5] == y[t + 5]
    ensures Holds(y, t, s)
  {
  }

  // ----- quantisation of the indices and the decoder -----

  /** q_p: Gray-code the position; only the first five words keep their sign bit. */
  function Quantised(x: int, n: nat): (q: Word16)
    ensures 0 <= q < 16
  {
    GrayInverse(x % 8);
    GRAY[x % 8] + (if n < NB_TRACK then x / 8 % 2 * 8 else 0)
  }

  method QuantiseAll(indx: array<Word16>)
    requires indx.Length == NB_PULSE
    modifies indx
    ensures forall n :: 0 <= n < NB_PULSE ==> indx[n] == Quantised(old(indx[n]), n)
  {
    hide Quantised;
    for i := 0 to NB_PULSE
      invariant forall n :: 0 <= n < i ==> indx[n] == Quantised(old(indx[n]), n)
      invariant forall n :: i <= n < NB_PULSE ==> indx[n] == old(indx[n])
    {
      indx[i] := Quantised(indx[i], i);
    }
  }

  /** The position coded in the low three bits of a word of track t. */
  function DecodedPos(t: nat, word: int): (p: Pos)
    requires t < NB_TRACK
    ensures p % STEP == t
  {
    GrayInverse(word % 8);
    OnTrack(DGRAY[word % 8], t);
    DGRAY[word % 8] * 5 + t
  }

  function FirstSign(word: int): (s: Word16)
    ensures s == 4096 || s == -4096
  {
    4096 - word / 8 % 2 * 8192
  }

  /** The second pulse has the opposite sign when it precedes the first. */
  function SecondSign(t: nat, a: int, b: int): Word16
    requires t < NB_TRACK
  {
    if DecodedPos(t, b) < DecodedPos(t, a) then -FirstSign(a) else FirstSign(a)
  }

  /** What the two words of track t put at position p. */
  function TrackCode(t: nat, a: int, b: int, p: Pos): int
    requires t < NB_TRACK
  {
    (if p == DecodedPos(t, a) then FirstSign(a) else 0) + (if p == DecodedPos(t, b) then SecondSign(t, a, b) else 0)
  }

  /** The decoded vector when the first n tracks are done. */
  ghost predicate Rebuilt(cod: seq<Word16>, index: seq<Word16>, n: nat)
    requires |index| == NB_PULSE && n <= NB_TRACK
  {
    |cod| == L_CODE && forall p: Pos ::
      cod[p] == if p % STEP < n then TrackCode(p % STEP, index[p % STEP], index[p % STEP + 5], p) else 0
  }

  /** The two writes for track j. */
  function TwoWrites(c: seq<Word16>, t: nat, a: int, b: int): (d: seq<Word16>)
    requires |c| == L_CODE && t < NB_TRACK
    ensures |d| == L_CODE
  {
    var first := c[DecodedPos(t, a) := FirstSign(a)];
    first[DecodedPos(t, b) := Wrap16(first[DecodedPos(t, b)] as int + SecondSign(t, a, b))]
  }

  lemma TrackRebuilt(c: seq<Word16>, index: seq<Word16>, j: nat)
    requires |index| == NB_PULSE && j < NB_TRACK && Rebuilt(c, index, j)
    ensures Rebuilt(TwoWrites(c, j, index[j], index[j + 5]), index, j + 1)
  {
    hide DecodedPos, TrackCode;
    var d := TwoWrites(c, j, index[j], index[j + 5]);
    forall p: Pos
      ensures d[p] == if p % STEP < j + 1 then TrackCode(p % STEP, index[p % STEP], index[p % STEP + 5], p) else 0
    {
      if p % STEP == j { WrittenAt(c, j, index[j], index[j + 5], p); }
    }
  }

  lemma WrittenAt(c: seq<Word16>, t: nat, a: int, b: int, p: Pos)
    requires |c| == L_CODE && t < NB_TRACK && c[p] == 0
    ensures TwoWrites(c, t, a, b)[p] == TrackCode(t, a, b, p)
  {
    hide DecodedPos;
  }

  method DecodeTrack(t: nat, a: Word16, b: Word16, cod: array<Word16>)
    requires t < NB_TRACK && cod.Length == L_CODE
    modifies cod
    ensures cod[..] == TwoWrites(old(cod[..]), t, a, b)
  {
    hide DecodedPos, FirstSign;
    var pos1 := DecodedPos(t, a);
    var sign := FirstSign(a);
    cod[pos1] := sign;
    var pos2 := DecodedPos(t, b);
    if pos2 < pos1 {
      sign := -sign;
    }
    cod[pos2] := Wrap16(cod[pos2] as int + sign);
  }

  method Decode10(index: seq<Word16>, cod: array<Word16>)
    requires |index| == NB_PULSE && cod.Length == L_CODE
    modifies cod
    ensures Rebuilt(cod[..], index, NB_TRACK)
  {
    SetZero(cod);
    assert Rebuilt(cod[..], index, 0);
    hide TwoWrites, Rebuilt;
    for j := 0 to NB_TRACK
      invariant Rebuilt(cod[..], index, j)
    {
      TrackRebuilt(cod[..], index, j);
      DecodeTrack(j, index[j], index[j + 5], cod);
    }
  }

  // ----- losslessness -----

  /** The pulses of track t among the first n, in codvec order. */
  function TrackPulses(v: seq<Pos>, t: nat, n: nat): (ps: seq<Pos>)
    requires n <= |v|
    ensures forall k :: 0 <= k < |ps| ==> ps[k] % STEP == t
  {
    if n == 0 then []
    else if v[n - 1] % STEP == t then TrackPulses(v, t, n - 1) + [v[n - 1]]
    else TrackPulses(v, t, n - 1)
  }

  /** The code vectors of this codebook have exactly two pulses on each track. */
  ghost predicate TwoPerTrack(v: seq<Pos>) {
    |v| == NB_PULSE && forall t: nat :: t < NB_TRACK ==> |TrackPulses(v, t, NB_PULSE)| == 2
  }

  function Hits(ps: seq<Pos>, p: Pos): nat {
    if ps == [] then 0 else Hits(ps[..|ps| - 1], p) + (if ps[|ps| - 1] == p then 1 else 0)
  }

  lemma {:induction false} CountIsHits(v: seq<Pos>, p: Pos, n: nat)
    requires n <= |v|
    ensures Count(v, p, n) == Hits(TrackPulses(v, p % STEP, n), p)
  {
    if n > 0 {
      CountIsHits(v, p, n - 1);
      if v[n - 1] % STEP == p % STEP {
        assert TrackPulses(v, p % STEP, n)[..|TrackPulses(v, p % STEP, n)| - 1] == TrackPulses(v, p % STEP, n - 1);
      }
    }
  }

  lemma {:induction false} FileOfTrack(v: seq<Pos>, sign: Corr, t: nat, n: nat)
    requires n <= |v| && |TrackPulses(v, t, n)| <= 2
    ensures var ps := TrackPulses(v, t, n);
      TrackAfter(v, sign, t, n) ==
        if |ps| == 0 then Empty
        else if |ps| == 1 then Single(PulseIndex(ps[0], sign))
        else
          var (x, y) := Order(PulseIndex(ps[0], sign), PulseIndex(ps[1], sign));
          Pair(x, y)
  {
    hide Order, PulseIndex;
    if n > 0 { FileOfTrack(v, sign, t, n - 1); }
  }

  lemma QuantisedBits(x: nat, n: nat)
    requires x < 16
    ensures Quantised(x, n) % 8 == GRAY[x % 8]
    ensures Quantised(x, n) / 8 % 2 == if n < NB_TRACK then x / 8 % 2 else 0
  {
    GrayInverse(x % 8);
  }

  /** A quantised first word gives back position and sign; a second word the position. */
  lemma WordDecodes(p: Pos, sign: Corr, x: nat, n: nat)
    requires x == PulseIndex(p, sign)
    ensures DecodedPos(p % STEP, Quantised(x, n)) == p
    ensures n < NB_TRACK ==> FirstSign(Quantised(x, n)) == Signed(sign, p)
  {
    hide Quantised;
    QuantisedBits(x, n);
    GrayInverse(p / STEP);
    assert x % 8 == p / STEP && x / 8 % 2 == if sign[p] > 0 then 0 else 1;
  }

  /** The order of the two words of a track tells whether their signs agree. */
  lemma OrderTellsSign(p: Pos, q: Pos, sign: Corr) returns (f: Pos, g: Pos)
    requires p % STEP == q % STEP
    ensures (f == p && g == q) || (f == q && g == p)
    ensures Order(PulseIndex(p, sign), PulseIndex(q, sign)) == (PulseIndex(f, sign), PulseIndex(g, sign))
    ensures Signed(sign, f) == Signed(sign, g) <==> g >= f
  {
    assert p / STEP < q / STEP <==> p < q;
    if Order(PulseIndex(p, sign), PulseIndex(q, sign)) == (PulseIndex(p, sign), PulseIndex(q, sign)) {
      f, g := p, q;
    } else {
      f, g := q, p;
    }
  }

  /** The two words of a track decode to exactly the two pulses they were made of, also
      when both pulses sit on the same position. */
  lemma TrackLossless(p: Pos, q: Pos, sign: Corr, r: Pos)
    requires p % STEP == q % STEP == r % STEP
    ensures var t := r % STEP;
      var (x, y) := Order(PulseIndex(p, sign), PulseIndex(q, sign));
      TrackCode(t, Quantised(x, t), Quantised(y, t + 5), r)
        == Amplitude(sign, r, (if p == r then 1 else 0) + (if q == r then 1 else 0))
  {
    hide Order, Quantised, PulseIndex, DecodedPos, FirstSign;
    var t := r % STEP;
    var f, g := OrderTellsSign(p, q, sign);
    WordDecodes(f, sign, PulseIndex(f, sign), t);
    WordDecodes(g, sign, PulseIndex(g, sign), t + 5);
  }

  /** Whatever the order of the pulses in codvec, the ten transmitted words determine the
      code vector: the decoder rebuilds it exactly. */
  lemma TenPulseRoundTrip(v: seq<Pos>, sign: Corr, cod: seq<Word16>, indx: seq<Word16>,
                          index: seq<Word16>, decoded: seq<Word16>)
    requires TwoPerTrack(v) && IsCode10(cod, v, sign, NB_PULSE)
    requires |indx| == |index| == NB_PULSE && Filed(indx, v, sign, NB_PULSE)
    requires forall n :: 0 <= n < NB_PULSE ==> index[n] == Quantised(indx[n], n)
    requires Rebuilt(decoded, index, NB_TRACK)
    ensures decoded == cod
  {
    hide Order, Quantised, PulseIndex, TrackCode, Amplitude, Wrap16;
    forall r: Pos ensures decoded[r] == cod[r] {
      var t := r % STEP;
      var ps := TrackPulses(v, t, NB_PULSE);
      FiledAt(indx, v, sign, NB_PULSE, t);
      FileOfTrack(v, sign, t, NB_PULSE);
      TrackLossless(ps[0], ps[1], sign, r);
      CountIsHits(v, r, NB_PULSE);
      TwoHits(ps, r);
      SmallAmplitude(sign, r, Count(v, r, NB_PULSE));
    }
  }

  lemma TwoHits(ps: seq<Pos>, r: Pos)
    requires |ps| == 2
    ensures Hits(ps, r) == (if ps[0] == r then 1 else 0) + (if ps[1] == r then 1 else 0)
  {
    var one := ps[..1];
    assert one[..0] == [] && one[0] == ps[0];
    assert Hits(one, r) == Hits(one[..0], r) + (if one[0] == r then 1 else 0);
  }

  lemma SmallAmplitude(sign: Corr, r: Pos, c: nat)
    requires c <= 2
    ensures Wrap16(Amplitude(sign, r, c)) == Amplitude(sign, r, c)
  {
  }

  method BuildCode10(codvec: seq<Pos>, sign: Corr, h: Corr, cod: array<Word16>, y: array<Word16>, indx: array<Word16>)
    requires |codvec| == NB_PULSE && cod.Length == L_CODE && y.Length == L_CODE && indx.Length == NB_PULSE
    requires cod != indx && cod != y && y != indx
    modifies cod, y, indx
    ensures IsCode10(cod[..], codvec, sign, NB_PULSE) && Filed(indx[..], codvec, sign, NB_PULSE)
    ensures forall i :: 0 <= i < L_CODE ==>
      y[i] == Round(Accumulate(h, codvec, FilterSigns10(codvec, sign, NB_PULSE), i, NB_PULSE))
  {
    hide IsCode10, Filed;
    var signs := PlacePulses10(codvec, sign, cod, indx);
    ghost var code, files := cod[..], indx[..];
    FilterPulses(h, codvec, signs, y);
    assert cod[..] == code && indx[..] == files;
  }

  /** build_code followed by q_p on every word, then the decoder. */
  method EncodeThenDecode(codvec: seq<Pos>, sign: Corr, cod: array<Word16>, indx: array<Word16>, decoded: array<Word16>)
    requires TwoPerTrack(codvec)
    requires cod.Length == L_CODE && indx.Length == NB_PULSE && decoded.Length == L_CODE
    requires cod != indx && cod != decoded && indx != decoded
    modifies cod, indx, decoded
    ensures decoded[..] == cod[..] && IsCode10(cod[..], codvec, sign, NB_PULSE)
  {
    hide IsCode10, Filed, Rebuilt, Quantised, TwoPerTrack;
    assert |codvec| == NB_PULSE by { TwoPerTrackLength(codvec); }
    var _ := PlacePulses10(codvec, sign, cod, indx);
    ghost var code, files := cod[..], indx[..];
    QuantiseAll(indx);
    Decode10(indx[..], decoded);
    assert cod[..] == code;
    TenPulseRoundTrip(codvec, sign, code, files, indx[..], decoded[..]);
  }

  lemma TwoPerTrackLength(v: seq<Pos>)
    requires TwoPerTrack(v)
    ensures |v| == NB_PULSE
  {
  }

  // ----- the filtered code vector -----

  /** Sample i of the convolution of the first n code samples with h. */
  function Convolution(cod: seq<int>, h: Corr, i: Pos, n: nat): int
    requires n <= |cod| <= L_CODE
  {
    if n == 0 then 0 else Convolution(cod, h, i, n - 1) + cod[n - 1] * Impulse(h, i - (n - 1))
  }

  /** The exact sum of the signed impulse responses of the first n pulses. */
  function PulseSum(v: seq<Pos>, sign: Corr, h: Corr, i: Pos, n: nat): int
    requires n <= |v|
  {
    if n == 0 then 0
    else
      var x := Impulse(h, i - v[n - 1]);
      PulseSum(v, sign, h, i, n - 1) + (if sign[v[n - 1]] > 0 then x else 0 - x)
  }

  /** While |h| <= 13107 ten terms of 16384 * h never saturate the accumulator. */
  lemma {:induction false} AccumulateExact(v: seq<Pos>, sign: Corr, h: Corr, i: Pos, n: nat)
    requires n <= |v| == NB_PULSE
    requires forall j :: 0 <= j < L_CODE ==> -13107 <= h[j] <= 13107
    ensures -13107 * n <= PulseSum(v, sign, h, i, n) <= 13107 * n
    ensures Accumulate(h, v, FilterSigns10(v, sign, NB_PULSE), i, n) == 16384 * PulseSum(v, sign, h, i, n)
  {
    if n > 0 {
      AccumulateExact(v, sign, h, i, n - 1);
      FilterSignAt(v, sign, NB_PULSE, n - 1);
      ExactMac(16384 * PulseSum(v, sign, h, i, n - 1), Impulse(h, i - v[n - 1]), sign[v[n - 1]] > 0);
    }
  }

  lemma ExactMac(acc: int, x: Word16, positive: bool)
    requires -16384 * 13107 * 9 <= acc <= 16384 * 13107 * 9 && -13107 <= x <= 13107
    ensures LMac(acc, x, if positive then 8192 else -8192) == acc + (if positive then 16384 * x else -16384 * x)
  {
  }

  lemma {:induction false} FilterSignAt(v: seq<Pos>, sign: Corr, n: nat, k: nat)
    requires k < n <= |v|
    ensures FilterSigns10(v, sign, n)[k] == 2 * Signed(sign, v[k])
  {
    if k < n - 1 { FilterSignAt(v, sign, n - 1, k); }
  }

  /** The code vector of the first n pulses, without wrap-around. */
  function Ideal(v: seq<Pos>, sign: Corr, n: nat): (c: seq<int>)
    requires n <= |v|
    ensures |c| == L_CODE
  {
    if n == 0 then Silence()
    else
      var c := Ideal(v, sign, n - 1);
      c[v[n - 1] := c[v[n - 1]] + Signed(sign, v[n - 1])]
  }

  lemma {:induction false} IdealAt(v: seq<Pos>, sign: Corr, n: nat, p: Pos)
    requires n <= |v|
    ensures Ideal(v, sign, n)[p] == Amplitude(sign, p, Count(v, p, n))
  {
    if n > 0 { IdealAt(v, sign, n - 1, p); }
  }

  /** Adding d at position p adds d * h[i - p] to the convolution. */
  lemma {:induction false} ConvolutionBump(c: seq<int>, h: Corr, i: Pos, n: nat, p: Pos, d: int)
    requires n <= |c| == L_CODE
    ensures Convolution(c[p := c[p] + d], h, i, n)
         == Convolution(c, h, i, n) + (if p < n then d * Impulse(h, i - p) else 0)
  {
    if n > 0 {
      ConvolutionBump(c, h, i, n - 1, p, d);
      if p == n - 1 { Distribute(c[p], d, Impulse(h, i - p)); }
    }
  }

  lemma Distribute(a: int, d: int, x: int)
    ensures (a + d) * x == a * x + d * x
  {
  }

  lemma {:induction false} SilentConvolution(h: Corr, i: Pos, n: nat)
    requires n <= L_CODE
    ensures Convolution(Silence(), h, i, n) == 0
  {
    if n > 0 { SilentConvolution(h, i, n - 1); }
  }

  lemma {:induction false} ConvolutionIsPulseSum(v: seq<Pos>, sign: Corr, h: Corr, i: Pos, n: nat)
    requires n <= |v|
    ensures Convolution(Ideal(v, sign, n), h, i, L_CODE) == 4096 * PulseSum(v, sign, h, i, n)
  {
    hide Convolution;
    if n == 0 {
      SilentConvolution(h, i, L_CODE);
    } else {
      ConvolutionIsPulseSum(v, sign, h, i, n - 1);
      ConvolutionBump(Ideal(v, sign, n - 1), h, i, L_CODE, v[n - 1], Signed(sign, v[n - 1]));
    }
  }

  /** The filtered vector is the code vector convolved with h, scaled by four, rounded and
      clipped once at the end: no intermediate sum saturates while |h| <= 13107. */
  lemma FilteredIsConvolution(v: seq<Pos>, sign: Corr, h: Corr, cod: seq<Word16>, i: Pos)
    requires TwoPerTrack(v) && IsCode10(cod, v, sign, NB_PULSE)
    requires forall j :: 0 <= j < L_CODE ==> -13107 <= h[j] <= 13107
    ensures Round(Accumulate(h, v, FilterSigns10(v, sign, NB_PULSE), i, NB_PULSE))
         == Sat16((4 * Convolution(cod, h, i, L_CODE) + 0x8000) / 0x1_0000)
  {
    hide Convolution, Accumulate, Ideal, PulseSum, Wrap16, Amplitude;
    forall p: Pos ensures cod[p] == Ideal(v, sign, NB_PULSE)[p] {
      IdealAt(v, sign, NB_PULSE, p);
      CountIsHits(v, p, NB_PULSE);
      TwoHits(TrackPulses(v, p % STEP, NB_PULSE), p);
      SmallAmplitude(sign, p, Count(v, p, NB_PULSE));
    }
    assert cod == Ideal(v, sign, NB_PULSE);
    ConvolutionIsPulseSum(v, sign, h, i, NB_PULSE);
    AccumulateExact(v, sign, h, i, NB_PULSE);
  }
}
