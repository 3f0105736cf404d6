/** Codebook gain averaging (Cb_gain_average): the spectral distance of a frame, the
    hangover counters and the smoothed gain, over whole runs of frames. */
module GainAverage {
  import opened FixedPoint
  import opened Kernel
  import opened Modes

  const ORDER := 10
  const HISTORY := 7

  /** mode <= MR67 || mode == MR102 */
  predicate Smooths(m: Mode) { m.MR475? || m.MR515? || m.MR59? || m.MR67? || m.MR102? }

  /** mode < MR67 */
  predicate LowRate(m: Mode) { m.MR475? || m.MR515? || m.MR59? }

  type Lsp = s: seq<Word16> | |s| == 10 witness seq(10, _ => 0)

  datatype Frame = Frame(mode: Mode, gainCode: Word16, lsp: Lsp, lspAver: Lsp,
                         bfi: bool, prevBf: bool, pdfi: bool, prevPdf: bool,
                         inBackgroundNoise: bool, voicedHangover: Word16)

  // ----- the distance of one line spectral pair from its average -----

  function Deviation(a: Word16, l: Word16): (d: Word16)
    ensures 0 <= d
  {
    AbsS(Sub(a, l))
  }

  function Numerator(d: Word16): Word16 { Shl(d, Sub(NormS(d), 1)) }

  function Denominator(a: Word16): Word16 { Shl(a, NormS(a)) }

  /** div_s is called within its range exactly when the average is positive. */
  lemma DivisionDefined(d: Word16, a: Word16)
    requires 0 <= d
    ensures DivSDefined(Numerator(d), Denominator(a)) <==> a > 0
    ensures a > 0 ==> 16384 <= Denominator(a) && Denominator(a) == a * Pow2(NormS(a)) && NormS(a) <= 15
    ensures Numerator(d) < 16384 && NormS(d) <= 15
    ensures NormS(d) >= 1 ==> Numerator(d) == d * Pow2(NormS(d) - 1)
  {
    hide Shl, NormS;
    NumeratorBelow(d);
    if a == 0 { ZeroShifts(); }
    if a != 0 {
      NormalizeShort(a);
      MulSign(a, Pow2(NormS(a)));
    }
  }

  lemma ZeroShifts()
    ensures NormS(0) == 0 && Shl(0, 0) == 0 && Shl(0, -1) == 0
  {
    assert Pow2(1) == 2 by { assert Pow2(0) == 1; }
  }

  lemma NumeratorBelow(d: Word16)
    requires 0 <= d
    ensures 0 <= Numerator(d) < 16384 && NormS(d) <= 15
    ensures NormS(d) >= 1 ==> Numerator(d) == d * Pow2(NormS(d) - 1)
  {
    hide Shl, NormS;
    if d == 0 {
      ZeroShifts();
    } else {
      NormalizeShort(d);
      var n := NormS(d);
      MulSign(d, Pow2(n));
      if n == 0 {
        ShrOne(d);
        assert Pow2(0) == 1;
      } else {
        HalfOfNormal(d, n);
      }
    }
  }

  lemma HalfOfNormal(d: Word16, n: nat)
    requires 0 <= d && 1 <= n <= 15 && d * Pow2(n) <= MAX_16
    ensures Shl(d, n - 1) == d * Pow2(n - 1) < 16384
    ensures 0 <= d * Pow2(n - 1)
  {
    hide Shl, Pow2;
    var p := Pow2(n - 1);
    DoubledPower(n);
    ShlSaturates(d, n - 1);
    ShiftOnce(d, p);
    assert 2 * (d as int) * p == 2 * (d * p);
    MulSign(d, p);
  }

  lemma ShrOne(d: Word16)
    ensures Shl(d, -1) == (d as int) / 2
  {
    assert Pow2(1) == 2 by { assert Pow2(0) == 1; }
  }

  /** The relative deviation in Q13, one loop iteration. */
  function Distance(a: Word16, l: Word16): Word16
    requires a > 0
  {
    hide Numerator, Denominator, NormS, Deviation;
    var d := Deviation(a, l);
    DivisionDefined(d, a);
    var shift := Sub(Add(2, Sub(NormS(d), 1)), NormS(a));
    var q := Quotient(Numerator(d), Denominator(a));
    if shift >= 0 then Shr(q, shift) else Shl(q, Negate(shift))
  }

  /** The deviation as it enters the division: from 2^14 on its last bit is lost. */
  function Divided(d: Word16): (c: int)
    requires 0 <= d
    ensures 0 <= c <= d <= c + 1
  {
    if NormS(d) == 0 then d - d % 2 else d
  }

  /** How far the quotient has to be shifted left again. */
  function LeftShift(d: Word16, a: Word16): nat {
    if NormS(a) > NormS(d) + 1 then NormS(a) - NormS(d) - 1 else 0
  }

  /** The distance, for every deviation and every positive average: the ratio in Q13,
      rounded down to a multiple of 2^k and clipped, where k > 0 only for deviations well
      above the average. */
  lemma DistanceIs(a: Word16, l: Word16)
    requires a > 0
    ensures var d := Deviation(a, l);
            var k := LeftShift(d, a);
            k <= 13 && Distance(a, l) == Sat16(Divided(d) * Pow2(13 - k) / a * Pow2(k))
  {
    hide Distance, Shl, Shr, NormS, Quotient, Numerator, Denominator, Deviation, Divided, Sat16, Pow2, Asr;
    var d := Deviation(a, l);
    DivisionDefined(d, a);
    NumeratorIs(d);
    NormPositive(a);
    DistanceShifts(a, l);
    var n1, n2 := NormS(d), NormS(a);
    var q := Quotient(Numerator(d), Denominator(a));
    QuotientScaled(Numerator(d), Denominator(a), Divided(d), a, n1, n2);
    if n2 <= n1 + 1 {
      RoundedOnce(Divided(d), a, n1, n2, q);
      Unclipped(q, 1 + n1 - n2);
    } else {
      ShlSaturates(q, n2 - n1 - 1);
      RoundedEarly(Divided(d), a, n1, n2, q);
    }
  }

  /** The bounds of the quotient in terms of the unshifted operands. */
  lemma QuotientScaled(num: Word16, den: Word16, c: int, a: int, n1: nat, n2: nat)
    requires DivSDefined(num, den) && num < den
    requires 2 * (num as int) == c * Pow2(n1) && den == a * Pow2(n2)
    ensures var q := Quotient(num, den);
            q * (a * Pow2(n2)) <= c * Pow2(n1) * 0x4000 < (q + 1) * (a * Pow2(n2))
  {
    hide Pow2;
  }

  lemma DistanceShifts(a: Word16, l: Word16)
    requires a > 0
    ensures var d := Deviation(a, l);
            var shift := 1 + NormS(d) - NormS(a);
            && NormS(d) <= 15 && NormS(a) <= 15
            && DivSDefined(Numerator(d), Denominator(a))
            && Distance(a, l) == (if shift >= 0 then Shr(Quotient(Numerator(d), Denominator(a)), shift)
                                  else Shl(Quotient(Numerator(d), Denominator(a)), -shift))
  {
    hide Shl, Shr, NormS, Quotient, Numerator, Denominator, Deviation;
    DivisionDefined(Deviation(a, l), a);
  }

  lemma Unclipped(q: Word16, k: nat)
    requires q >= 0 && k <= 31
    ensures Sat16(q / Pow2(k) * Pow2(0)) == q / Pow2(k) == Asr(q, k) == Shr(q, k)
  {
    AsrBounds(q, k);
    assert Pow2(0) == 1;
  }

  lemma NormPositive(a: Word16)
    requires a > 0
    ensures NormS(a) <= 14
  {
    hide NormS, Shl;
    NormalizeShort(a);
    MulMono(1, a, Pow2(NormS(a)));
    Pow2Values();
    if NormS(a) > 14 { Pow2Mono(15, NormS(a)); }
  }

  /** Twice the numerator is the divided deviation, normalised. */
  lemma NumeratorIs(d: Word16)
    requires 0 <= d
    ensures 2 * (Numerator(d) as int) == Divided(d) * Pow2(NormS(d))
  {
    hide Shl, NormS, Numerator, Pow2;
    NumeratorBelow(d);
    if NormS(d) == 0 {
      NumeratorUnshifted(d);
    } else {
      var p := Pow2(NormS(d) - 1);
      DoubledPower(NormS(d));
      ShiftOnce(d, p);
      assert 2 * (d as int) * p == 2 * (d * p);
    }
  }

  lemma DoubledPower(n: nat)
    requires n >= 1
    ensures Pow2(n) == 2 * Pow2(n - 1)
  {
  }

  lemma NumeratorUnshifted(d: Word16)
    requires 0 <= d && NormS(d) == 0
    ensures 2 * (Numerator(d) as int) == (d as int - d as int % 2) * Pow2(0)
  {
    hide Shl, NormS;
    ShrOne(d);
    assert Pow2(0) == 1;
  }

  lemma RoundedOnce(c: int, a: int, n1: nat, n2: nat, q: int)
    requires a > 0 && c >= 0 && n2 <= n1 + 1
    requires q * (a * Pow2(n2)) <= c * Pow2(n1) * 0x4000 < (q + 1) * (a * Pow2(n2))
    ensures q / Pow2(1 + n1 - n2) == c * Pow2(13) / a
  {
    hide Pow2;
    var k := 1 + n1 - n2;
    Scales(k, n1, n2);
    FloorOfFloor(c, a, Pow2(k), Pow2(n1), Pow2(n2), q);
  }

  lemma Scales(k: nat, n1: nat, n2: nat)
    requires k + n2 == 1 + n1
    ensures Pow2(k) * Pow2(n2) == 2 * Pow2(n1) && Pow2(13) == 8192
  {
    hide Pow2;
    Pow2Split(k, n2);
    Pow2Split(1, n1);
    SmallPowers();
  }

  lemma FloorOfFloor(c: int, a: int, p: int, p1: int, p2: int, q: int)
    requires a > 0 && c >= 0 && p >= 1 && p1 >= 1 && p2 >= 1 && p * p2 == 2 * p1
    requires q * (a * p2) <= c * p1 * 0x4000 < (q + 1) * (a * p2)
    ensures q / p == c * 8192 / a
  {
    var r := q / p;
    assert q == r * p + q % p;
    FloorBelow(c, a, p, p1, p2, q, r, q % p);
  }

  lemma FloorBelow(c: int, a: int, p: int, p1: int, p2: int, q: int, r: int, m: int)
    requires a > 0 && p >= 1 && p1 >= 1 && p2 >= 1 && p * p2 == 2 * p1
    requires q * (a * p2) <= c * p1 * 0x4000 < (q + 1) * (a * p2)
    requires q == r * p + m && 0 <= m < p
    ensures r == c * 8192 / a
  {
    var u := a * p2;
    MulMono(1, p2, a);
    var x := r * p;
    MulMono(x, q, u);
    MulMono(q + 1, x + p, u);
    Twofold(r, p, a, p1, p2);
    Twofold(r + 1, p, a, p1, p2);
    assert (r + 1) * p == x + p;
    // 2 p1 r a <= 2 p1 8192 c < 2 p1 (r + 1) a
    Cancel(r * a, c * 8192, p1);
    CancelStrict(c * 8192, (r + 1) * a, p1);
    assert (r + 1) * a == r * a + a;
    EuclidUnique(c * 8192, a, r, c * 8192 - r * a);
  }

  lemma Twofold(r: int, p: int, a: int, p1: int, p2: int)
    requires p * p2 == 2 * p1
    ensures (r * p) * (a * p2) == 2 * p1 * (r * a)
  {
    assert (r * p) * (a * p2) == (r * a) * (p * p2);
  }

  lemma Cancel(x: int, y: int, p1: int)
    requires p1 >= 1 && 2 * p1 * x <= 2 * p1 * y
    ensures x <= y
  {
    if y < x { MulMono(y + 1, x, p1); }
  }

  lemma CancelStrict(x: int, y: int, p1: int)
    requires p1 >= 1 && 2 * p1 * x < 2 * p1 * y
    ensures x < y
  {
    if y <= x { MulMono(y, x, p1); }
  }

  lemma RoundedEarly(c: int, a: int, n1: nat, n2: nat, q: int)
    requires a > 0 && c >= 0 && n1 + 1 < n2 <= 14
    requires q * (a * Pow2(n2)) <= c * Pow2(n1) * 0x4000 < (q + 1) * (a * Pow2(n2))
    ensures q == c * Pow2(13 - (n2 - n1 - 1)) / a
  {
    hide Pow2;
    var k := n2 - n1 - 1;
    EarlyScales(k, n1, n2);
    EarlyFloor(c, a, Pow2(n1), Pow2(k), Pow2(13 - k), Pow2(n2), q);
    EuclidUnique(c * Pow2(13 - k), a, q, c * Pow2(13 - k) - q * a);
  }

  lemma EarlyFloor(c: int, a: int, p1: int, p: int, r: int, p2: int, q: int)
    requires a > 0 && p1 >= 1 && p >= 1 && p2 == 2 * p1 * p && p * r == 0x2000
    requires q * (a * p2) <= c * p1 * 0x4000 < (q + 1) * (a * p2)
    ensures q * a <= c * r < q * a + a
  {
    var w := p1 * p;
    assert p2 == 2 * w;
    assert w >= 1 by { MulMono(1, p, p1); }
    PowersOut(c, p1, p, r);
    FactorOut(q, a, w);
    FactorOut(q + 1, a, w);
    assert (q + 1) * a == q * a + a;
    Cancel(q * a, c * r, w);
    CancelStrict(c * r, q * a + a, w);
  }

  lemma PowersOut(c: int, p1: int, p: int, r: int)
    requires p * r == 0x2000
    ensures c * p1 * 0x4000 == 2 * (p1 * p) * (c * r)
  {
    assert (p1 * p) * (c * r) == (c * p1) * (p * r);
  }

  lemma FactorOut(q: int, a: int, w: int)
    ensures q * (a * (2 * w)) == 2 * w * (q * a)
  {
  }

  lemma EarlyScales(k: nat, n1: nat, n2: nat)
    requires n2 == n1 + k + 1 && k <= 13
    ensures Pow2(n2) == 2 * Pow2(n1) * Pow2(k) && Pow2(k) * Pow2(13 - k) == 0x2000
  {
    Pow2Split(n1 + 1, k);
    Pow2Split(k, 13 - k);
    SmallPowers();
  }

  /** While nothing is shifted left and no bit of the deviation is lost, the two
      truncations together are one. */
  lemma DistanceIsRatio(a: Word16, l: Word16)
    requires a > 0
    requires NormS(Deviation(a, l)) >= 1 && NormS(Deviation(a, l)) + 1 >= NormS(a)
    ensures Distance(a, l) == Sat16(Deviation(a, l) as int * 8192 / a)
  {
    hide NormS, Distance, Deviation, Sat16;
    DistanceIs(a, l);
    SmallPowers();
  }

  lemma SmallPowers()
    ensures Pow2(0) == 1 && Pow2(1) == 2 && Pow2(13) == 8192
  {
    assert Pow2(1) == 2 * Pow2(0);
    Pow2Values();
    assert Pow2(15) == 4 * Pow2(13);
  }

  /** The errors are one-sided: the distance never exceeds the true ratio, and falls short
      of it by less than 2^k units and one unit of the deviation, unless it is clipped. */
  lemma DistanceAtMostRatio(a: Word16, l: Word16)
    requires a > 0
    ensures var d := Deviation(a, l);
            && Distance(a, l) as int * a <= d as int * 8192
            && (Distance(a, l) == MAX_16 || (d as int - 1) * 8192 < (Distance(a, l) as int + Pow2(LeftShift(d, a))) * a)
  {
    hide NormS, Distance, Deviation, Divided, LeftShift;
    var d := Deviation(a, l);
    var k := LeftShift(d, a);
    DistanceIs(a, l);
    var c, p, r := Divided(d), Pow2(k), Pow2(13 - k);
    assert p * r == 8192 by { Pow2Split(k, 13 - k); SmallPowers(); }
    CoarseFloor(c, a, p, r, c * r / a);
  }

  lemma CoarseFloor(c: int, a: int, p: int, r: int, q: int)
    requires a > 0 && c >= 0 && p >= 1 && r >= 1 && p * r == 8192 && q == c * r / a
    ensures 0 <= q * p && (q * p) * a <= c * 8192 < (q * p + p) * a
    ensures Sat16(q * p) as int * a <= c * 8192
  {
    assert c * r == q * a + (c * r) % a;
    MulMono(0, c, r);
    if q < 0 { MulMono(q, -1, a); }
    MulMono(0, q, p);
    MulMono(q * a, c * r, p);
    MulMono(c * r + 1, q * a + a, p);
    assert (q * a) * p == (q * p) * a && (c * r) * p == c * (p * r) && (q * a + a) * p == (q * p + p) * a;
    if q * p > MAX_16 { MulMono(MAX_16, q * p, a); }
  }

  predicate Averaged(f: Frame) { forall i :: 0 <= i < ORDER ==> f.lspAver[i] > 0 }

  /** The saturating sum of the first n distances. */
  function SumDistances(f: Frame, n: nat): Word16
    requires Averaged(f) && 1 <= n <= ORDER
  {
    var last := Distance(f.lspAver[n - 1], f.lsp[n - 1]);
    if n == 1 then last else Add(SumDistances(f, n - 1), last)
  }

  function Difference(f: Frame): Word16
    requires Averaged(f)
  {
    SumDistances(f, ORDER)
  }

  // ----- the mix -----

  /** How much of the frame's own gain is kept, in Q13, by its spectral distance alone. */
  function Ramp(diff: Word16, threshold: Word16): Word16 {
    var over := if Sub(diff, threshold) > 0 then Sub(diff, threshold) else 0;
    if over > 2048 then 8192 else over * 4
  }

  predicate Degraded(f: Frame) {
    && ((f.pdfi && f.prevPdf) || f.bfi || f.prevBf)
    && f.voicedHangover > 1 && f.inBackgroundNoise && LowRate(f.mode)
  }

  /** bgMix; hangCount is the counter before this frame is counted. */
  function BgMix(f: Frame, diff: Word16, hangCount: Word16): Word16 {
    if hangCount < 40 || diff > 5325 then 8192
    else Ramp(diff, if Degraded(f) then 4506 else 3277)
  }

  type History = h: seq<Word16> | |h| == 7 witness seq(7, _ => 0)

  /** The weighted sum of h[from..n], accumulated with saturation. */
  function Weighted(h: History, w: Word16, from: nat, n: nat): Word32
    requires from < n <= HISTORY
  {
    if n == from + 1 then LMult(w, h[from]) else LMac(Weighted(h, w, from, n - 1), w, h[n - 1])
  }

  /** The mean of the last five gains, or of all seven after an error in noise. */
  function Mean(f: Frame, h: History): Word16 {
    if (f.bfi || f.prevBf) && f.inBackgroundNoise && LowRate(f.mode)
    then Round(Weighted(h, 4681, 0, HISTORY))
    else Round(Weighted(h, 6554, 2, HISTORY))
  }

  /** bgMix * gain + (1 - bgMix) * mean, as accumulated. */
  function Mix(bgMix: Word16, gain: Word16, mean: Word16): Word16 {
    Round(LShl(LMsu(LMac(LMult(bgMix, gain), 8192, mean), bgMix, mean), 2))
  }

  // ----- the state -----

  datatype State = State(history: History, hangVar: Word16, hangCount: Word16)

  function Pushed(h: History, g: Word16): History { h[1..] + [g] }

  /** The counter of consecutive distant frames is an unguarded 16-bit increment. */
  function NextHangVar(s: State, diff: Word16): Word16 {
    if diff > 5325 then Wrap16(s.hangVar + 1) else 0
  }

  function HangCountIn(s: State, diff: Word16): Word16 {
    if NextHangVar(s, diff) > 10 then 0 else s.hangCount
  }

  function Next(s: State, f: Frame): State
    requires Averaged(f)
  {
    var diff := Difference(f);
    State(Pushed(s.history, f.gainCode), NextHangVar(s, diff), Add(HangCountIn(s, diff), 1))
  }

  function Result(s: State, f: Frame): Word16
    requires Averaged(f)
  {
    if !Smooths(f.mode) then f.gainCode
    else
      var diff := Difference(f);
      Mix(BgMix(f, diff, HangCountIn(s, diff)), f.gainCode, Mean(f, Pushed(s.history, f.gainCode)))
  }

  class GainAverager {
    const cbGainHistory: array<Word16>
    var hangVar: Word16
    var hangCount: Word16

    ghost predicate Valid()
      reads this, cbGainHistory
    {
      cbGainHistory.Length == HISTORY
    }

    ghost function Contents(): State
      requires Valid()
      reads this, cbGainHistory
    {
      State(cbGainHistory[..], hangVar, hangCount)
    }

    /** Cb_gain_average_reset */
    constructor ()
      ensures Valid() && fresh(cbGainHistory)
      ensures Contents() == Start()
    {
      cbGainHistory := new Word16[HISTORY](_ => 0);
      hangVar, hangCount := 0, 0;
    }

    /** Drops the oldest gain and appends the newest. */
    method Push(g: Word16)
      requires Valid()
      modifies cbGainHistory
      ensures Contents() == old(Contents()).(history := Pushed(old(cbGainHistory[..]), g))
    {
      for i := 0 to HISTORY - 1
        invariant forall j :: 0 <= j < i ==> cbGainHistory[j] == old(cbGainHistory[j + 1])
        invariant forall j :: i <= j < HISTORY ==> cbGainHistory[j] == old(cbGainHistory[j])
      {
        cbGainHistory[i] := cbGainHistory[i + 1];
      }
      cbGainHistory[HISTORY - 1] := g;
      assert cbGainHistory[..] == Pushed(old(cbGainHistory[..]), g);
    }

    /** round of the weighted sum from index `from` on. */
    method WeightedMean(w: Word16, from: nat) returns (m: Word16)
      requires Valid() && from < HISTORY
      ensures m == Round(Weighted(cbGainHistory[..], w, from, HISTORY))
    {
      hide LMult, LMac;
      var sum := LMult(w, cbGainHistory[from]);
      for i := from + 1 to HISTORY
        invariant sum == Weighted(cbGainHistory[..], w, from, i)
      {
        sum := LMac(sum, w, cbGainHistory[i]);
      }
      m := Round(sum);
    }

    method Average(f: Frame) returns (cbGainMix: Word16)
      requires Valid() && Averaged(f)
      modifies this, cbGainHistory
      ensures Valid()
      ensures Contents() == Next(old(Contents()), f)
      ensures cbGainMix == Result(old(Contents()), f)
    {
      hide Difference, Mix, Weighted, Pushed, Averaged;
      cbGainMix := f.gainCode;
      Push(f.gainCode);
      var diff := SpectralDifference(f);
      if diff > 5325 {
        hangVar := Wrap16(hangVar + 1);
      } else {
        hangVar := 0;
      }
      if hangVar > 10 {
        hangCount := 0;
      }
      if Smooths(f.mode) {
        var bgMix := BgMix(f, diff, hangCount);
        var cbGainMean := WeightedMean(6554, 2);
        if (f.bfi || f.prevBf) && f.inBackgroundNoise && LowRate(f.mode) {
          cbGainMean := WeightedMean(4681, 0);
        }
        cbGainMix := Mix(bgMix, cbGainMix, cbGainMean);
      }
      hangCount := Add(hangCount, 1);
    }
  }

  /** The two loops over the line spectral pairs. */
  method SpectralDifference(f: Frame) returns (diff: Word16)
    requires Averaged(f)
    ensures diff == Difference(f)
  {
    hide Distance, Add;
    var tmp := new Word16[ORDER];
    for i := 0 to ORDER
      invariant forall j :: 0 <= j < i ==> tmp[j] == Distance(f.lspAver[j], f.lsp[j])
    {
      tmp[i] := RelativeDeviation(f.lspAver[i], f.lsp[i]);
    }
    diff := tmp[0];
    for i := 1 to ORDER
      invariant diff == SumDistances(f, i)
    {
      diff := Add(diff, tmp[i]);
    }
  }

  method RelativeDeviation(a: Word16, l: Word16) returns (t: Word16)
    requires a > 0
    ensures t == Distance(a, l)
  {
    hide Shl, Shr, NormS, Quotient;
    var tmp1 := AbsS(Sub(a, l));
    DivisionDefined(tmp1, a);
    var shift1 := Sub(NormS(tmp1), 1);
    tmp1 := Shl(tmp1, shift1);
    var shift2 := NormS(a);
    var tmp2 := Shl(a, shift2);
    t := DivS(tmp1, tmp2);
    var shift := Sub(Add(2, shift1), shift2);
    if shift >= 0 {
      t := Shr(t, shift);
    } else {
      t := Shl(t, Negate(shift));
    }
  }

  // ----- runs -----

  function Start(): State { State(seq(7, _ => 0), 0, 0) }

  predicate AllAveraged(fs: seq<Frame>) { forall i :: 0 <= i < |fs| ==> Averaged(fs[i]) }

  /** The state after a run of frames from reset. */
  function After(fs: seq<Frame>): State
    requires AllAveraged(fs)
  {
    if fs == [] then Start() else Next(After(fs[..|fs| - 1]), fs[|fs| - 1])
  }

  predicate Distant(f: Frame)
    requires Averaged(f)
  {
    Difference(f) > 5325
  }

  /** How many frames at the end of the run were spectrally distant. */
  function Streak(fs: seq<Frame>): (n: nat)
    requires AllAveraged(fs)
    ensures n <= |fs|
  {
    if fs == [] || !Distant(fs[|fs| - 1]) then 0 else 1 + Streak(fs[..|fs| - 1])
  }

  /** The last frame of the run counts as speech: more than ten distant frames in a row,
      as far as 16 bits can tell. */
  predicate Speech(fs: seq<Frame>)
    requires AllAveraged(fs)
  {
    Wrap16(Streak(fs)) > 10
  }

  /** Frames since the last speech frame, itself included, or since reset. */
  function SinceSpeech(fs: seq<Frame>): (n: nat)
    requires AllAveraged(fs)
    ensures n <= |fs|
  {
    if fs == [] then 0
    else if Speech(fs) then 1
    else 1 + SinceSpeech(fs[..|fs| - 1])
  }

  /** Both counters mean what their names say, for every run. */
  lemma {:induction false} CountersMean(fs: seq<Frame>)
    requires AllAveraged(fs)
    ensures After(fs).hangVar == Wrap16(Streak(fs))
    ensures After(fs).hangCount == (if SinceSpeech(fs) > MAX_16 then MAX_16 else SinceSpeech(fs))
  {
    hide Difference, Averaged, Pushed, Wrap16;
    if fs == [] {
      WrapStep(0);
    } else {
      CountersMean(fs[..|fs| - 1]);
      WrapStep(Streak(fs[..|fs| - 1]));
    }
  }

  lemma WrapStep(n: int)
    ensures Wrap16(Wrap16(n) + 1) == Wrap16(n + 1) && Wrap16(0) == 0
  {
  }

  /** The gain history is the last seven gains, zeros before the start. */
  lemma {:induction false} HistoryMeans(fs: seq<Frame>, i: nat)
    requires AllAveraged(fs) && i < HISTORY
    ensures After(fs).history[HISTORY - 1 - i] == if i < |fs| then fs[|fs| - 1 - i].gainCode else 0
  {
    hide Difference, Averaged;
    if fs != [] && i > 0 {
      HistoryMeans(fs[..|fs| - 1], i - 1);
    }
  }

  /** Frames since the last speech frame, the current one (f) judged but not counted. */
  function Quiet(fs: seq<Frame>, f: Frame): nat
    requires AllAveraged(fs) && Averaged(f)
  {
    if Speech(fs + [f]) then 0 else SinceSpeech(fs)
  }

  // ----- what the mix does to a gain -----

  lemma BgMixRange(f: Frame, diff: Word16, hangCount: Word16)
    ensures 0 <= BgMix(f, diff, hangCount) <= 8192
  {
  }

  function Times(a: int, b: int): int { a * b }

  /** The exact mix, scaled by 8192. */
  function Blend(b: int, g: int, m: int): int { 8192 * m + Times(b, g - m) }

  /** Nothing saturates: the mix is the convex combination, rounded half up. */
  lemma MixIs(b: Word16, g: Word16, m: Word16)
    requires 0 <= b <= 8192
    ensures Mix(b, g, m) == (Blend(b, g, m) + 4096) / 8192
  {
    hide LShl, Times, LMult;
    LMultExact(b, g);
    LMultExact(b, m);
    TimesDifference(b, g, m);
    BlendBetween(b, g, m);
    LShlSaturates(2 * Blend(b, g, m), 2);
    assert Pow2(2) == 4 by { assert Pow2(1) == 2; }
    FullWeight(m);
    Rounded(Blend(b, g, m));
  }

  lemma LMultExact(b: Word16, g: Word16)
    requires 0 <= b <= 8192
    ensures LMult(b, g) == 2 * Times(b, g) && -0x1000_0000 <= Times(b, g) <= 0x1000_0000
  {
    MulBounds(b, g, 8192, 32768);
  }

  lemma FullWeight(m: Word16)
    ensures LMult(8192, m) == 16384 * (m as int)
  {
  }

  lemma TimesDifference(b: int, g: int, m: int)
    ensures Times(b, g - m) == Times(b, g) - Times(b, m)
  {
  }

  lemma BlendBetween(b: int, g: int, m: int)
    requires 0 <= b <= 8192
    ensures g <= m ==> 8192 * g <= Blend(b, g, m) <= 8192 * m
    ensures m <= g ==> 8192 * m <= Blend(b, g, m) <= 8192 * g
    ensures b == 8192 ==> Blend(b, g, m) == 8192 * g
    ensures b == 0 ==> Blend(b, g, m) == 8192 * m
  {
    if g <= m { MulMono(0, b, m - g); MulMono(b, 8192, m - g); Negated(b, m - g); }
    else { MulMono(0, b, g - m); MulMono(b, 8192, g - m); }
  }

  lemma Negated(b: int, d: int)
    ensures Times(b, -d) == -(b * d)
  {
  }

  lemma Rounded(v: int)
    requires -32768 * 8192 <= v <= 32767 * 8192
    ensures Round(Sat32(8 * v)) == (v + 4096) / 8192
  {
  }

  /** The smoothed gain lies between the frame's gain and the mean. */
  lemma MixBetween(b: Word16, g: Word16, m: Word16)
    requires 0 <= b <= 8192
    ensures g <= m ==> g <= Mix(b, g, m) <= m
    ensures m <= g ==> m <= Mix(b, g, m) <= g
    ensures b == 8192 ==> Mix(b, g, m) == g
    ensures b == 0 ==> Mix(b, g, m) == m
  {
    hide Mix, Blend;
    MixIs(b, g, m);
    BlendBetween(b, g, m);
  }

  /** The main result over runs: in every reachable state the returned gain lies between
      the frame's gain and the history mean, and it is the frame's own gain unless the
      mode smooths, the frame is not distant and at least 40 frames have passed since the
      last speech frame or the start. */
  lemma SmoothingIsEarned(fs: seq<Frame>, f: Frame)
    requires AllAveraged(fs) && Averaged(f)
    ensures var r, m := Result(After(fs), f), Mean(f, Pushed(After(fs).history, f.gainCode));
            && (f.gainCode <= r <= m || m <= r <= f.gainCode || r == f.gainCode)
            && (r != f.gainCode ==> Smooths(f.mode) && !Distant(f) && Quiet(fs, f) >= 40)
  {
    hide Difference, Averaged, Mean, Mix, Ramp, Pushed, After, Streak, SinceSpeech;
    var diff := Difference(f);
    var s := After(fs);
    CountersMean(fs);
    StreakAfter(fs, f);
    var b := BgMix(f, diff, HangCountIn(s, diff));
    BgMixRange(f, diff, HangCountIn(s, diff));
    MixBetween(b, f.gainCode, Mean(f, Pushed(s.history, f.gainCode)));
  }

  /** The hangover test inside the frame is the speech test on the longer run. */
  lemma StreakAfter(fs: seq<Frame>, f: Frame)
    requires AllAveraged(fs) && Averaged(f)
    ensures AllAveraged(fs + [f])
    ensures NextHangVar(After(fs), Difference(f)) == Wrap16(Streak(fs + [f]))
  {
    hide Difference, Averaged, Pushed, After, Wrap16;
    CountersMean(fs);
    WrapStep(Streak(fs));
    assert (fs + [f])[..|fs|] == fs;
  }

  /** The unguarded counter recognises speech periodically: exactly while the length of
      the distant streak, modulo 2^16, lies strictly between 10 and 2^15. */
  lemma LongSpeechIsForgotten(fs: seq<Frame>)
    requires AllAveraged(fs)
    ensures Speech(fs) <==> 10 < Streak(fs) % 0x1_0000 < 0x8000
  {
    hide Streak;
  }

  /** A frame far from its average: every deviation equals the average itself. */
  function FarFrame(): Frame {
    Frame(MR475, 0, seq(10, _ => 0), seq(10, _ => 1), false, false, false, false, false, 0)
  }

  lemma FarFrameIsDistant()
    ensures Averaged(FarFrame()) && Distant(FarFrame())
  {
    hide Distance;
    SumsToOne(FarFrame());
  }

  /** Ten distances of 1.0 saturate the sum. */
  lemma SumsToOne(f: Frame)
    requires Averaged(f) && forall i :: 0 <= i < ORDER ==> f.lspAver[i] == 1 && f.lsp[i] == 0
    ensures Difference(f) == MAX_16
  {
    hide Distance;
    UnitDistance();
    assert SumDistances(f, 1) == 8192;
    assert SumDistances(f, 2) == 16384;
    assert SumDistances(f, 3) == 24576;
    assert SumDistances(f, 4) == MAX_16;
    assert SumDistances(f, 5) == MAX_16;
    assert SumDistances(f, 6) == MAX_16;
    assert SumDistances(f, 7) == MAX_16;
    assert SumDistances(f, 8) == MAX_16;
    assert SumDistances(f, 9) == MAX_16;
  }

  lemma UnitDistance()
    ensures Distance(1, 0) == 8192
  {
    hide Distance, NormS;
    NormOfOne();
    DistanceIs(1, 0);
    SmallPowers();
  }

  lemma NormOfOne()
    ensures NormS(1) == 14
  {
    assert Pow2(14) == 0x4000 by { assert Pow2(7) == 128; }
    NormUnique(0x1_0000, 14);
  }

  /** Every streak length occurs, so speech really is forgotten: a run of n such frames
      counts as speech exactly while 10 < n % 2^16 < 2^15. */
  lemma {:induction false} EveryStreakOccurs(n: nat)
    ensures var fs := seq(n, _ => FarFrame());
            AllAveraged(fs) && Streak(fs) == n && (Speech(fs) <==> 10 < n % 0x1_0000 < 0x8000)
  {
    hide FarFrame, Distant;
    FarFrameIsDistant();
    var fs := seq(n, _ => FarFrame());
    if n > 0 {
      EveryStreakOccurs(n - 1);
      assert fs[..n - 1] == seq(n - 1, _ => FarFrame());
    }
    LongSpeechIsForgotten(fs);
  }

  // ----- the history mean -----

  predicate Within(h: History, lo: int, hi: int) { forall i :: 0 <= i < HISTORY ==> lo <= h[i] <= hi }

  function SumFrom(h: History, from: nat, n: nat): int
    requires from <= n <= HISTORY
  {
    if n == from then 0 else SumFrom(h, from, n - 1) + h[n - 1]
  }

  lemma {:induction false} SumWithin(h: History, from: nat, n: nat, lo: int, hi: int)
    requires from <= n <= HISTORY && Within(h, lo, hi)
    ensures lo * (n - from) <= SumFrom(h, from, n) <= hi * (n - from)
  {
    if from < n { SumWithin(h, from, n - 1, lo, hi); }
  }

  /** Gains are not negative, so saturating at every step is saturating once. */
  lemma {:induction false} WeightedIs(h: History, w: Word16, from: nat, n: nat)
    requires from < n <= HISTORY && 0 <= w && Within(h, 0, MAX_16)
    ensures Weighted(h, w, from, n) == Sat32(2 * Times(w, SumFrom(h, from, n)))
    ensures SumFrom(h, from, n) >= 0
  {
    hide LMult, Times, Sat32;
    var x := h[n - 1];
    WeightOne(w, x);
    if n == from + 1 {
      assert SumFrom(h, from, from) == 0;
    } else {
      WeightedIs(h, w, from, n - 1);
      AddWeight(w, SumFrom(h, from, n - 1), x);
    }
  }

  lemma WeightOne(w: Word16, x: Word16)
    requires 0 <= w && 0 <= x
    ensures LMult(w, x) == Sat32(2 * Times(w, x)) && 0 <= Times(w, x)
  {
    MulMono(0, w, x);
  }

  lemma AddWeight(w: Word16, s: int, x: Word16)
    requires 0 <= w && 0 <= x && 0 <= s
    ensures LAdd(Sat32(2 * Times(w, s)), Sat32(2 * Times(w, x))) == Sat32(2 * Times(w, s + x))
  {
    MulMono(0, s, w);
    MulMono(0, x, w);
    assert Times(w, s + x) == Times(w, s) + Times(w, x);
  }

  /** The mean stays within the range of the gains it averages, up to the error of the
      rounded weights: at most 1 below and 2 above. */
  lemma MeanWithin(f: Frame, h: History, lo: int, hi: int)
    requires 0 <= lo && hi <= MAX_16 && Within(h, lo, hi)
    ensures lo - 1 <= Mean(f, h) <= hi + 2
    ensures lo == hi < 8192 ==> Mean(f, h) == lo
  {
    hide Weighted, SumFrom, Sat32, FixedPoint.Round;
    WeightedIs(h, 4681, 0, HISTORY);
    WeightedIs(h, 6554, 2, HISTORY);
    SumWithin(h, 0, HISTORY, lo, hi);
    SumWithin(h, 2, HISTORY, lo, hi);
    var x, y := SumFrom(h, 0, HISTORY), SumFrom(h, 2, HISTORY);
    SevenTaps(x, lo, hi);
    FiveTaps(y, lo, hi);
    assert Times(4681, x) == 4681 * x && Times(6554, y) == 6554 * y;
  }

  lemma SevenTaps(x: int, lo: int, hi: int)
    requires 7 * lo <= x <= 7 * hi && 0 <= lo <= hi <= MAX_16
    ensures lo - 1 <= Round(Sat32(9362 * x)) <= hi + 2
    ensures lo == hi < 8192 ==> Round(Sat32(9362 * x)) == lo
  {
  }

  lemma FiveTaps(x: int, lo: int, hi: int)
    requires 5 * lo <= x <= 5 * hi && 0 <= lo <= hi <= MAX_16
    ensures lo - 1 <= Round(Sat32(13108 * x)) <= hi + 2
    ensures lo == hi < 8192 ==> Round(Sat32(13108 * x)) == lo
  {
  }

  /** A gain trajectory inside [lo, hi] is smoothed to one inside [lo - 1, hi + 2], and a
      constant gain below 8192 is not altered at all. */
  lemma EnvelopeKept(s: State, f: Frame, lo: int, hi: int)
    requires Averaged(f) && 0 <= lo && hi <= MAX_16 && Within(Pushed(s.history, f.gainCode), lo, hi)
    ensures lo - 1 <= Result(s, f) <= hi + 2
    ensures lo == hi < 8192 ==> Result(s, f) == lo
  {
    hide Mean, Mix, BgMix, Difference, Averaged;
    var h := Pushed(s.history, f.gainCode);
    assert h[HISTORY - 1] == f.gainCode;
    MeanWithin(f, h, lo, hi);
    var b := BgMix(f, Difference(f), HangCountIn(s, Difference(f)));
    BgMixRange(f, Difference(f), HangCountIn(s, Difference(f)));
    MixBetween(b, f.gainCode, Mean(f, h));
  }

  // ----- what is averaged and with which weights -----

  /** The spectral difference is the sum of the ten distances, clipped. */
  lemma {:induction false} SumIsClipped(f: Frame, n: nat)
    requires Averaged(f) && 1 <= n <= ORDER
    ensures DistanceTotal(f, n) >= 0
    ensures SumDistances(f, n) as int == if DistanceTotal(f, n) > MAX_16 then MAX_16 else DistanceTotal(f, n)
  {
    hide Distance, Averaged;
    DistancePositive(f, n - 1);
    if n > 1 { SumIsClipped(f, n - 1); } else { assert DistanceTotal(f, 0) == 0; }
  }

  function DistanceTotal(f: Frame, n: nat): int
    requires Averaged(f) && n <= ORDER
  {
    if n == 0 then 0 else DistanceTotal(f, n - 1) + Distance(f.lspAver[n - 1], f.lsp[n - 1])
  }

  lemma DistancePositive(f: Frame, i: nat)
    requires Averaged(f) && i < ORDER
    ensures Distance(f.lspAver[i], f.lsp[i]) >= 0
  {
    hide Distance, Divided, Deviation, LeftShift;
    var a, l := f.lspAver[i], f.lsp[i];
    DistanceIs(a, l);
    var d := Deviation(a, l);
    NotNegative(Divided(d), Pow2(13 - LeftShift(d, a)), a, Pow2(LeftShift(d, a)));
  }

  lemma NotNegative(c: int, p: int, a: int, q: int)
    requires c >= 0 && p >= 1 && a > 0 && q >= 1
    ensures c * p / a * q >= 0
  {
    MulMono(0, c, p);
    QuotientNotNegative(c * p, a);
    MulMono(0, c * p / a, q);
  }

  lemma QuotientNotNegative(x: int, a: int)
    requires x >= 0 && a > 0
    ensures x / a >= 0
  {
    var r := x / a;
    assert x == r * a + x % a;
    if r < 0 { MulMono(r, -1, a); }
  }

  /** A frame received with errors, by data or by flag, in noise, at one of the three lowest
      rates, with the last voiced frame at least two frames back. */
  predicate DegradedNoise(f: Frame) {
    && (f.bfi || f.prevBf || (f.pdfi && f.prevPdf)) && f.inBackgroundNoise && f.voicedHangover >= 2
    && (f.mode == MR475 || f.mode == MR515 || f.mode == MR59)
  }

  function Min(a: real, b: real): real { if a < b then a else b }

  function Max(a: real, b: real): real { if a < b then b else a }

  /** The share of a frame's own gain: all of it within 40 frames of speech or at a spectral
      difference above 0.65; otherwise it rises over a quarter of a unit, from a difference of
      0.55 on in degraded noise and from 0.40 on elsewhere. */
  lemma BgMixIs(f: Frame, diff: Word16, hangCount: Word16)
    ensures var share := BgMix(f, diff, hangCount) as real / 8192.0;
      var begin := (if DegradedNoise(f) then 4506 else 3277) as real / 8192.0;
      share == if hangCount < 40 || diff > 5325 then 1.0
               else Min(0.25, Max(0.0, diff as real / 8192.0 - begin)) / 0.25
  {
    SameDegraded(f);
    hide Degraded, DegradedNoise;
    RampIs(diff, if DegradedNoise(f) then 4506 else 3277);
  }

  lemma SameDegraded(f: Frame)
    ensures Degraded(f) <==> DegradedNoise(f)
  {
  }

  lemma RampIs(diff: Word16, begin: Word16)
    requires 0 <= begin
    ensures Ramp(diff, begin) as real / 8192.0
         == Min(0.25, Max(0.0, diff as real / 8192.0 - begin as real / 8192.0)) / 0.25
  {
    var over := if diff > begin then diff as int - begin else 0;
    assert over as real == Max(0.0, diff as real - begin as real);
  }

  /** Elsewhere the share reaches the whole gain just where distance switches smoothing off;
      in degraded noise it is at most 0.4 up to there. */
  lemma ShareAtDistance(f: Frame, diff: Word16, hangCount: Word16)
    requires hangCount >= 40 && diff <= 5325
    ensures DegradedNoise(f) ==> BgMix(f, diff, hangCount) <= 3276
    ensures !DegradedNoise(f) ==> (BgMix(f, diff, hangCount) == 8192 <==> diff == 5325)
  {
    SameDegraded(f);
  }

  /** The sum of the last n gains of a run. */
  function LastGains(fs: seq<Frame>, n: nat): int {
    if n == 0 then 0
    else LastGains(fs, n - 1) + (if n <= |fs| then fs[|fs| - n].gainCode else 0)
  }

  lemma {:induction false} SumFromFront(h: History, from: nat, n: nat)
    requires from < n <= HISTORY
    ensures SumFrom(h, from, n) == h[from] + SumFrom(h, from + 1, n)
  {
    if from + 1 < n { SumFromFront(h, from, n - 1); }
  }

  lemma {:induction false} SumOfRun(fs: seq<Frame>, n: nat)
    requires AllAveraged(fs) && n <= HISTORY
    ensures SumFrom(After(fs).history, HISTORY - n, HISTORY) == LastGains(fs, n)
  {
    hide After, AllAveraged;
    if n > 0 {
      SumOfRun(fs, n - 1);
      SumFromFront(After(fs).history, HISTORY - n, HISTORY);
      HistoryMeans(fs, n - 1);
    }
  }

  /** In every run the mean is the average of the last seven gains after an error in noise at
      a low rate, and of the last five otherwise, this frame's included, within two units. */
  lemma MeanIs(fs: seq<Frame>, f: Frame)
    requires AllAveraged(fs) && Averaged(f) && Within(Pushed(After(fs).history, f.gainCode), 0, MAX_16)
    ensures AllAveraged(fs + [f])
    ensures var m := Mean(f, Pushed(After(fs).history, f.gainCode)) as int;
      if (f.bfi || f.prevBf) && f.inBackgroundNoise && (f.mode == MR475 || f.mode == MR515 || f.mode == MR59)
      then -11 <= 7 * m - LastGains(fs + [f], 7) <= 4
      else -8 <= 5 * m - LastGains(fs + [f], 5) <= 13
  {
    hide Weighted, SumFrom, Sat32, FixedPoint.Round, After, LastGains;
    var h := Pushed(After(fs).history, f.gainCode);
    RunHistory(fs, f);
    SumOfRun(fs + [f], 7);
    SumOfRun(fs + [f], 5);
    WeightedIs(h, 4681, 0, HISTORY);
    WeightedIs(h, 6554, 2, HISTORY);
    SumWithin(h, 0, HISTORY, 0, MAX_16);
    SumWithin(h, 2, HISTORY, 0, MAX_16);
    var x, y := SumFrom(h, 0, HISTORY), SumFrom(h, 2, HISTORY);
    SeventhOf(x);
    FifthOf(y);
    assert Times(4681, x) == 4681 * x && Times(6554, y) == 6554 * y;
  }

  lemma RunHistory(fs: seq<Frame>, f: Frame)
    requires AllAveraged(fs) && Averaged(f)
    ensures AllAveraged(fs + [f]) && After(fs + [f]).history == Pushed(After(fs).history, f.gainCode)
  {
    hide Difference, Averaged, Pushed;
    assert (fs + [f])[..|fs|] == fs;
  }

  lemma SeventhOf(x: int)
    requires 0 <= x <= 7 * MAX_16
    ensures -11 <= 7 * (Round(Sat32(9362 * x)) as int) - x <= 4
  {
  }

  lemma FifthOf(x: int)
    requires 0 <= x <= 5 * MAX_16
    ensures -8 <= 5 * (Round(Sat32(13108 * x)) as int) - x <= 13
  {
  }

  /** The result of a frame in every run: in the five smoothing modes the convex combination
      of its gain and the mean, rounded half up, with the share told by the frames since
      speech; in the other modes its gain. */
  lemma ResultInRun(fs: seq<Frame>, f: Frame)
    requires AllAveraged(fs) && Averaged(f)
    ensures var m := Mean(f, Pushed(After(fs).history, f.gainCode));
      var b := BgMix(f, Difference(f), if Quiet(fs, f) < 40 then 0 else 40);
      Result(After(fs), f) as int ==
        if f.mode in {MR475, MR515, MR59, MR67, MR102} then (Blend(b, f.gainCode, m) + 4096) / 8192 else f.gainCode
  {
    hide Difference, Averaged, Mean, Mix, Ramp, Pushed, After, Streak, SinceSpeech, Blend;
    var s, diff := After(fs), Difference(f);
    CountersMean(fs);
    StreakAfter(fs, f);
    var b := BgMix(f, diff, HangCountIn(s, diff));
    BgMixRange(f, diff, HangCountIn(s, diff));
    MixIs(b, f.gainCode, Mean(f, Pushed(s.history, f.gainCode)));
  }
}
