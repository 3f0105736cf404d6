/** Which products a lag of Autocorr sums up: told by the energy of the signal added to its
    own shift, and by signals of two samples. */
module LagMeaning {
  import opened FixedPoint
  import opened Kernel
  import opened Autocorrelation

  /** The signal with zeros on either side. */
  function Extended(y: Signal, n: int): int { if 0 <= n < 240 then y[n] else 0 }

  /** The signal plus itself i samples later, from sample 0 of the later one's begin. */
  function Shifted(y: Signal, i: nat, m: int): int { Extended(y, m - i) + Extended(y, m) }

  /** The energy of that sum over its first m samples. */
  function ShiftedEnergy(y: Signal, i: nat, m: nat): int {
    if m == 0 then 0 else ShiftedEnergy(y, i, m - 1) + Product(Shifted(y, i, m - 1), Shifted(y, i, m - 1))
  }

  function DelayedEnergy(y: Signal, i: nat, m: nat): int {
    if m == 0 then 0 else DelayedEnergy(y, i, m - 1) + Product(Extended(y, m - 1 - i), Extended(y, m - 1 - i))
  }

  function MixedSum(y: Signal, i: nat, m: nat): int {
    if m == 0 then 0 else MixedSum(y, i, m - 1) + Product(Extended(y, m - 1 - i), Extended(y, m - 1))
  }

  lemma {:induction false} Expanded(y: Signal, i: nat, m: nat)
    ensures ShiftedEnergy(y, i, m) == DelayedEnergy(y, i, m) + DelayedEnergy(y, 0, m) + 2 * MixedSum(y, i, m)
  {
    hide Product, Extended;
    if m > 0 {
      Expanded(y, i, m - 1);
      Binomial(Extended(y, m - 1 - i), Extended(y, m - 1));
    }
  }

  lemma Binomial(a: int, b: int)
    ensures Product(a + b, a + b) == Product(a, a) + Product(b, b) + 2 * Product(a, b)
  {
  }

  lemma {:induction false} DelayedIsEnergy(y: Signal, i: nat, m: nat)
    ensures DelayedEnergy(y, i, m) == Energy(y, if m <= i then 0 else if m <= i + 240 then m - i else 240)
  {
    if m > 0 { DelayedIsEnergy(y, i, m - 1); }
  }

  lemma {:induction false} MixedIsLag(y: Signal, i: nat, m: nat)
    ensures MixedSum(y, i, m) == if m <= i then 0 else if m <= 240 then Lag(y, i, m - i) else FullLag(y, i)
  {
    if m > 0 {
      MixedIsLag(y, i, m - 1);
      if m - 1 < i || m > 240 { NoProduct(Extended(y, m - 1 - i), Extended(y, m - 1)); }
    }
  }

  lemma NoProduct(a: int, b: int)
    ensures a == 0 || b == 0 ==> Product(a, b) == 0
  {
  }

  /** Lag i of the signal is what adding the signal to its own shift by i adds to twice its
      energy, halved. */
  lemma LagBySuperposition(y: Signal, i: nat)
    ensures ShiftedEnergy(y, i, 240 + i) == 2 * Energy(y, L_WINDOW) + 2 * FullLag(y, i)
  {
    hide Energy, Lag;
    Expanded(y, i, 240 + i);
    DelayedIsEnergy(y, i, 240 + i);
    DelayedIsEnergy(y, 0, 240 + i);
    MixedIsLag(y, i, 240 + i);
    if i > 240 { assert FullLag(y, i) == 0; }
  }

  // ----- signals of two samples -----

  predicate TwoSamples(y: Signal, p: nat, a: Word16, q: nat, b: Word16) {
    p < q < 240 && forall j :: 0 <= j < 240 ==> y[j] == if j == p then a else if j == q then b else 0
  }

  lemma {:induction false} LagOfTwo(y: Signal, p: nat, a: Word16, q: nat, b: Word16, i: nat, n: nat)
    requires TwoSamples(y, p, a, q, b) && 1 <= i && n + i <= 240
    ensures Lag(y, i, n) == if i == q - p && p < n then (a as int) * b else 0
  {
    if n > 0 {
      LagOfTwo(y, p, a, q, b, i, n - 1);
      NoProduct(y[n - 1], y[n - 1 + i]);
    }
  }

  /** Samples a and b at distance d: lag d is a b, every other lag is zero. */
  lemma LagsOfTwo(y: Signal, p: nat, a: Word16, q: nat, b: Word16, i: nat)
    requires TwoSamples(y, p, a, q, b) && 1 <= i
    ensures FullLag(y, i) == if i == q - p then (a as int) * b else 0
  {
    hide Lag;
    if i <= 240 { LagOfTwo(y, p, a, q, b, i, 240 - i); }
  }

  // ----- the pairs Autocorr returns -----

  /** What Autocorr writes for lag i when its energy is exact: the lag of the scaled signal,
      by superposition, shifted by the exponent of the energy. */
  lemma PairOfLag(s: Scaled, i: nat)
    requires Exact(s) && s.sum > 0 && i >= 1
    ensures var r := Normalised(s, i);
      2 * (LComp(ExtractHi(r), ExtractLo(r)) as int)
        == Product(ShiftedEnergy(s.y, i, 240 + i) - 2 * Energy(s.y, L_WINDOW), Pow2(NormL(s.sum) + 1))
  {
    hide ShiftedEnergy, Energy, FullLag, Normalised, NormL, Pow2, ExtractHi, ExtractLo, LComp;
    NormalisedLags(s, i);
    LagBySuperposition(s.y, i);
    TwiceProductOf(FullLag(s.y, i), Pow2(NormL(s.sum) + 1));
  }

  lemma TwiceProductOf(a: int, p: int)
    ensures 2 * (a * p) == Product(2 * a, p)
  {
  }

  /** And for a scaled signal of two samples. */
  lemma PairOfTwo(s: Scaled, p: nat, a: Word16, q: nat, b: Word16, i: nat)
    requires Exact(s) && s.sum > 0 && i >= 1 && TwoSamples(s.y, p, a, q, b)
    ensures var r := Normalised(s, i);
      LComp(ExtractHi(r), ExtractLo(r)) as int
        == if i == q - p then Product((a as int) * b, Pow2(NormL(s.sum) + 1)) else 0
  {
    hide Energy, FullLag, Normalised, NormL, Pow2, ExtractHi, ExtractLo, LComp, TwoSamples;
    NormalisedLags(s, i);
    LagsOfTwo(s.y, p, a, q, b, i);
    if i != q - p { NothingTimes(Pow2(NormL(s.sum) + 1)); }
  }

  lemma NothingTimes(p: int)
    ensures 0 * p == 0
  {
  }

  // ----- the window -----

  /** A windowed sample: the product in Q15 rounded half up, except that -1 times -1 wraps. */
  lemma WindowIs(x: Word16, w: Word16)
    ensures var v := Window(x, w) as int;
      if x == MIN_16 && w == MIN_16 then v == MIN_16
      else -0x4000 <= (x as int) * w - 0x8000 * v < 0x4000
  {
    ProductRange(x, w);
    if x != MIN_16 || w != MIN_16 {
      if x != MIN_16 { MulBounds(x, w, 32767, 32768); } else { MulBounds(x, w, 32768, 32767); }
      RoundedProduct((x as int) * w);
    }
  }

  lemma RoundedProduct(p: int)
    requires -0x4000_0000 <= p <= 32767 * 32768
    ensures -0x4000 <= p - 0x8000 * (Wrap16((p + 0x4000) / 0x8000) as int) < 0x4000
  {
  }

  /** Sample i of the windowed signal is sample i of the signal and of the window. */
  lemma WindowedAt(x: Signal, wind: Signal, i: nat)
    requires i < 240 && (x[i] != MIN_16 || wind[i] != MIN_16)
    ensures -0x4000 <= (x[i] as int) * wind[i] - 0x8000 * (Windowed(x, wind)[i] as int) < 0x4000
  {
    hide Window;
    WindowIs(x[i], wind[i]);
  }

  // ----- the scaling -----

  /** The shift counts four for each rescaling of the signal, and a signal is rescaled at all
      exactly if twice its energy does not fit 32 bits. */
  lemma ShiftCountsPasses(y: Signal)
    ensures var s := Scale(y);
      && (s.shift == 0 <==> 2 * Energy(y, L_WINDOW) <= MAX_32)
      && (s.shift == 0 ==> s.y == y)
      && (s.shift == 4 ==> s.y == Quartered(y))
      && (s.shift == 8 ==> s.y == Quartered(Quartered(y)) && PassSum(Quartered(y)) <= 0)
      && s.shift in {0, 4, 8}
  {
    hide Energy, Quartered, PassSum;
  }
}
