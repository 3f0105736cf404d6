/** Chebps: the Chebyshev series evaluated in Q24 with a 16 x 32 bit double-precision
    product, in plain wrapping arithmetic, and converted to Q14. */
module Chebps {
  import opened FixedPoint
  import opened Kernel
  import Exact = Chebyshev

  const NC := 5

  /** The coefficients f[0..NC] in Q10; f[0] is not read. */
  type Coefficients = f: seq<Word16> | |f| == 6 witness [0, 0, 0, 0, 0, 0]

  // ----- the code's arithmetic -----

  /** The product of a double-precision pair and x, divided by 2^16. */
  function PairTimes(hi: Word16, lo: Word16, x: Word16): Word32 {
    Wrap32(hi * x + lo * x / 0x8000)
  }

  function DpfTimes(b: Word32, x: Word16): Word32 {
    PairTimes(ExtractHi(b), ExtractLo(b), x)
  }

  function FirstT0(x: Word16, f1: Word16): Word32 {
    Wrap32(Wrap32(x * 1024) + Wrap32(f1 * 16384))
  }

  function NextT0(b1: Word32, b2: Word32, x: Word16, fi: Word16): Word32 {
    Wrap32(Wrap32(Wrap32(4 * DpfTimes(b1, x)) - b2) + Wrap32((fi as int) * 16384))
  }

  function LastT0(b1: Word32, b2: Word32, x: Word16, fn: Word16): Word32 {
    Wrap32(Wrap32(Wrap32(2 * DpfTimes(b1, x)) - b2) + Wrap32((fn as int) * 8192))
  }

  /** The value a (hi, lo) pair stands for. */
  function Recomposed(b: Word32): Word32 { Wrap32(LComp(ExtractHi(b), ExtractLo(b))) }

  /** b_i and b_(i-1) after step i of the loop. */
  function State(x: Word16, f: Coefficients, i: nat): (Word32, Word32)
    requires 1 <= i <= 4
  {
    if i == 1 then (FirstT0(x, f[1]), 0x100_0000)
    else
      var (b1, b2) := State(x, f, i - 1);
      (NextT0(b1, b2, x, f[i]), Recomposed(b1))
  }

  function FinalT0(x: Word16, f: Coefficients): Word32 {
    var (b1, b2) := State(x, f, 4);
    LastT0(b1, b2, x, f[5])
  }

  /** Q24 to Q14: one unsigned comparison decides whether t0 >> 10 fits 16 bits. */
  function Convert(t0: Word32): Word16 {
    if (t0 + 0x200_0000) % 0x1_0000_0000 < 0x3ff_ffff then Wrap16(t0 / 1024)
    else if t0 > 0x1ff_ffff then MAX_16 else MIN_16
  }

  function Value(x: Word16, f: Coefficients): Word16 { Convert(FinalT0(x, f)) }

  method Evaluate(x: Word16, f: Coefficients) returns (cheb: Word16)
    ensures cheb == Value(x, f)
  {
    hide ExtractHi, ExtractLo, Wrap32, Convert, PairTimes, FirstT0;
    var temp: Word32 := 0x100_0000;
    var t0 := FirstT0(x, f[1]);
    var b1h, b1l := ExtractHi(t0), ExtractLo(t0);
    var i := 2;
    while i < NC
      invariant 2 <= i <= NC
      invariant (t0, temp) == State(x, f, i - 1)
      invariant b1h == ExtractHi(t0) && b1l == ExtractLo(t0)
    {
      t0 := PairTimes(b1h, b1l, x);
      t0 := Wrap32(4 * t0);
      t0 := Wrap32(t0 - temp);
      t0 := Wrap32(t0 + Wrap32((f[i] as int) * 16384));
      temp := Wrap32(LComp(b1h, b1l));
      b1h, b1l := ExtractHi(t0), ExtractLo(t0);
      i := i + 1;
    }
    t0 := PairTimes(b1h, b1l, x);
    t0 := Wrap32(2 * t0);
    t0 := Wrap32(t0 - temp);
    t0 := Wrap32(t0 + Wrap32((f[i] as int) * 8192));
    cheb := Convert(t0);
  }

  // ----- the conversion -----

  /** The range test is a clean clip for every value except 0x01ffffff. */
  lemma ConvertClips(t0: Word32)
    ensures Convert(t0) == Sat16(t0 / 1024) <==> t0 != 0x1ff_ffff
  {
  }

  lemma WrapParity(v: int)
    ensures Wrap32(v) % 2 == v % 2
  {
    var m := Wrapped32(v);
  }

  /** ... and Chebps never reaches that value: its accumulator is always even, for any
      input whatever, even when it wraps. */
  lemma FinalT0IsEven(x: Word16, f: Coefficients)
    ensures FinalT0(x, f) % 2 == 0
  {
    hide FirstT0, NextT0, Recomposed, LastT0;
    var (b1, b2) := State(x, f, 4);
    RecomposedEven(State(x, f, 3).0);
    LastT0Even(b1, b2, x, f[5]);
  }

  lemma RecomposedEven(b: Word32)
    ensures Recomposed(b) % 2 == 0
  {
    hide Wrap32, ExtractHi, ExtractLo;
    WrapParity(LComp(ExtractHi(b), ExtractLo(b)));
  }

  lemma LastT0Even(b1: Word32, b2: Word32, x: Word16, fn: Word16)
    requires b2 % 2 == 0
    ensures LastT0(b1, b2, x, fn) % 2 == 0
  {
    hide DpfTimes, Wrap32;
    EvenAccumulator(DpfTimes(b1, x), b2, fn);
  }

  lemma EvenAccumulator(d: int, b2: int, fn: int)
    requires b2 % 2 == 0
    ensures Wrap32(Wrap32(Wrap32(2 * d) - b2) + Wrap32(fn * 8192)) % 2 == 0
  {
    hide Wrap32;
    var u := Wrap32(2 * d);
    EvenDouble(d);
    WrapParity(2 * d);
    EvenDifference(u, b2);
    WrapParity(u - b2);
    EvenDouble(fn * 4096);
    EvenSum(u - b2, fn * 8192);
  }

  lemma EvenSum(v: int, w: int)
    requires v % 2 == 0 && w % 2 == 0
    ensures Wrap32(Wrap32(v) + Wrap32(w)) % 2 == 0
  {
    hide Wrap32;
    WrapParity(v);
    WrapParity(w);
    EvenDifference(Wrap32(v), 0 - (Wrap32(w) as int));
    WrapParity(Wrap32(v) + Wrap32(w));
  }

  lemma EvenDifference(a: int, b: int)
    requires a % 2 == 0 && b % 2 == 0
    ensures (a - b) % 2 == 0
  {
    assert a == 2 * (a / 2) && b == 2 * (b / 2);
    EvenDouble(a / 2 - b / 2);
  }

  lemma ValueIsClipped(x: Word16, f: Coefficients)
    ensures Value(x, f) == Sat16(FinalT0(x, f) / 1024)
  {
    hide FinalT0;
    FinalT0IsEven(x, f);
    ConvertClips(FinalT0(x, f));
  }

  // ----- without overflow: the recurrence in unbounded integers -----

  /** b_i in Q24, with the truncation of each product but no wrap-around. */
  function Q(x: Word16, f: Coefficients, i: nat): int
    requires i <= 4
  {
    if i == 0 then 0x100_0000
    else if i == 1 then 1024 * (x as int) + 16384 * (f[1] as int)
    else 4 * Scaled(Q(x, f, i - 1), x) - Q(x, f, i - 2) + 16384 * (f[i] as int)
  }

  /** floor(b * x / 2^16). */
  function Scaled(b: int, x: int): int { b * x / 0x1_0000 }

  function FinalQ(x: Word16, f: Coefficients): int {
    2 * Scaled(Q(x, f, 4), x) - Q(x, f, 3) + 8192 * (f[5] as int)
  }

  /** The scaled argument and coefficients as real numbers. */
  function Arg(x: Word16): real { x as real / 32768.0 }

  function Coef(f: Coefficients, i: nat): real
    requires i <= 5
  {
    if i == 0 then 1.0 else f[i] as real / 1024.0
  }

  function Coefs(f: Coefficients): (c: seq<real>)
    ensures |c| == 6
  {
    [1.0, Coef(f, 1), Coef(f, 2), Coef(f, 3), Coef(f, 4), Coef(f, 5)]
  }

  /** What the truncation of the product b * x adds to the next value, in units of Q24. */
  function Truncation(b: int, x: Word16, k: int): real {
    (k * Scaled(b, x)) as real - k as real * (b as real * x as real / 65536.0)
  }

  /** The coefficients with each step's truncation error folded in. */
  function Perturbed(x: Word16, f: Coefficients): (c: seq<real>)
    ensures |c| == 6
  {
    [1.0, Coef(f, 1),
     Coef(f, 2) + Truncation(Q(x, f, 1), x, 4) / 16777216.0,
     Coef(f, 3) + Truncation(Q(x, f, 2), x, 4) / 16777216.0,
     Coef(f, 4) + Truncation(Q(x, f, 3), x, 4) / 16777216.0,
     Coef(f, 5)]
  }

  lemma TruncationRange(b: int, x: Word16, k: int)
    requires k == 2 || k == 4
    ensures -(k as real) < Truncation(b, x, k) <= 0.0
  {
    var p := b * x;
    assert p == 0x1_0000 * (p / 0x1_0000) + p % 0x1_0000;
    assert b as real * x as real == p as real;
    assert p as real == 65536.0 * (p / 0x1_0000) as real + (p % 0x1_0000) as real;
  }

  /** The integer recurrence is the Clenshaw recurrence on the perturbed coefficients. */
  lemma {:induction false} QIsClenshaw(x: Word16, f: Coefficients, i: nat)
    requires i <= 4
    ensures Q(x, f, i) as real == 16777216.0 * Exact.Clenshaw(Perturbed(x, f), Arg(x), i)
  {
    hide Truncation, Scaled;
    if i == 1 {
      assert Exact.Mul(Arg(x), 1.0) == Arg(x);
    } else if i >= 2 {
      QIsClenshaw(x, f, i - 1);
      QIsClenshaw(x, f, i - 2);
      var b := Q(x, f, i - 1);
      var c := Exact.Clenshaw(Perturbed(x, f), Arg(x), i - 1);
      ProductStep(b, x, c, 4);
      assert Perturbed(x, f)[i] == Coef(f, i) + Truncation(b, x, 4) / 16777216.0;
    }
  }

  lemma ProductStep(b: int, x: Word16, c: real, k: int)
    requires b as real == 16777216.0 * c
    ensures (k * Scaled(b, x)) as real == k as real * (16777216.0 * Exact.Mul(Arg(x), c)) / 2.0 + Truncation(b, x, k)
  {
    assert b as real * x as real == 16777216.0 * (c * x as real);
    assert Exact.Mul(Arg(x), c) == c * x as real / 32768.0;
  }

  // ----- with |f[i]| <= 8.0 (Q10) nothing leaves 32 bits -----

  predicate Moderate(f: Coefficients) {
    forall i :: 1 <= i < 6 ==> -8192 <= f[i] <= 8192
  }

  const MAX_COEF: real := 8.0 + 4.0 / 16777216.0

  lemma PerturbedWithin(x: Word16, f: Coefficients)
    requires Moderate(f)
    ensures Exact.Within(Perturbed(x, f), MAX_COEF)
  {
    hide Truncation, Q;
    TruncationRange(Q(x, f, 1), x, 4);
    TruncationRange(Q(x, f, 2), x, 4);
    TruncationRange(Q(x, f, 3), x, 4);
    assert forall i :: 1 <= i < 6 ==> -8.0 <= Coef(f, i) <= 8.0;
  }

  /** |b_1|, |b_2|, |b_3| and |b_4| stay below 11, 28, 53 and 86. */
  lemma QBounded(x: Word16, f: Coefficients, i: nat)
    requires Moderate(f) && 1 <= i <= 4
    ensures var m := if i == 1 then 11 else if i == 2 then 28 else if i == 3 then 53 else 86;
            -(m * 0x100_0000) < Q(x, f, i) < m * 0x100_0000
  {
    hide Q, Perturbed;
    QIsClenshaw(x, f, i);
    PerturbedWithin(x, f);
    Exact.ClenshawIsSumU(Perturbed(x, f), Arg(x), i);
    Exact.SumUBounded(Perturbed(x, f), Arg(x), i, i + 1, MAX_COEF);
    BoundValues(i);
  }

  lemma BoundValues(i: nat)
    requires 1 <= i <= 4
    ensures Exact.SumUBoundOf(MAX_COEF, i, i + 1)
          < if i == 1 then 11.0 else if i == 2 then 28.0 else if i == 3 then 53.0 else 86.0
  {
    var m := MAX_COEF;
    assert Exact.SumUBoundOf(m, i, 0) == 0.0;
    assert Exact.SumUBoundOf(m, i, 1) == i as real + 1.0;
    assert Exact.SumUBoundOf(m, i, 2) == i as real + 1.0 + m * i as real;
    if i >= 2 { assert Exact.SumUBoundOf(m, i, 3) == i as real + 1.0 + m * (2.0 * i as real - 1.0); }
    if i >= 3 { assert Exact.SumUBoundOf(m, i, 4) == i as real + 1.0 + m * (3.0 * i as real - 3.0); }
    if i >= 4 { assert Exact.SumUBoundOf(m, i, 5) == i as real + 1.0 + m * (4.0 * i as real - 6.0); }
  }

  lemma {:induction false} QEven(x: Word16, f: Coefficients, i: nat)
    requires i <= 4
    ensures Q(x, f, i) % 2 == 0
  {
    if i >= 2 {
      QStep(x, f, i);
      hide Q, Scaled;
      QEven(x, f, i - 2);
      QParity(Scaled(Q(x, f, i - 1), x), Q(x, f, i - 2), f[i]);
    } else {
      QStart(x, f, i);
      EvenDouble(512 * (x as int) + 8192 * (f[1] as int));
    }
  }

  lemma QStart(x: Word16, f: Coefficients, i: nat)
    requires i <= 1
    ensures Q(x, f, i) == if i == 0 then 0x100_0000 else 2 * (512 * (x as int) + 8192 * (f[1] as int))
  {
  }

  lemma QStep(x: Word16, f: Coefficients, i: nat)
    requires 2 <= i <= 4
    ensures Q(x, f, i) == 4 * Scaled(Q(x, f, i - 1), x) - Q(x, f, i - 2) + 16384 * (f[i] as int)
  {
    hide Scaled;
  }

  lemma QParity(s: int, q: int, c: int)
    requires q % 2 == 0
    ensures (4 * s - q + 16384 * c) % 2 == 0
  {
    assert q == 2 * (q / 2);
    EvenDouble(2 * s - q / 2 + 8192 * c);
  }

  lemma EvenDouble(k: int)
    ensures 2 * k % 2 == 0
  {
  }

  /** On an even value the double-precision product is the truncated exact product. */
  lemma DpfTimesExact(b: Word32, x: Word16)
    requires b % 2 == 0
    ensures DpfTimes(b, x) == Scaled(b, x) && Recomposed(b) == b
  {
    hide Scaled, PairTimes;
    ExtractThenCompose(b);
    PairTimesExact(ExtractHi(b), ExtractLo(b), x);
  }

  lemma PairTimesExact(hi: Word16, lo: Word16, x: Word16)
    ensures PairTimes(hi, lo, x) == Scaled(LComp(hi, lo), x)
  {
    SplitProduct(hi, lo, x);
    MulBounds(hi, x, 0x8000, 0x8000);
    MulBounds(lo, x, 0x8000, 0x8000);
    NoWrap(hi * x, lo * x);
  }

  lemma NoWrap(a: int, b: int)
    requires -0x4000_0000 <= a <= 0x4000_0000 && -0x4000_0000 <= b <= 0x4000_0000
    ensures Wrap32(a + b / 0x8000) == a + b / 0x8000
  {
  }

  lemma SplitProduct(hi: int, lo: int, x: int)
    ensures (hi * 0x1_0000 + 2 * lo) * x / 0x1_0000 == hi * x + lo * x / 0x8000
  {
    assert (hi * 0x1_0000 + 2 * lo) * x == (hi * x) * 0x1_0000 + 2 * (lo * x);
  }

  lemma ScaledRange(b: int, x: Word16, m: int)
    requires -m <= b <= m
    ensures -(m + 2) <= 2 * Scaled(b, x) <= m
  {
    MulBounds(b, x, m, 32768);
  }

  lemma NextIsExact(b: int, prev: Word32, x: Word16, fi: Word16)
    requires -53 * 0x100_0000 <= b <= 53 * 0x100_0000 && b % 2 == 0 && -8192 <= fi <= 8192
    requires var next := 4 * Scaled(b, x) - prev + 16384 * (fi as int);
             -86 * 0x100_0000 <= next <= 86 * 0x100_0000
    ensures NextT0(b, prev, x, fi) == 4 * Scaled(b, x) - prev + 16384 * (fi as int)
  {
    hide Scaled, DpfTimes, Recomposed;
    DpfTimesExact(b, x);
    ScaledRange(b, x, 53 * 0x100_0000);
    Unwrapped(4 * Scaled(b, x), prev, 16384 * (fi as int));
  }

  lemma FirstIsExact(x: Word16, f1: Word16)
    requires -8192 <= f1 <= 8192
    ensures FirstT0(x, f1) == 1024 * (x as int) + 16384 * (f1 as int)
  {
  }

  /** Every step of the loop is exact. */
  lemma {:induction false} StateIsQ(x: Word16, f: Coefficients, i: nat)
    requires Moderate(f) && 1 <= i <= 4
    ensures State(x, f, i) == (Q(x, f, i), Q(x, f, i - 1))
  {
    hide Scaled, NextT0, Recomposed, Coef;
    QBounded(x, f, i);
    if i == 1 { FirstIsExact(x, f[1]); }
    hide FirstT0;
    if i >= 2 {
      StateIsQ(x, f, i - 1);
      QBounded(x, f, i - 1);
      QEven(x, f, i - 1);
      NextIsExact(Q(x, f, i - 1), Q(x, f, i - 2), x, f[i]);
      DpfTimesExact(Q(x, f, i - 1), x);
    }
  }

  /** The last step is exact too: its intermediate x * b - b2 is a short Chebyshev sum. */
  lemma FinalIsExact(x: Word16, f: Coefficients)
    requires Moderate(f)
    ensures FinalT0(x, f) == FinalQ(x, f)
  {
    hide Scaled, Q, State, Perturbed;
    StateIsQ(x, f, 4);
    QBounded(x, f, 4);
    QBounded(x, f, 3);
    QEven(x, f, 4);
    DpfTimesExact(Q(x, f, 4), x);
    ScaledRange(Q(x, f, 4), x, 86 * 0x100_0000);
    PerturbedWithin(x, f);
    LastDifference(x, f);
    Exact.SumTBounded(Perturbed(x, f), Arg(x), 5, 5, MAX_COEF);
    TruncationRange(Q(x, f, 4), x, 2);
    LastT0Exact(Q(x, f, 4), Q(x, f, 3), x, f[5]);
  }

  /** 2 floor(x b_4 / 2^16) - b_3 is the perturbed series without its last coefficient. */
  lemma LastDifference(x: Word16, f: Coefficients)
    ensures (2 * Scaled(Q(x, f, 4), x) - Q(x, f, 3)) as real
         == 16777216.0 * Exact.SumT(Perturbed(x, f), Arg(x), 5, 5) + Truncation(Q(x, f, 4), x, 2)
  {
    hide Scaled, Q, Truncation;
    var c := Perturbed(x, f);
    QIsClenshaw(x, f, 4);
    QIsClenshaw(x, f, 3);
    ProductStep(Q(x, f, 4), x, Exact.Clenshaw(c, Arg(x), 4), 2);
    Exact.ClenshawEvaluates(c, Arg(x), 5);
    hide Perturbed, Exact.Clenshaw;
  }

  lemma LastT0Exact(b1: Word32, b2: Word32, x: Word16, fn: Word16)
    requires b1 % 2 == 0 && -8192 <= fn <= 8192
    requires -86 * 0x100_0000 - 2 <= 2 * Scaled(b1, x) <= 86 * 0x100_0000
    requires -40 * 0x100_0000 <= 2 * Scaled(b1, x) - b2 <= 40 * 0x100_0000
    ensures LastT0(b1, b2, x, fn) == 2 * Scaled(b1, x) - b2 + 8192 * (fn as int)
  {
    hide Scaled, DpfTimes, Recomposed;
    DpfTimesExact(b1, x);
    Unwrapped(2 * Scaled(b1, x), b2, 8192 * (fn as int));
  }

  lemma Unwrapped(d: int, b: int, e: int)
    requires MIN_32 <= d <= MAX_32 && MIN_32 <= d - b <= MAX_32
    requires MIN_32 <= e <= MAX_32 && MIN_32 <= d - b + e <= MAX_32
    ensures Wrap32(Wrap32(Wrap32(d) - b) + Wrap32(e)) == d - b + e
  {
  }

  /** The truncation errors together: less than 4 units for each of three products. */
  lemma PerturbationError(x: Word16, f: Coefficients)
    ensures var d := Exact.SumT(Perturbed(x, f), Arg(x), 5, 5) - Exact.SumT(Coefs(f), Arg(x), 5, 5);
            -12.0 <= 16777216.0 * d <= 12.0
  {
    hide Truncation, Q, Exact.SumT;
    var e := [0.0, 0.0, 4.0 / 16777216.0, 4.0 / 16777216.0, 4.0 / 16777216.0, 0.0];
    TruncationRange(Q(x, f, 1), x, 4);
    TruncationRange(Q(x, f, 2), x, 4);
    TruncationRange(Q(x, f, 3), x, 4);
    Exact.SumTDiffers(Perturbed(x, f), Coefs(f), Arg(x), 5, 5, e);
    assert Exact.Total(e, 0) == 0.0 && Exact.Total(e, 1) == 0.0 && Exact.Total(e, 2) == 0.0;
    assert Exact.Total(e, 3) == 4.0 / 16777216.0 && Exact.Total(e, 4) == 8.0 / 16777216.0;
    assert Exact.Total(e, 5) == 12.0 / 16777216.0;
  }

  /** Chebps for moderate coefficients: the accumulator is within 14 units of Q24 of the
      true series value C(x), so the Q14 result, before clipping, exceeds 2^14 C(x) by at
      most 14/1024 and falls short of it by less than 1 + 14/1024. */
  lemma ChebpsAccuracy(x: Word16, f: Coefficients)
    requires Moderate(f)
    ensures var c := Exact.Series(Coefs(f), Arg(x), 5);
      && -14.0 <= FinalT0(x, f) as real - 16777216.0 * c <= 14.0
      && Value(x, f) == Sat16(FinalT0(x, f) / 1024)
      && 16384.0 * c - 1.0 - 14.0 / 1024.0 < (FinalT0(x, f) / 1024) as real <= 16384.0 * c + 14.0 / 1024.0
  {
    hide Scaled, Q, FinalT0, Perturbed, Value, Exact.SumT;
    FinalIsExact(x, f);
    LastDifference(x, f);
    PerturbationError(x, f);
    TruncationRange(Q(x, f, 4), x, 2);
    ValueIsClipped(x, f);
    var t := FinalT0(x, f);
    assert (8192 * (f[5] as int)) as real == 16777216.0 * (Coef(f, 5) / 2.0);
    assert t == 1024 * (t / 1024) + t % 1024;
    assert t as real == 1024.0 * (t / 1024) as real + (t % 1024) as real;
  }
}
