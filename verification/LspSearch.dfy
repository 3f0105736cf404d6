/** Az_lsp: the line spectral pairs as the interleaved roots of two Chebyshev series, by a
    scan of a fixed grid, four bisections and one linear interpolation per root. */
module LspSearch {
  import opened FixedPoint
  import opened Kernel
  import opened Chebps

  const M := 10
  const GRID_POINTS := 60

  const ROW0: seq<Word16> := [32760, 32723, 32588, 32364, 32051, 31651, 31164, 30591, 29935, 29196, 28377, 27481]
  const ROW1: seq<Word16> := [26509, 25465, 24351, 23170, 21926, 20621, 19260, 17846, 16384, 14876, 13327, 11743]
  const ROW2: seq<Word16> := [10125, 8480, 6812, 5126, 3425, 1714, 0, -1714, -3425, -5126, -6812, -8480]
  const ROW3: seq<Word16> := [-10125, -11743, -13327, -14876, -16384, -17846, -19260, -20621,
                              -21926, -23170, -24351, -25465]
  const ROW4: seq<Word16> := [-26509, -27481, -28377, -29196, -29935, -30591, -31164, -31651,
                              -32051, -32364, -32588, -32723]

  /** The grid of cosines, twelve values a row and -32760 at the end. */
  function Grid(j: nat): Word16
    requires j <= GRID_POINTS
  {
    if j < 12 then ROW0[j]
    else if j < 24 then ROW1[j - 12]
    else if j < 36 then ROW2[j - 24]
    else if j < 48 then ROW3[j - 36]
    else if j < 60 then ROW4[j - 48]
    else -32760
  }

  predicate GapAt(j: nat)
    requires j < GRID_POINTS
  {
    Grid(j) as int - Grid(j + 1) as int >= 37 && -32760 <= Grid(j + 1) && Grid(j) <= 32760
  }

  /** The gaps from grid point j on are all wide enough. */
  predicate GapsFrom(j: nat)
    requires j <= GRID_POINTS
    decreases GRID_POINTS - j
  {
    j == GRID_POINTS || (GapAt(j) && GapsFrom(j + 1))
  }

  lemma GapTable()
    ensures GapsFrom(0)
  {
    assert GapsFrom(54);
    assert GapsFrom(48);
    assert GapsFrom(42);
    assert GapsFrom(36);
    assert GapsFrom(30);
    assert GapsFrom(24);
    assert GapsFrom(18);
    assert GapsFrom(12);
    assert GapsFrom(6);
  }

  lemma {:induction false} GapsReach(i: nat, j: nat)
    requires i <= j < GRID_POINTS && GapsFrom(i)
    ensures GapAt(j)
    decreases j - i
  {
    hide GapAt;
    if i < j { GapsReach(i + 1, j); }
  }

  /** Neighbouring grid points are at least 37 apart. */
  lemma GridGaps(j: nat)
    requires j < GRID_POINTS
    ensures Grid(j) as int - Grid(j + 1) as int >= 37
    ensures -32760 <= Grid(j + 1) && Grid(j) <= 32760
  {
    GapTable();
    GapsReach(0, j);
  }

  // ----- the two polynomials -----

  type Predictor = a: seq<Word16> | |a| == 11 witness seq(11, _ => 0)

  /** The first n + 1 coefficients of the sum (s = 1) or difference (s = -1) polynomial. */
  function Poly(a: Predictor, s: int, n: nat): (f: seq<Word16>)
    requires (s == 1 || s == -1) && n <= NC
    ensures |f| == n + 1
  {
    if n == 0 then [1024]
    else
      var f := Poly(a, s, n - 1);
      var x := (a[n] as int + s * (a[M + 1 - n] as int)) / 4;
      f + [Wrap16(Wrap16(x) - s * (f[n - 1] as int))]
  }

  method Polynomials(a: Predictor) returns (f1: seq<Word16>, f2: seq<Word16>)
    ensures f1 == Poly(a, 1, NC) && f2 == Poly(a, -1, NC)
  {
    hide Wrap16;
    f1, f2 := [1024], [1024];
    for i := 0 to NC
      invariant f1 == Poly(a, 1, i) && f2 == Poly(a, -1, i)
    {
      var t1, t2 := a[i + 1] as int, a[M - i] as int;
      var x, y := Wrap16((t1 + t2) / 4), Wrap16((t1 - t2) / 4);
      f1 := f1 + [Wrap16(x as int - f1[i] as int)];
      f2 := f2 + [Wrap16(y as int + f2[i] as int)];
    }
  }

  /** One loop iteration, as an equation. */
  lemma NextCoefficient(a: Predictor, s: int, n: nat)
    requires (s == 1 || s == -1) && 1 <= n <= NC
    ensures Poly(a, s, n) == Poly(a, s, n - 1) + [Wrap16(HalfSum(a, s, n) - s * (Poly(a, s, n - 1)[n - 1] as int))]
  {
    assert Wrap16(HalfSum(a, s, n)) == HalfSum(a, s, n);
  }

  /** Coefficient i of A(z) + s z^-11 A(1/z), in Q10 and rounded down. */
  function HalfSum(a: Predictor, s: int, i: nat): int
    requires i <= NC
  {
    (a[i] as int + s * (if i == 0 then 0 else a[M + 1 - i] as int)) / 4
  }

  /** The whole polynomial of that symmetry, degree 11: s = 1 palindromic, s = -1 its negative. */
  function SymmetricSum(a: Predictor, s: int, i: nat): int
    requires i <= M + 1
  {
    if i <= NC then HalfSum(a, s, i) else s * HalfSum(a, s, M + 1 - i)
  }

  /** Coefficient i of the palindromic polynomial of degree 10 that f[0..5] begins. */
  function Mirrored(f: Coefficients, i: int): int {
    if i < 0 || i > M then 0 else if i <= NC then f[i] else f[M - i]
  }

  /** No subtraction of the loop leaves 16 bits. */
  predicate PolyFits(a: Predictor, s: int)
    requires s == 1 || s == -1
  {
    forall n :: 1 <= n <= NC ==> MIN_16 <= HalfSum(a, s, n) - s * (Poly(a, s, NC)[n - 1] as int) <= MAX_16
  }

  lemma {:induction false} PolyPrefix(a: Predictor, s: int, m: nat, n: nat)
    requires (s == 1 || s == -1) && m <= n <= NC
    ensures Poly(a, s, n)[..m + 1] == Poly(a, s, m)
    decreases n
  {
    if m < n {
      PolyPrefix(a, s, m, n - 1);
      NextCoefficient(a, s, n);
    } else {
      assert Poly(a, s, n)[..n + 1] == Poly(a, s, n);
    }
  }

  lemma PolyAt(a: Predictor, s: int, n: nat)
    requires (s == 1 || s == -1) && 1 <= n <= NC
    ensures Poly(a, s, NC)[n] == Wrap16(HalfSum(a, s, n) - s * (Poly(a, s, NC)[n - 1] as int))
  {
    hide Poly, HalfSum, Wrap16;
    PolyPrefix(a, s, n, NC);
    PolyPrefix(a, s, n - 1, NC);
    NextCoefficient(a, s, n);
    var f := Poly(a, s, NC);
    assert f[n] == f[..n + 1][n] && f[n - 1] == f[..n][n - 1];
  }

  /** Coefficient i of F(z) (1 + s z^-1) is that of A(z) + s z^-11 A(1/z). */
  predicate DividedAt(a: Predictor, s: int, f: Coefficients, i: nat)
    requires i <= M + 1
  {
    Mirrored(f, i) + s * Mirrored(f, i - 1) == SymmetricSum(a, s, i)
  }

  predicate StepExact(a: Predictor, s: int, f: Coefficients, n: nat)
    requires 1 <= n <= NC
  {
    f[n] as int + s * (f[n - 1] as int) == HalfSum(a, s, n)
  }

  /** Both halves of the product come down to the five steps of the loop. */
  lemma DividedByStep(a: Predictor, s: int, f: Coefficients, i: nat)
    requires (s == 1 || s == -1) && i <= M + 1 && f[0] == HalfSum(a, s, 0)
    ensures if i == 0 || i == M + 1 then DividedAt(a, s, f, i)
            else DividedAt(a, s, f, i) <==> StepExact(a, s, f, if i <= NC then i else M + 1 - i)
  {
    hide HalfSum;
    if s == 1 { } else { }
  }

  lemma StepUnlessWrapped(a: Predictor, s: int, f: Coefficients, n: nat)
    requires (s == 1 || s == -1) && f == Poly(a, s, NC) && 1 <= n <= NC
    ensures StepExact(a, s, f, n) <==> MIN_16 <= HalfSum(a, s, n) - s * (f[n - 1] as int) <= MAX_16
  {
    hide Poly, HalfSum, Wrap16;
    PolyAt(a, s, n);
    WrappedOrNot(HalfSum(a, s, n) - s * (f[n - 1] as int));
  }

  /** What the loop divides out: f[0..5] begins the polynomial F with
      F(z) (1 + s z^-1) = A(z) + s z^-11 A(1/z), each coefficient in Q10 and rounded down,
      if and only if no subtraction wraps. */
  lemma PolyDivides(a: Predictor, s: int, f: Coefficients)
    requires (s == 1 || s == -1) && a[0] == 4096 && f == Poly(a, s, NC)
    ensures (forall i: nat :: i <= M + 1 ==> DividedAt(a, s, f, i)) <==> PolyFits(a, s)
  {
    hide Poly, HalfSum, DividedAt, StepExact;
    FirstHalfSum(a, s);
    PolyPrefix(a, s, 0, NC);
    assert f[0] == f[..1][0];
    forall n | 1 <= n <= NC
      ensures StepExact(a, s, f, n) <==> MIN_16 <= HalfSum(a, s, n) - s * (f[n - 1] as int) <= MAX_16
      ensures DividedAt(a, s, f, n) <==> StepExact(a, s, f, n)
    {
      StepUnlessWrapped(a, s, f, n);
      DividedByStep(a, s, f, n);
    }
    if PolyFits(a, s) {
      forall i: nat | i <= M + 1
        ensures DividedAt(a, s, f, i)
      {
        DividedByStep(a, s, f, i);
      }
    }
  }

  lemma FirstHalfSum(a: Predictor, s: int)
    requires (s == 1 || s == -1) && a[0] == 4096
    ensures HalfSum(a, s, 0) == 1024 && Poly(a, s, 0) == [1024]
  {
  }

  lemma WrappedOrNot(v: int)
    ensures Wrap16(v) == v <==> MIN_16 <= v <= MAX_16
  {
  }

  // ----- refining one root -----

  /** An interval with the series values at its ends. */
  datatype Bracket = Bracket(xlow: Word16, ylow: Word16, xhigh: Word16, yhigh: Word16)

  predicate SignChange(b: Bracket) { Times(b.ylow, b.yhigh) <= 0 }

  function Times(a: int, b: int): int { a * b }

  function Middle(b: Bracket): Word16 { b.xlow / 2 + b.xhigh / 2 }

  function Halve(f: Coefficients, b: Bracket): Bracket {
    var xmid := Middle(b);
    var ymid := Value(xmid, f);
    if Times(b.ylow, ymid) <= 0 then Bracket(b.xlow, b.ylow, xmid, ymid) else Bracket(xmid, ymid, b.xhigh, b.yhigh)
  }

  function Bisect(f: Coefficients, b: Bracket, n: nat): Bracket {
    if n == 0 then b else Halve(f, Bisect(f, b, n - 1))
  }

  /** The Q11 slope (xhigh - xlow) / |yhigh - ylow|, before it is narrowed. */
  function Slope(x: Word16, d: Word16): int
    requires d != 0
  {
    AbsNonZero(d);
    NormalizeShort(AbsS(d));
    var exp := NormS(AbsS(d));
    Times(x, Quotient(16383, Shl(AbsS(d), exp))) / Pow2(19 - exp)
  }

  lemma AbsNonZero(d: Word16)
    requires d != 0
    ensures AbsS(d) > 0
  {
  }

  /** The slope as the code has it: narrowed to 16 bits, with the sign of the difference. */
  function SignedSlope(b: Bracket): Word16 {
    var x := Wrap16(b.xhigh as int - b.xlow as int);
    var d := Wrap16(b.yhigh as int - b.ylow as int);
    if d == 0 then 0
    else
      var s := Wrap16(Slope(x, d));
      if d < 0 then Wrap16(0 - s as int) else s
  }

  function Interpolate(b: Bracket): Word16 {
    Wrap16(b.xlow as int - Wrap16(Times(b.ylow, SignedSlope(b)) / 1024) as int)
  }

  // ----- the scan -----

  /** Roots found so far with their final brackets, and the lower end of the last interval. */
  datatype Scan = Scan(roots: seq<Word16>, brackets: seq<Bracket>, xlow: Word16, ylow: Word16)

  /** Roots alternate between the two polynomials, the first one belonging to f1. */
  function Side(f1: Coefficients, f2: Coefficients, k: nat): Coefficients { if k % 2 == 0 then f1 else f2 }

  function Advance(f1: Coefficients, f2: Coefficients, s: Scan, x: Word16): Scan {
    var f := Side(f1, f2, |s.roots|);
    var b := Bracket(x, Value(x, f), s.xlow, s.ylow);
    if SignChange(b) then
      var fine := Bisect(f, b, 4);
      var root := Interpolate(fine);
      Scan(s.roots + [root], s.brackets + [fine], root, Value(root, Side(f1, f2, |s.roots| + 1)))
    else Scan(s.roots, s.brackets, b.xlow, b.ylow)
  }

  /** The state after j grid intervals; the scan stops once M roots are found. */
  function ScanTo(f1: Coefficients, f2: Coefficients, j: nat): (s: Scan)
    requires j <= GRID_POINTS
    ensures |s.roots| <= M
  {
    if j == 0 then Scan([], [], Grid(0), Value(Grid(0), f1))
    else
      var s := ScanTo(f1, f2, j - 1);
      if |s.roots| == M then s else Advance(f1, f2, s, Grid(j))
  }

  // ----- the code -----

  method RefineRoot(f: Coefficients, b: Bracket) returns (xint: Word16)
    ensures xint == Interpolate(Bisect(f, b, 4))
  {
    hide Value, Times, Interpolate;
    var xlow, ylow, xhigh, yhigh := b.xlow, b.ylow, b.xhigh, b.yhigh;
    for i := 0 to 4
      invariant Bracket(xlow, ylow, xhigh, yhigh) == Bisect(f, b, i)
    {
      var xmid: Word16 := xlow / 2 + xhigh / 2;
      var ymid := Evaluate(xmid, f);
      if Times(ylow, ymid) <= 0 {
        yhigh, xhigh := ymid, xmid;
      } else {
        ylow, xlow := ymid, xmid;
      }
    }
    xint := InterpolateRoot(xlow, ylow, xhigh, yhigh);
  }

  /** Linear interpolation between the ends of the bracket. */
  method InterpolateRoot(xlow: Word16, ylow: Word16, xhigh: Word16, yhigh: Word16) returns (xint: Word16)
    ensures xint == Interpolate(Bracket(xlow, ylow, xhigh, yhigh))
  {
    hide Times, Quotient, Wrap16, NormS, Shl, Pow2, AbsS;
    var x := Wrap16(xhigh as int - xlow as int);
    var y := Wrap16(yhigh as int - ylow as int);
    if y == 0 {
      NoCorrection(ylow, xlow);
      xint := xlow;
    } else {
      var sign := y;
      AbsNonZero(y);
      y := AbsS(y);
      NormalizeShort(y);
      var exp := NormS(y);
      y := Shl(y, exp);
      y := DivS(16383, y);
      y := Wrap16(Times(x, y) / Pow2(19 - exp));
      if sign < 0 {
        y := Wrap16(0 - y as int);
      }
      xint := Wrap16(xlow as int - Wrap16(Times(ylow, y) / 1024) as int);
    }
  }

  lemma NoCorrection(y: int, x: Word16)
    ensures Times(y, 0) / 1024 == 0 && Wrap16(0) == 0 && Wrap16(x) == x
  {
  }

  method AzLsp(a: Predictor, lsp: array<Word16>, oldLsp: seq<Word16>)
    requires lsp.Length == M && |oldLsp| == M
    modifies lsp
    ensures var roots := ScanTo(Poly(a, 1, NC), Poly(a, -1, NC), GRID_POINTS).roots;
            lsp[..] == if |roots| == M then roots else oldLsp
  {
    hide Value, Interpolate, Bisect, Grid, Times, Poly;
    var f1, f2 := Polynomials(a);
    var nf, j := 0, 0;
    var coef: Coefficients := f1;
    var xlow := Grid(0);
    var ylow := Evaluate(xlow, coef);
    while nf < M && j < GRID_POINTS
      invariant nf <= M && j <= GRID_POINTS && |ScanTo(f1, f2, j).roots| == nf
      invariant coef == Side(f1, f2, nf)
      invariant ScanTo(f1, f2, j).roots == lsp[..nf]
      invariant ScanTo(f1, f2, j).xlow == xlow && ScanTo(f1, f2, j).ylow == ylow
    {
      j := j + 1;
      var xhigh, yhigh := xlow, ylow;
      xlow := Grid(j);
      ylow := Evaluate(xlow, coef);
      if Times(ylow, yhigh) <= 0 {
        var xint := RefineRoot(coef, Bracket(xlow, ylow, xhigh, yhigh));
        lsp[nf] := xint;
        xlow := xint;
        nf := nf + 1;
        coef := if nf % 2 == 0 then f1 else f2;
        ylow := Evaluate(xlow, coef);
      }
    }
    ScanStops(f1, f2, j);
    if nf < M {
      for i := 0 to M
        invariant forall k :: 0 <= k < i ==> lsp[k] == oldLsp[k]
      {
        lsp[i] := oldLsp[i];
      }
    }
  }

  lemma {:induction false} ScanStops(f1: Coefficients, f2: Coefficients, j: nat)
    requires j <= GRID_POINTS && (|ScanTo(f1, f2, j).roots| == M || j == GRID_POINTS)
    ensures ScanTo(f1, f2, GRID_POINTS) == ScanTo(f1, f2, j)
    decreases GRID_POINTS - j
  {
    hide Advance;
    if j < GRID_POINTS { ScanStops(f1, f2, j + 1); }
  }

  // ----- bisection keeps a sign change -----

  /** The bracket's end values are values of the series and differ in sign. */
  predicate Good(f: Coefficients, b: Bracket) {
    b.ylow == Value(b.xlow, f) && b.yhigh == Value(b.xhigh, f) && SignChange(b)
  }

  function Width(b: Bracket): int { b.xhigh as int - b.xlow as int }

  /** The sign of a product. */
  lemma Signs(a: int, b: int)
    ensures Times(a, b) > 0 <==> (a > 0 && b > 0) || (a < 0 && b < 0)
    ensures Times(a, b) <= 0 <==> (a >= 0 && b <= 0) || (a <= 0 && b >= 0)
  {
    if a > 0 && b > 0 {
      MulMono(1, b, a);
    } else if a < 0 && b < 0 {
      MulMono(1, -b, -a);
      assert (-b) * (-a) == a * b;
    } else if a >= 0 && b <= 0 {
      MulMono(b, 0, a);
    } else {
      MulMono(a, 0, b);
    }
  }

  lemma SignTransfer(a: int, m: int, b: int)
    requires Times(a, b) <= 0 && Times(a, m) > 0
    ensures Times(m, b) <= 0
  {
    hide Times;
    Signs(a, b);
    Signs(a, m);
    Signs(m, b);
  }

  /** Halving any interval keeps the sign change, whatever the ends are. */
  lemma {:induction false} BisectKeepsSign(f: Coefficients, b: Bracket, n: nat)
    requires Good(f, b)
    ensures Good(f, Bisect(f, b, n))
  {
    hide Value, Times, Middle;
    if n > 0 {
      BisectKeepsSign(f, b, n - 1);
      var c := Bisect(f, b, n - 1);
      var ymid := Value(Middle(c), f);
      if Times(c.ylow, ymid) > 0 { SignTransfer(c.ylow, ymid, c.yhigh); }
    }
  }

  /** Truncating both halves can lose a unit, so the gap must be at least two. */
  lemma HalveNarrows(f: Coefficients, b: Bracket)
    requires Width(b) >= 2
    ensures var c := Halve(f, b);
      && b.xlow <= c.xlow && c.xhigh <= b.xhigh
      && (Width(b) - 1) / 2 <= Width(c) <= Width(b) / 2 + 1
  {
    hide Value, Times;
  }

  lemma FourHalvings(f: Coefficients, b: Bracket)
    requires Width(b) >= 32
    ensures var c := Bisect(f, b, 4);
      && b.xlow <= c.xlow < c.xhigh <= b.xhigh
      && Width(c) <= 4097
  {
    hide Halve;
    assert Bisect(f, b, 0) == b;
    HalveNarrows(f, Bisect(f, b, 0));
    HalveNarrows(f, Bisect(f, b, 1));
    HalveNarrows(f, Bisect(f, b, 2));
    HalveNarrows(f, Bisect(f, b, 3));
  }

  // ----- when the interpolated root stays in its bracket -----

  function Difference(b: Bracket): int { b.yhigh as int - b.ylow as int }

  /** What can be read off the end values and the narrowed slope: while the difference of
      the end values fits 16 bits, the correction must not point out of the bracket; a
      difference that wraps leaves only the correction itself, modulo 2^16. */
  predicate Lands(b: Bracket) {
    if -32767 <= Difference(b) <= 32767 then Times(b.ylow, SignedSlope(b)) < 1024
    else (0 - Times(b.ylow, SignedSlope(b)) / 1024) % 0x1_0000 <= Width(b)
  }

  predicate Inside(b: Bracket) { b.xlow <= Interpolate(b) <= b.xhigh }

  /** slope * |yhigh - ylow| <= 2^10 * (xhigh - xlow). */
  lemma SlopeBound(x: Word16, d: Word16)
    requires d != 0 && d != MIN_16 && x >= 0
    ensures 0 <= Slope(x, d) && Times(Slope(x, d), AbsS(d)) <= 1024 * x
  {
    hide Shl, NormS, Quotient, Pow2, Times, AbsS, Slope;
    AbsNonZero(d);
    var a := AbsS(d);
    NormalizeShort(a);
    var e := NormS(a);
    var q := Quotient(16383, Shl(a, e));
    PowersOf19(e);
    QuotientBelow(Shl(a, e));
    SlopeIs(x, d);
    SlopeArithmetic(x, a, q, Pow2(e), Pow2(19 - e));
  }

  lemma PowersOf19(e: nat)
    requires e <= 19
    ensures Pow2(19 - e) * Pow2(e) == 0x8_0000
  {
    Pow2Values();
    assert Pow2(19) == 0x8_0000 by { assert Pow2(19) == 8 * Pow2(16); }
    Pow2Split(19 - e, e);
  }

  lemma QuotientBelow(y: Word16)
    requires DivSDefined(16383, y) && y > 16383
    ensures Quotient(16383, y) >= 0 && Times(Quotient(16383, y), y) <= 16383 * 0x8000
  {
  }

  lemma SlopeIs(x: Word16, d: Word16)
    requires d != 0 && d != MIN_16
    ensures var a := AbsS(d);
            && NormS(a) <= 19 && DivSDefined(16383, Shl(a, NormS(a)))
            && Slope(x, d) == Times(x, Quotient(16383, Shl(a, NormS(a)))) / Pow2(19 - NormS(a))
  {
    hide Shl, NormS, Quotient, Pow2;
    AbsNonZero(d);
    NormalizeShort(AbsS(d));
  }

  lemma SlopeArithmetic(x: int, a: int, q: int, p: int, r: int)
    requires x >= 0 && a > 0 && q >= 0 && p > 0 && r > 0
    requires Times(q, a * p) <= 16383 * 0x8000 && r * p == 0x8_0000
    ensures 0 <= Times(x, q) / r && Times(Times(x, q) / r, a) <= 1024 * x
  {
    var s := x * q / r;
    assert x * q == s * r + (x * q) % r;
    MulMono(0, q, x);
    if s < 0 { MulMono(s, -1, r); }
    MulMono(s * r, x * q, a * p);
    MulMono(q * (a * p), 16383 * 0x8000, x);
    assert (s * r) * (a * p) == (s * a) * (r * p);
    assert (x * q) * (a * p) == (q * (a * p)) * x;
    assert (s * a) * 0x8_0000 <= (16383 * 0x8000) * x;
  }

  /** The interpolated root lies in its bracket if and only if the bracket lands. */
  lemma InterpolateInside(b: Bracket)
    requires SignChange(b) && 0 <= Width(b) <= 32767
    ensures Inside(b) <==> Lands(b)
  {
    hide SignedSlope, Times, Wrap16;
    var c := Times(b.ylow, SignedSlope(b)) / 1024;
    InsideModulo(b.xlow, Width(b), c);
    if -32767 <= Difference(b) <= 32767 {
      CorrectionBound(b);
      SmallCorrection(Times(b.ylow, SignedSlope(b)), Width(b));
    }
  }

  lemma InsideModulo(xlow: Word16, w: int, c: int)
    requires 0 <= w && xlow as int + w <= 32767
    ensures xlow <= Wrap16(xlow as int - Wrap16(c) as int) <= xlow as int + w <==> (0 - c) % 0x1_0000 <= w
  {
    hide Wrap16;
    var m := Wrapped16(c);
    var n := Wrapped16(xlow as int - Wrap16(c) as int);
    var r := (0 - c) % 0x1_0000;
    var q := (0 - c) / 0x1_0000;
    assert 0 - c == q * 0x1_0000 + r;
  }

  lemma SmallCorrection(p: int, w: int)
    requires 0 <= w <= 32767 && -w <= p / 1024 <= w
    ensures (0 - p / 1024) % 0x1_0000 <= w <==> p < 1024
  {
  }

  /** Whatever the narrowing does, the correction is never longer than the bracket: a slope
      beyond 16 bits means that 32 |yhigh - ylow| is at most the width. */
  lemma CorrectionBound(b: Bracket)
    requires SignChange(b) && 0 <= Width(b) <= 32767 && -32767 <= Difference(b) <= 32767
    ensures -Width(b) <= Times(b.ylow, SignedSlope(b)) / 1024 <= Width(b)
  {
    hide Slope, Times;
    var d: Word16 := Difference(b);
    var x: Word16 := Width(b);
    NotWrapped(d);
    NotWrapped(x);
    if d == 0 {
      NoCorrection(b.ylow, b.xlow);
    } else {
      SlopeBound(x, d);
      var s := Slope(x, d);
      Signs(b.ylow, b.yhigh);
      if s <= 32767 {
        NotWrapped(s);
        NotWrapped(0 - s);
        StepBound(b.ylow, b.yhigh, d, s, x);
      } else {
        SteepBound(b.ylow, SignedSlope(b), d, s, x);
      }
    }
  }

  lemma NotWrapped(v: int)
    requires -32768 <= v <= 32767
    ensures Wrap16(v) == v
  {
  }

  lemma SteepBound(ylow: int, y: Word16, d: Word16, s: int, x: int)
    requires d != MIN_16 && s > 32767 && Times(s, AbsS(d)) <= 1024 * x
    requires (if ylow < 0 then -ylow else ylow) <= AbsS(d)
    ensures -x <= Times(ylow, y) / 1024 <= x
  {
    MulMono(32768, s, AbsS(d));
    MulBounds(ylow, y, AbsS(d), 32768);
  }

  /** The correction ylow * slope / 2^10 points into the bracket and stops before its end. */
  lemma StepBound(ylow: int, yhigh: int, d: int, s: int, x: int)
    requires d == yhigh - ylow != 0 && Times(ylow, yhigh) <= 0 && s >= 0 && x >= 0
    requires Times(s, if d < 0 then -d else d) <= 1024 * x
    ensures -x <= Times(ylow, if d < 0 then 0 - s else s) / 1024 <= 0
  {
    Signs(ylow, yhigh);
    if d < 0 {
      MulMono(ylow, -d, s);
      MulMono(0, ylow, s);
      assert ylow * (-s) == -(ylow * s);
    } else {
      MulMono(-ylow, d, s);
      MulMono(ylow, 0, s);
      assert (-ylow) * s == -(ylow * s);
    }
  }

  // ----- the whole run -----

  ghost predicate AllLand(s: Scan) {
    forall k :: 0 <= k < |s.brackets| ==> Lands(s.brackets[k])
  }

  /** Every root's final bracket holds a sign change of the polynomial it belongs to. */
  ghost predicate Bracketed(f1: Coefficients, f2: Coefficients, s: Scan) {
    && |s.brackets| == |s.roots|
    && s.ylow == Value(s.xlow, Side(f1, f2, |s.roots|))
    && forall k :: 0 <= k < |s.roots| ==> Good(Side(f1, f2, k), s.brackets[k])
  }

  /** Every root lies in its bracket, and the roots never increase. */
  ghost predicate Ordered(s: Scan) {
    && |s.brackets| == |s.roots|
    && (forall k :: 0 <= k < |s.roots| ==> s.brackets[k].xlow <= s.roots[k] <= s.brackets[k].xhigh)
    && (forall k :: 0 <= k < |s.roots| ==> s.brackets[k].xlow < s.brackets[k].xhigh)
    && (forall k, l :: 0 <= k < l < |s.roots| ==> s.roots[k] >= s.roots[l])
  }

  lemma AdvanceBracketed(f1: Coefficients, f2: Coefficients, s: Scan, x: Word16)
    requires Bracketed(f1, f2, s)
    ensures Bracketed(f1, f2, Advance(f1, f2, s, x))
  {
    hide Value, Interpolate, Bisect, SignChange;
    var f := Side(f1, f2, |s.roots|);
    var b := Bracket(x, Value(x, f), s.xlow, s.ylow);
    if SignChange(b) { BisectKeepsSign(f, b, 4); }
  }

  lemma {:induction false} RootsBracketed(f1: Coefficients, f2: Coefficients, j: nat)
    requires j <= GRID_POINTS
    ensures Bracketed(f1, f2, ScanTo(f1, f2, j))
  {
    hide Advance, Value, Good;
    if j > 0 {
      RootsBracketed(f1, f2, j - 1);
      if |ScanTo(f1, f2, j - 1).roots| < M { AdvanceBracketed(f1, f2, ScanTo(f1, f2, j - 1), Grid(j)); }
    }
  }

  /** The scan position never passes a root, and stays at or above the grid point. */
  ghost predicate Behind(s: Scan, j: nat)
    requires j <= GRID_POINTS
  {
    && Ordered(s) && Grid(j) <= s.xlow <= 32760
    && forall k :: 0 <= k < |s.roots| ==> s.xlow <= s.roots[k]
  }

  /** One more interval: the scan stays in order exactly if its new bracket lands. */
  lemma AdvanceExactly(f1: Coefficients, f2: Coefficients, s: Scan, j: nat)
    requires 1 <= j <= GRID_POINTS && Behind(s, j - 1) && AllLand(s) && Bracketed(f1, f2, s)
    ensures var t := Advance(f1, f2, s, Grid(j));
            && (AllLand(t) <==> Ordered(t))
            && (AllLand(t) ==> Behind(t, j))
  {
    hide Value, Interpolate, Bisect, Lands, Grid;
    GridGaps(j - 1);
    var f := Side(f1, f2, |s.roots|);
    var b := Bracket(Grid(j), Value(Grid(j), f), s.xlow, s.ylow);
    if SignChange(b) {
      BisectKeepsSign(f, b, 4);
      FourHalvings(f, b);
      var fine := Bisect(f, b, 4);
      InterpolateInside(fine);
      OneMoreBracket(s, Advance(f1, f2, s, Grid(j)), fine);
    }
  }

  /** A new root below all earlier ones keeps the order exactly if it is in its bracket. */
  lemma OneMoreBracket(s: Scan, t: Scan, fine: Bracket)
    requires Ordered(s) && AllLand(s) && fine.xlow < fine.xhigh <= s.xlow
    requires forall k :: 0 <= k < |s.roots| ==> s.xlow <= s.roots[k]
    requires t.roots == s.roots + [Interpolate(fine)] && t.brackets == s.brackets + [fine]
    requires Inside(fine) <==> Lands(fine)
    ensures AllLand(t) <==> Ordered(t)
    ensures AllLand(t) <==> Inside(fine)
  {
    hide Interpolate, Lands;
    var n := |s.roots|;
    assert t.brackets[n] == fine && t.roots[n] == Interpolate(fine);
    assert forall k :: 0 <= k < n ==> t.brackets[k] == s.brackets[k] && t.roots[k] == s.roots[k];
  }

  /** At every point of the scan: the roots lie in their brackets and never increase if and
      only if every bracket lands. */
  lemma {:induction false} RootsExactly(f1: Coefficients, f2: Coefficients, j: nat)
    requires j <= GRID_POINTS
    ensures AllLand(ScanTo(f1, f2, j)) <==> Ordered(ScanTo(f1, f2, j))
    ensures AllLand(ScanTo(f1, f2, j)) ==> Behind(ScanTo(f1, f2, j), j)
  {
    hide Advance, AllLand, Ordered, Bracketed, Grid;
    if j == 0 {
      NothingFound(f1, f2);
    } else {
      var s := ScanTo(f1, f2, j - 1);
      RootsExactly(f1, f2, j - 1);
      RootsBracketed(f1, f2, j - 1);
      GridGaps(j - 1);
      EarlierBrackets(f1, f2, j);
      if |s.roots| < M && AllLand(s) { AdvanceExactly(f1, f2, s, j); }
    }
  }

  lemma NothingFound(f1: Coefficients, f2: Coefficients)
    ensures AllLand(ScanTo(f1, f2, 0)) && Ordered(ScanTo(f1, f2, 0)) && Behind(ScanTo(f1, f2, 0), 0)
  {
  }

  /** The scan only appends, so what fails for its beginning fails for all of it. */
  lemma EarlierBrackets(f1: Coefficients, f2: Coefficients, j: nat)
    requires 1 <= j <= GRID_POINTS
    ensures var s, t := ScanTo(f1, f2, j - 1), ScanTo(f1, f2, j);
            && s.roots <= t.roots && s.brackets <= t.brackets
            && (AllLand(t) ==> AllLand(s)) && (Ordered(t) ==> Ordered(s))
  {
    hide Lands, Value, Interpolate, Bisect, Grid, SignChange;
    RootsBracketed(f1, f2, j - 1);
    RootsBracketed(f1, f2, j);
    Prefixes(ScanTo(f1, f2, j - 1), ScanTo(f1, f2, j));
  }

  lemma Prefixes(s: Scan, t: Scan)
    requires |s.roots| == |s.brackets| && |t.roots| == |t.brackets|
    requires s.roots <= t.roots && s.brackets <= t.brackets
    ensures (AllLand(t) ==> AllLand(s)) && (Ordered(t) ==> Ordered(s))
  {
    hide Lands;
    assert forall k :: 0 <= k < |s.roots| ==> t.roots[k] == s.roots[k] && t.brackets[k] == s.brackets[k];
  }

  /** The roots Az_lsp works with: each is bracketed by a sign change of its polynomial;
      they lie in their brackets, in non-increasing order, if and only if all brackets
      land. */
  lemma AzLspRoots(a: Predictor)
    ensures var f1, f2 := Poly(a, 1, NC), Poly(a, -1, NC);
            var s := ScanTo(f1, f2, GRID_POINTS);
            Bracketed(f1, f2, s) && (AllLand(s) <==> Ordered(s))
  {
    hide Bracketed, Ordered, AllLand;
    var f1, f2 := Poly(a, 1, NC), Poly(a, -1, NC);
    RootsBracketed(f1, f2, GRID_POINTS);
    RootsExactly(f1, f2, GRID_POINTS);
  }
}
