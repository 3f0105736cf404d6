/** How close the interpolated root of Az_lsp comes to the secant through its bracket. */
module LspSecant {
  import opened FixedPoint
  import opened Kernel
  import opened LspSearch

  function Magnitude(x: int): nat { if x < 0 then 0 - x else x }

  /** slope * |yhigh - ylow| is not far below 2^10 * (xhigh - xlow) either. */
  lemma SlopeNotBelow(x: Word16, d: Word16)
    requires d != 0 && d != MIN_16 && x >= 0
    ensures 8191 * x - 8 * AbsS(d) <= 8 * Times(Slope(x, d), AbsS(d))
  {
    hide Shl, NormS, Quotient, Pow2, Times, AbsS, Slope;
    AbsNonZero(d);
    var a := AbsS(d);
    NormalizeShort(a);
    var e := NormS(a);
    PowersOf19(e);
    QuotientAbove(Shl(a, e));
    SlopeIs(x, d);
    SlopeFloor(x, a, Quotient(16383, Shl(a, e)), Pow2(e), Pow2(19 - e));
  }

  lemma QuotientAbove(y: Word16)
    requires DivSDefined(16383, y) && y > 16383
    ensures Quotient(16383, y) >= 0 && 16383 * 0x8000 - y <= Times(Quotient(16383, y), y)
  {
    var q := Quotient(16383, y);
    assert (q + 1) * (y as int) == q * (y as int) + y;
  }

  lemma SlopeFloor(x: int, a: int, q: int, p: int, r: int)
    requires x >= 0 && a > 0 && q >= 0 && p > 0 && r > 0 && a * p <= 32767
    requires 16383 * 0x8000 - a * p <= Times(q, a * p) && r * p == 0x8_0000
    ensures 8191 * x - 8 * a <= 8 * Times(Times(x, q) / r, a)
  {
    var s, ap := x * q / r, a * p;
    assert x * q == s * r + (x * q) % r;
    assert (s + 1) * r == s * r + r;
    MulMono(x * q, (s + 1) * r, ap);
    MulMono(16382 * 0x8000, q * ap, x);
    assert (x * q) * ap == (q * ap) * x;
    assert ((s + 1) * r) * ap == ((s + 1) * a) * (r * p);
    assert (s + 1) * a == s * a + a;
  }

  predicate Plain(b: Bracket) {
    && SignChange(b) && 0 <= Width(b) <= 32767
    && Difference(b) != 0 && -32767 <= Difference(b) <= 32767 && Slope(Width(b), Difference(b)) <= 32767
  }

  /** A slope that fits 16 bits is narrowed to itself and gets the sign of the difference. */
  lemma SignedSlopeIs(b: Bracket)
    requires Plain(b)
    ensures var d: Word16 := Difference(b);
            SignedSlope(b) as int == if d < 0 then 0 - Slope(Width(b), d) else Slope(Width(b), d)
  {
    hide Slope, Times;
    var d: Word16 := Difference(b);
    SlopeBound(Width(b), d);
    NotWrapped(Slope(Width(b), d));
    NotWrapped(0 - Slope(Width(b), d));
    NotWrapped(Width(b));
    NotWrapped(Difference(b));
  }

  /** The secant through the ends crosses zero at xlow - ylow W / d: the interpolated root is
      within W / 8192 + |d| / 1024 + 1 of it. */
  lemma InterpolateNearSecant(b: Bracket)
    requires Plain(b)
    ensures var a := Magnitude(Difference(b));
            8192 * Magnitude(Times(Interpolate(b) as int - b.xlow, Difference(b)) + Times(b.ylow, Width(b)))
              <= Times(a, Width(b)) + 8 * Times(a, a) + 8192 * a
  {
    hide Slope, SignedSlope, Times, Wrap16, Interpolate;
    var d: Word16, w: int := Difference(b), Width(b);
    var y, s, a := SignedSlope(b), Slope(Width(b), d), Magnitude(d);
    SlopeBound(w, d);
    SlopeNotBelow(w, d);
    SignedSlopeIs(b);
    SlopeTimes(s, d);
    Signs(b.ylow, b.yhigh);
    RootIs(b);
    Linear(b.ylow, y, d, w, Times(b.ylow, y) / 1024, Times(s, AbsS(d)), a);
  }

  lemma SlopeTimes(s: int, d: Word16)
    requires d != MIN_16
    ensures Times(if d < 0 then 0 - s else s, d) == Times(s, AbsS(d)) && Magnitude(d) == AbsS(d) as int
  {
    if d < 0 { assert (0 - s) * d == s * (0 - d as int); }
  }

  /** The correction is not narrowed and the root is xlow minus it. */
  lemma RootIs(b: Bracket)
    requires Plain(b)
    ensures Interpolate(b) as int - b.xlow == -(Times(b.ylow, SignedSlope(b)) / 1024)
  {
    hide Slope, SignedSlope, Times, AbsS;
    var d: Word16 := Difference(b);
    SlopeBound(Width(b), d);
    SignedSlopeIs(b);
    Magnitudes(d);
    StepBound(b.ylow, b.yhigh, d, Slope(Width(b), d), Width(b));
    var c := Times(b.ylow, SignedSlope(b)) / 1024;
    NotWrapped(c);
    NotWrapped(b.xlow as int - c);
  }

  lemma Magnitudes(d: Word16)
    requires d != MIN_16
    ensures AbsS(d) as int == if d < 0 then -d else d
  {
  }

  lemma Linear(p: int, y: int, d: int, w: int, c: int, t: int, a: int)
    requires c == Times(p, y) / 1024 && t == Times(y, d) && a == Magnitude(d) && Magnitude(p) <= a && w >= 0
    requires t <= 1024 * w && 8191 * w - 8 * a <= 8 * t
    ensures 8192 * Magnitude(Times(-c, d) + Times(p, w)) <= Times(a, w) + 8 * Times(a, a) + 8192 * a
  {
    hide Times;
    var rho, u := Times(p, y) - 1024 * c, 1024 * w - t;
    ErrorIs(p, y, d, w, c, t, rho, u);
    ErrorBound(p, u, rho, d, w, a);
  }

  lemma ErrorIs(p: int, y: int, d: int, w: int, c: int, t: int, rho: int, u: int)
    requires t == Times(y, d) && rho == Times(p, y) - 1024 * c && u == 1024 * w - t
    ensures 1024 * (Times(-c, d) + Times(p, w)) == Times(p, u) + Times(rho, d)
  {
    assert rho * d == (p * y) * d - 1024 * (c * d) by { assert (p * y - 1024 * c) * d == (p * y) * d - (1024 * c) * d; }
    assert p * u == 1024 * (p * w) - p * (y * d) by { assert p * (1024 * w - t) == p * (1024 * w) - p * t; }
    assert p * (y * d) == (p * y) * d;
    assert (-c) * d == -(c * d);
  }

  lemma ErrorBound(p: int, u: int, rho: int, d: int, w: int, a: int)
    requires a == Magnitude(d) && Magnitude(p) <= a && w >= 0 && 0 <= rho < 1024 && 0 <= 8 * u <= w + 8 * a
    ensures -(Times(a, w) + 8 * Times(a, a) + 8192 * a) <= 8 * (Times(p, u) + Times(rho, d))
         <= Times(a, w) + 8 * Times(a, a) + 8192 * a
  {
    MulBounds(p, 8 * u, a, w + 8 * a);
    MulBounds(rho, d, 1023, a);
    assert p * (8 * u) == 8 * (p * u);
    assert a * (w + 8 * a) == a * w + 8 * (a * a);
  }
}
