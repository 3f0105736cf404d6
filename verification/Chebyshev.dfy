/** Exact arithmetic behind Chebps: the Clenshaw recurrence evaluates a Chebyshev series,
    and Chebyshev polynomials are small on [-1, 1]. */
module Chebyshev {

  /** Products are named so that proofs can treat them as atoms. */
  function Mul(a: real, b: real): real { a * b }

  /** cos(n w) as a polynomial in x = cos(w). */
  function T(n: nat, x: real): real {
    if n == 0 then 1.0 else if n == 1 then x else 2.0 * Mul(x, T(n - 1, x)) - T(n - 2, x)
  }

  /** sin((n + 1) w) / sin(w) as a polynomial in x = cos(w). */
  function U(n: nat, x: real): real {
    if n == 0 then 1.0 else if n == 1 then 2.0 * x else 2.0 * Mul(x, U(n - 1, x)) - U(n - 2, x)
  }

  /** The recurrence b_i = 2 x b_(i-1) - b_(i-2) + c_i started with b_(-1) = 0. */
  function Clenshaw(c: seq<real>, x: real, i: nat): real
    requires i < |c|
  {
    if i == 0 then c[0]
    else if i == 1 then 2.0 * Mul(x, c[0]) + c[1]
    else 2.0 * Mul(x, Clenshaw(c, x, i - 1)) - Clenshaw(c, x, i - 2) + c[i]
  }

  /** c_0 T_n + c_1 T_(n-1) + ... over the first k coefficients. */
  function SumT(c: seq<real>, x: real, n: nat, k: nat): real
    requires k <= |c| && k <= n + 1
  {
    if k == 0 then 0.0 else SumT(c, x, n, k - 1) + Mul(c[k - 1], T(n - (k - 1), x))
  }

  function SumU(c: seq<real>, x: real, n: nat, k: nat): real
    requires k <= |c| && k <= n + 1
  {
    if k == 0 then 0.0 else SumU(c, x, n, k - 1) + Mul(c[k - 1], U(n - (k - 1), x))
  }

  /** T_n + f_1 T_(n-1) + ... + f_(n-1) T_1 + f_n / 2, with c_0 = 1 for the leading term. */
  function Series(c: seq<real>, x: real, n: nat): real
    requires 1 <= n < |c|
  {
    SumT(c, x, n, n) + c[n] / 2.0
  }

  // ----- algebra of products -----

  lemma Linear(x: real, a: real, b: real)
    ensures Mul(x, a + b) == Mul(x, a) + Mul(x, b)
    ensures Mul(x, a - b) == Mul(x, a) - Mul(x, b)
    ensures Mul(x, 2.0 * a - b) == 2.0 * Mul(x, a) - Mul(x, b)
    ensures Mul(x, 2.0 * a) == 2.0 * Mul(x, a)
    ensures Mul(x, 1.0) == x && Mul(x, 0.0) == 0.0 && Mul(1.0, x) == x && Mul(0.0, x) == 0.0
  {
  }

  lemma Swap(c: real, x: real, p: real)
    ensures Mul(c, Mul(x, p)) == Mul(x, Mul(c, p))
    ensures Mul(c, p) == Mul(p, c)
  {
  }

  // ----- the recurrence evaluates the series -----

  lemma {:induction false} TFromU(n: nat, x: real)
    requires n >= 1
    ensures T(n + 1, x) == Mul(x, U(n, x)) - U(n - 1, x)
  {
    hide Mul;
    if n == 1 {
      Linear(x, x, 0.0);
    } else {
      TFromU(n - 1, x);
      Linear(x, Mul(x, U(n - 1, x)), U(n - 2, x));
      if n == 2 {
        Linear(x, 1.0, 0.0);
        Linear(x, x, 0.0);
      } else {
        TFromU(n - 2, x);
      }
    }
  }

  lemma {:induction false} SumUStep(c: seq<real>, x: real, n: nat, k: nat)
    requires n >= 2 && k <= |c| && k <= n - 1
    ensures SumU(c, x, n, k) == 2.0 * Mul(x, SumU(c, x, n - 1, k)) - SumU(c, x, n - 2, k)
  {
    hide Mul;
    if k == 0 {
      Linear(x, 0.0, 0.0);
    } else {
      var j := k - 1;
      SumUStep(c, x, n, j);
      Linear(c[j], Mul(x, U(n - 1 - j, x)), U(n - 2 - j, x));
      Swap(c[j], x, U(n - 1 - j, x));
      Linear(x, SumU(c, x, n - 1, j), Mul(c[j], U(n - 1 - j, x)));
    }
  }

  lemma {:induction false} ClenshawIsSumU(c: seq<real>, x: real, i: nat)
    requires i < |c|
    ensures Clenshaw(c, x, i) == SumU(c, x, i, i + 1)
  {
    hide Mul;
    SumULast(c, x, i);
    if i >= 2 {
      ClenshawIsSumU(c, x, i - 1);
      ClenshawIsSumU(c, x, i - 2);
      SumUStep(c, x, i, i - 1);
      SumULast(c, x, i - 1);
      Linear(x, SumU(c, x, i - 1, i - 1), c[i - 1]);
      Swap(c[i - 1], x, 1.0);
      Swap(c[i - 1], 1.0, x);
    }
  }

  /** The last two terms of a full sum: U_0 = 1 and U_1 = 2 x. */
  lemma SumULast(c: seq<real>, x: real, i: nat)
    requires i < |c|
    ensures SumU(c, x, i, i + 1) == SumU(c, x, i, i) + c[i]
    ensures i >= 1 ==> SumU(c, x, i, i) == SumU(c, x, i, i - 1) + 2.0 * Mul(x, c[i - 1])
    ensures SumU(c, x, i, 0) == 0.0
  {
  }

  lemma {:induction false} SumTFromU(c: seq<real>, x: real, n: nat, k: nat)
    requires n >= 1 && k <= |c| && k <= n
    ensures SumT(c, x, n + 1, k) == Mul(x, SumU(c, x, n, k)) - SumU(c, x, n - 1, k)
  {
    hide Mul, T, U;
    if k == 0 {
      Linear(x, 0.0, 0.0);
    } else {
      var j := k - 1;
      SumTFromU(c, x, n, j);
      TFromU(n - j, x);
      Linear(c[j], Mul(x, U(n - j, x)), U(n - 1 - j, x));
      Swap(c[j], x, U(n - j, x));
      Linear(x, SumU(c, x, n, j), Mul(c[j], U(n - j, x)));
    }
  }

  /** Chebps's last step turns the recurrence into the series, for every order n >= 2. */
  lemma ClenshawEvaluates(c: seq<real>, x: real, n: nat)
    requires 2 <= n < |c|
    ensures Mul(x, Clenshaw(c, x, n - 1)) - Clenshaw(c, x, n - 2) + c[n] / 2.0 == Series(c, x, n)
  {
    hide Mul;
    ClenshawIsSumU(c, x, n - 1);
    ClenshawIsSumU(c, x, n - 2);
    SumTFromU(c, x, n - 1, n - 1);
    SumULast(c, x, n - 1);
    Linear(x, SumU(c, x, n - 1, n - 1), c[n - 1]);
    Swap(c[n - 1], 1.0, x);
  }

  // ----- bounds on [-1, 1] -----

  /** The pair (T_n, U_(n-1)) turns by a rotation. */
  lemma {:induction false} Rotation(n: nat, x: real)
    requires n >= 1
    ensures U(n, x) == Mul(x, U(n - 1, x)) + T(n, x)
    ensures T(n + 1, x) == Mul(x, T(n, x)) - Mul(1.0 - x * x, U(n - 1, x))
  {
    hide Mul;
    Linear(x, 1.0, 0.0);
    if n > 1 { TFromU(n - 1, x); }
    TFromU(n, x);
    RotationStep(x, U(n, x), U(n - 1, x), T(n, x));
  }

  lemma RotationStep(x: real, u0: real, u1: real, t: real)
    requires u0 == Mul(x, u1) + t
    ensures Mul(x, u0) - u1 == Mul(x, t) - Mul(1.0 - x * x, u1)
  {
    assert x * u0 == x * (x * u1) + x * t;
    assert (1.0 - x * x) * u1 == u1 - x * (x * u1);
  }

  /** Pell's equation, the polynomial form of cos^2 + sin^2 = 1. */
  lemma {:induction false} Pell(n: nat, x: real)
    requires n >= 1
    ensures Mul(T(n, x), T(n, x)) + Mul(1.0 - x * x, Mul(U(n - 1, x), U(n - 1, x))) == 1.0
  {
    hide T, U;
    if n == 1 {
      FirstPolynomials(x);
    } else {
      Pell(n - 1, x);
      Rotation(n - 1, x);
      RotationKeepsLength(x, 1.0 - x * x, T(n - 1, x), U(n - 2, x), T(n, x), U(n - 1, x));
    }
  }

  lemma FirstPolynomials(x: real)
    ensures T(1, x) == x && U(0, x) == 1.0
  {
  }

  lemma RotationKeepsLength(x: real, s: real, t: real, u: real, t1: real, u1: real)
    requires s == 1.0 - x * x && t1 == Mul(x, t) - Mul(s, u) && u1 == Mul(x, u) + t
    ensures Mul(t1, t1) + Mul(s, Mul(u1, u1)) == Mul(t, t) + Mul(s, Mul(u, u))
  {
    var a, b := x * t, s * u;
    var d := x * u;
    assert t1 * t1 == a * a - 2.0 * (a * b) + b * b;
    assert u1 * u1 == d * d + 2.0 * (d * t) + t * t;
    assert s * (u1 * u1) == s * (d * d) + 2.0 * (s * (d * t)) + s * (t * t);
    assert a * b == s * (d * t) by { Crossed(x, s, t, u); }
    assert b * b + s * (d * d) == s * (u * u) by { Squares(x, s, u); }
    assert a * a + s * (t * t) == t * t by { SquaresT(x, s, t); }
  }

  lemma Crossed(x: real, s: real, t: real, u: real)
    ensures (x * t) * (s * u) == s * ((x * u) * t)
  {
  }

  lemma Squares(x: real, s: real, u: real)
    requires s == 1.0 - x * x
    ensures (s * u) * (s * u) + s * ((x * u) * (x * u)) == s * (u * u)
  {
    var q := u * u;
    assert (s * u) * (s * u) == s * (s * q);
    assert s * ((x * u) * (x * u)) == s * ((x * x) * q);
    assert s * q + (x * x) * q == q;
    assert s * (s * q + (x * x) * q) == s * (s * q) + s * ((x * x) * q);
  }

  lemma SquaresT(x: real, s: real, t: real)
    requires s == 1.0 - x * x
    ensures (x * t) * (x * t) + s * (t * t) == t * t
  {
    assert (x * t) * (x * t) == (x * x) * (t * t);
  }

  /** |T_n| <= 1 on [-1, 1]. */
  lemma TBounded(n: nat, x: real)
    requires -1.0 <= x <= 1.0
    ensures -1.0 <= T(n, x) <= 1.0
  {
    if n > 0 {
      Pell(n, x);
      UnitSquare(T(n, x), U(n - 1, x), x);
    }
  }

  lemma UnitSquare(t: real, u: real, x: real)
    requires -1.0 <= x <= 1.0 && Mul(t, t) + Mul(1.0 - x * x, Mul(u, u)) == 1.0
    ensures -1.0 <= t <= 1.0
  {
    Shrinks(1.0 - x, 1.0 + x);
    assert u * u >= 0.0;
    Shrinks(1.0 - x * x, u * u);
    assert Mul(t, t) <= 1.0;
    OutsideUnit(t);
  }

  lemma OutsideUnit(t: real)
    ensures t > 1.0 || t < -1.0 ==> Mul(t, t) > 1.0
  {
    if t > 1.0 { assert t * t > t; }
    if t < -1.0 { assert (-t) * (-t) > -t; }
  }

  lemma Shrinks(s: real, q: real)
    requires s >= 0.0 && q >= 0.0
    ensures s * q >= 0.0
  {
  }

  /** |U_n| <= n + 1 on [-1, 1]. */
  lemma {:induction false} UBounded(n: nat, x: real)
    requires -1.0 <= x <= 1.0
    ensures -(n as real + 1.0) <= U(n, x) <= n as real + 1.0
  {
    hide Mul, T;
    if n > 0 {
      UBounded(n - 1, x);
      Rotation(n, x);
      TBounded(n, x);
      Contracts(x, U(n - 1, x), n as real);
    }
  }

  lemma Contracts(x: real, u: real, m: real)
    requires -1.0 <= x <= 1.0 && -m <= u <= m
    ensures -m <= Mul(x, u) <= m
  {
    if u >= 0.0 { Shrinks(1.0 - x, u); Shrinks(1.0 + x, u); }
    else { Shrinks(1.0 - x, -u); Shrinks(1.0 + x, -u); }
  }

  /** The coefficients behind the leading one are at most m in magnitude. */
  ghost predicate Within(c: seq<real>, m: real) {
    m >= 0.0 && |c| > 0 && c[0] == 1.0 && forall j :: 1 <= j < |c| ==> -m <= c[j] <= m
  }

  /** |b_i| <= (i + 1) + m * (i + ... + 1). */
  function SumUBoundOf(m: real, n: nat, k: nat): real
    requires k <= n + 1
  {
    if k == 0 then 0.0
    else SumUBoundOf(m, n, k - 1) + Mul(if k == 1 then 1.0 else m, (n - (k - 1)) as real + 1.0)
  }

  lemma {:induction false} SumUBounded(c: seq<real>, x: real, n: nat, k: nat, m: real)
    requires -1.0 <= x <= 1.0 && Within(c, m) && k <= |c| && k <= n + 1
    ensures -SumUBoundOf(m, n, k) <= SumU(c, x, n, k) <= SumUBoundOf(m, n, k)
  {
    hide Mul, U;
    if k > 0 {
      SumUBounded(c, x, n, k - 1, m);
      var j := k - 1;
      UBounded(n - j, x);
      ProductBound(c[j], U(n - j, x), if k == 1 then 1.0 else m, (n - j) as real + 1.0);
    }
  }

  lemma ProductBound(a: real, b: real, m: real, n: real)
    requires -m <= a <= m && -n <= b <= n
    ensures -Mul(m, n) <= Mul(a, b) <= Mul(m, n)
  {
    Shrinks(m - a, n + b);
    Shrinks(m + a, n - b);
    Shrinks(m - a, n - b);
    Shrinks(m + a, n + b);
  }

  /** |c_0 T_n + ... | <= 1 + (k - 1) m. */
  lemma {:induction false} SumTBounded(c: seq<real>, x: real, n: nat, k: nat, m: real)
    requires -1.0 <= x <= 1.0 && Within(c, m) && 1 <= k <= |c| && k <= n + 1
    ensures -(1.0 + m * (k - 1) as real) <= SumT(c, x, n, k) <= 1.0 + m * (k - 1) as real
  {
    hide Mul, T;
    var j := k - 1;
    TBounded(n - j, x);
    if k == 1 {
      assert SumT(c, x, n, 0) == 0.0;
      Linear(T(n, x), 0.0, 0.0);
    } else {
      SumTBounded(c, x, n, j, m);
      ProductBound(c[j], T(n - j, x), m, 1.0);
      Linear(m, 0.0, 0.0);
    }
  }

  /** Series of two coefficient lists that differ by at most e per term. */
  lemma {:induction false} SumTDiffers(c: seq<real>, d: seq<real>, x: real, n: nat, k: nat, e: seq<real>)
    requires -1.0 <= x <= 1.0 && |c| == |d| == |e| && k <= |c| && k <= n + 1
    requires forall j :: 0 <= j < |c| ==> -e[j] <= c[j] - d[j] <= e[j]
    ensures -Total(e, k) <= SumT(c, x, n, k) - SumT(d, x, n, k) <= Total(e, k)
  {
    hide Mul, T;
    if k > 0 {
      SumTDiffers(c, d, x, n, k - 1, e);
      var j := k - 1;
      TBounded(n - j, x);
      ProductBound(c[j] - d[j], T(n - j, x), e[j], 1.0);
      Linear(T(n - j, x), c[j], d[j]);
      Swap(T(n - j, x), 0.0, c[j]);
      Swap(T(n - j, x), 0.0, d[j]);
      Swap(T(n - j, x), 0.0, c[j] - d[j]);
      Linear(e[j], 0.0, 0.0);
    }
  }

  function Total(e: seq<real>, k: nat): real
    requires k <= |e|
  {
    if k == 0 then 0.0 else Total(e, k - 1) + e[k - 1]
  }
}
