/** The Mersenne number 2^31 - 1 is prime: a residue of order 151 * 331 exists modulo every
    divisor, so no divisor is small. */
module Mersenne {
  import opened FixedPoint

  const N: nat := 0x7fff_ffff

  /** The residue whose order is used: 3 to the power (N - 1) / (151 * 331). */
  const BASE: nat := 1415456845

  predicate Prime(p: nat) { p > 1 && forall d :: 1 < d < p ==> p % d != 0 }

  // ----- divisibility -----

  predicate Divides(d: nat, n: int)
    requires d > 0
  {
    n % d == 0
  }

  lemma DividesMultiple(d: nat, k: int)
    requires d > 0
    ensures Divides(d, k * d)
  {
    MulMod(k, d);
  }

  lemma DividesIff(d: nat, n: int) returns (k: int)
    requires d > 0 && Divides(d, n)
    ensures n == k * d
  {
    k := n / d;
  }

  lemma DividesSum(d: nat, m: int, n: int, k: int)
    requires d > 0 && Divides(d, m) && Divides(d, n)
    ensures Divides(d, m - k * n)
  {
    var a := DividesIff(d, m);
    var b := DividesIff(d, n);
    assert k * n == (k * b) * d by { assert n == b * d; }
    assert m - k * n == (a - k * b) * d;
    DividesMultiple(d, a - k * b);
  }

  /** A prime that divides a product divides one of the factors. */
  lemma {:induction false} EuclidLemma(p: nat, a: nat, b: nat)
    requires Prime(p) && Divides(p, a * b)
    ensures Divides(p, a) || Divides(p, b)
    decreases a
  {
    hide Divides;
    if a >= p {
      Reduced(p, a, b);
      EuclidLemma(p, a - p, b);
      if Divides(p, a - p) { Restored(p, a); }
    } else if a == 0 {
      DividesMultiple(p, 0);
    } else if a == 1 {
      assert a * b == b;
    } else {
      var m := p % a;
      assert m != 0;
      Remainder(p, a, b);
      EuclidLemma(p, m, b);
      TooSmall(p, m);
    }
  }

  lemma Reduced(p: nat, a: nat, b: nat)
    requires p > 0 && a >= p && Divides(p, a * b)
    ensures Divides(p, (a - p) * b)
  {
    hide Divides;
    DividesMultiple(p, b);
    DividesSum(p, a * b, b * p, 1);
    assert (a - p) * b == a * b - 1 * (b * p);
  }

  lemma Restored(p: nat, a: nat)
    requires p > 0 && a >= p && Divides(p, a - p)
    ensures Divides(p, a)
  {
    hide Divides;
    DividesMultiple(p, 1);
    DividesSum(p, a - p, 1 * p, -1);
  }

  lemma Remainder(p: nat, a: nat, b: nat)
    requires p > 0 && 0 < a && Divides(p, a * b)
    ensures Divides(p, (p % a) * b)
  {
    hide Divides;
    var k := p / a;
    assert p % a == p - k * a;
    DividesMultiple(p, b);
    DividesSum(p, b * p, a * b, k);
    assert (p - k * a) * b == b * p - k * (a * b);
  }

  lemma TooSmall(p: nat, m: nat)
    requires 0 < m < p
    ensures !Divides(p, m)
  {
  }

  // ----- powers modulo q -----

  function Power(b: nat, e: nat, q: nat): (r: nat)
    requires q > 1
    ensures r < q
  {
    if e == 0 then 1 else b * Power(b, e - 1, q) % q
  }

  lemma ModProduct(a: int, b: int, q: nat)
    requires q > 0
    ensures a * (b % q) % q == a * b % q
  {
    var k := b / q;
    assert b == k * q + b % q;
    assert a * b == a * (b % q) + (a * k) * q;
    SameRemainder(a * (b % q), a * k, q);
  }

  lemma SameRemainder(x: int, k: int, q: nat)
    requires q > 0
    ensures (x + k * q) % q == x % q
  {
    var d := x / q;
    assert x == d * q + x % q;
    assert x + k * q == (d + k) * q + x % q;
    EuclidUnique(x + k * q, q, d + k, x % q);
  }

  lemma {:induction false} PowerAdds(b: nat, m: nat, n: nat, q: nat)
    requires q > 1
    ensures Power(b, m + n, q) == Power(b, m, q) * Power(b, n, q) % q
    decreases m
  {
    hide Power;
    var y := Power(b, n, q);
    if m == 0 {
      EuclidUnique(y, q, 0, y);
      assert 1 * y == y;
      NoFactors(b, q);
    } else {
      PowerAdds(b, m - 1, n, q);
      OneMoreFactor(b, m - 1, q);
      OneMoreFactor(b, m + n - 1, q);
      Regrouped(b, Power(b, m - 1, q), y, q);
    }
  }

  lemma NoFactors(b: nat, q: nat)
    requires q > 1
    ensures Power(b, 0, q) == 1
  {
  }

  lemma OneMoreFactor(b: nat, e: nat, q: nat)
    requires q > 1
    ensures Power(b, e + 1, q) == b * Power(b, e, q) % q
  {
  }

  lemma Regrouped(b: nat, x: nat, y: nat, q: nat)
    requires q > 1
    ensures b * (x * y % q) % q == (b * x % q) * y % q
  {
    ModProduct(b, x * y, q);
    ModProduct(y, b * x, q);
    assert b * (x * y) == y * (b * x);
    assert y * (b * x % q) == (b * x % q) * y;
  }

  /** Powers modulo a divisor of n are the powers modulo n, reduced. */
  lemma {:induction false} PowerReduced(b: nat, e: nat, n: nat, q: nat)
    requires n > 1 && q > 1 && Divides(q, n)
    ensures Power(b, e, q) == Power(b, e, n) % q
    decreases e
  {
    hide Power;
    if e == 0 {
      EuclidUnique(1, q, 0, 1);
      NoFactors(b, q);
      NoFactors(b, n);
    } else {
      PowerReduced(b, e - 1, n, q);
      OneMoreFactor(b, e - 1, n);
      OneMoreFactor(b, e - 1, q);
      ReducedTwice(b, Power(b, e - 1, n), n, q);
    }
  }

  lemma ReducedTwice(b: nat, x: nat, n: nat, q: nat)
    requires n > 1 && q > 1 && Divides(q, n)
    ensures b * (x % q) % q == b * x % n % q
  {
    ModProduct(b, x, q);
    var y := b * x;
    var k := DividesIff(q, n);
    var d := y / n;
    assert y == d * n + y % n;
    assert d * n == (d * k) * q;
    SameRemainder(y % n, d * k, q);
  }

  /** Exponents with power one are closed under subtraction. */
  lemma UnitsSubtract(b: nat, m: nat, n: nat, q: nat)
    requires q > 1 && Power(b, m, q) == 1 && Power(b, m + n, q) == 1
    ensures Power(b, n, q) == 1
  {
    PowerAdds(b, m, n, q);
    var y := Power(b, n, q);
    EuclidUnique(y, q, 0, y);
    assert 1 * y == y;
  }

  lemma {:induction false} UnitsMultiply(b: nat, g: nat, k: nat, q: nat)
    requires q > 1 && Power(b, g, q) == 1
    ensures Power(b, k * g, q) == 1
    decreases k
  {
    if k == 0 {
      assert 0 * g == 0;
    } else {
      UnitsMultiply(b, g, k - 1, q);
      assert k * g == (k - 1) * g + g;
      PowerAdds(b, (k - 1) * g, g, q);
      EuclidUnique(1, q, 0, 1);
      assert 1 * 1 == 1;
    }
  }

  lemma LeastUnit(b: nat, e: nat, q: nat) returns (g: nat)
    requires q > 1 && e > 0 && Power(b, e, q) == 1
    ensures 0 < g <= e && Power(b, g, q) == 1
    ensures forall i :: 0 < i < g ==> Power(b, i, q) != 1
  {
    g := 1;
    while Power(b, g, q) != 1
      invariant 0 < g <= e
      invariant forall i :: 0 < i < g ==> Power(b, i, q) != 1
      decreases e - g
    {
      g := g + 1;
    }
  }

  /** The least positive exponent with power one divides all others. */
  lemma LeastDivides(b: nat, g: nat, n: nat, q: nat)
    requires q > 1 && 0 < g && Power(b, g, q) == 1 && Power(b, n, q) == 1
    requires forall i :: 0 < i < g ==> Power(b, i, q) != 1
    ensures Divides(g, n)
  {
    var k := n / g;
    var r := n % g;
    assert n == k * g + r;
    MulMono(0, k, g);
    UnitsMultiply(b, g, k, q);
    UnitsSubtract(b, k * g, r, q);
  }

  // ----- the pigeonhole principle -----

  /** Among more than m numbers below m two are equal. */
  lemma {:induction false} Pigeonhole(f: seq<nat>, m: nat) returns (i: nat, j: nat)
    requires |f| > m >= 1 && forall k :: 0 <= k < |f| ==> f[k] < m
    ensures i < j < |f| && f[i] == f[j]
    decreases m
  {
    if m == 1 {
      i, j := 0, 1;
    } else if k :| 0 <= k < |f| && f[k] == m - 1 {
      if l :| 0 <= l < |f| && l != k && f[l] == m - 1 {
        i, j := if k < l then k else l, if k < l then l else k;
      } else {
        i, j := Pigeonhole(f[..k] + f[k + 1..], m - 1);
        i, j := if i < k then i else i + 1, if j < k then j else j + 1;
      }
    } else {
      i, j := Pigeonhole(f, m - 1);
    }
  }

  // ----- the order of the residue -----

  const R: nat := 151
  const S: nat := 331

  lemma SmallPrimes()
    ensures Prime(R) && Prime(S)
  {
    forall d | 1 < d < R ensures R % d != 0 { NoFactor(R, d); }
    forall d | 1 < d < S ensures S % d != 0 { NoFactor(S, d); }
  }

  /** A factor or its cofactor is at most 18. */
  lemma NoFactor(p: nat, d: nat)
    requires (p == R || p == S) && 1 < d < p
    ensures p % d != 0
  {
    if d <= 18 {
      SmallFactor(p, d);
    } else if p % d == 0 {
      var c := p / d;
      assert p == c * d;
      CofactorBounds(p, c, d);
      MulMod(d, c);
      SmallFactor(p, c);
      assert false;
    }
  }

  lemma CofactorBounds(p: nat, c: nat, d: nat)
    requires p <= 331 && p == c * d && 18 < d < p
    ensures 1 < c <= 18 && p == d * c
  {
    if c <= 1 { MulMono(c, 1, d); }
    if c > 18 { MulMono(18, c, d); }
  }

  lemma SmallFactor(p: nat, d: nat)
    requires (p == R || p == S) && 1 < d <= 18
    ensures p % d != 0
  {
    assert d == 2 || d == 3 || d == 4 || d == 5 || d == 6 || d == 7 || d == 8 || d == 9 || d == 10
        || d == 11 || d == 12 || d == 13 || d == 14 || d == 15 || d == 16 || d == 17 || d == 18;
  }

  // ----- certificates -----

  /** One multiplication modulo N. */
  lemma Combine(m: nat, n: nat, u: nat, v: nat, w: nat)
    requires Power(BASE, m, N) == u && Power(BASE, n, N) == v && u * v % N == w
    ensures Power(BASE, m + n, N) == w
  {
    PowerAdds(BASE, m, n, N);
  }

  lemma FirstPower()
    ensures Power(BASE, 1, N) == BASE
  {
    assert Power(BASE, 0, N) == 1;
  }

  lemma Power151()
    ensures Power(BASE, R, N) == 272122089
  {
    hide Power;
    FirstPower();
    Combine(1, 1, 1415456845, 1415456845, 1585447249);
    Combine(2, 2, 1585447249, 1585447249, 314981779);
    Combine(4, 4, 314981779, 314981779, 2096387776);
    Combine(8, 1, 2096387776, 1415456845, 1877498741);
    Combine(9, 9, 1877498741, 1877498741, 1016268772);
    Combine(18, 18, 1016268772, 1016268772, 213959514);
    Combine(36, 1, 213959514, 1415456845, 1073001432);
    Combine(37, 37, 1073001432, 1073001432, 1108114199);
    Combine(74, 1, 1108114199, 1415456845, 989291688);
    Combine(75, 75, 989291688, 989291688, 518897567);
    Combine(150, 1, 518897567, 1415456845, 272122089);
  }

  lemma Power331()
    ensures Power(BASE, S, N) == 556613938
  {
    hide Power;
    FirstPower();
    Combine(1, 1, 1415456845, 1415456845, 1585447249);
    Combine(2, 2, 1585447249, 1585447249, 314981779);
    Combine(4, 1, 314981779, 1415456845, 60384542);
    Combine(5, 5, 60384542, 60384542, 971413525);
    Combine(10, 10, 971413525, 971413525, 340127895);
    Combine(20, 20, 340127895, 340127895, 783776375);
    Combine(40, 1, 783776375, 1415456845, 1523528604);
    Combine(41, 41, 1523528604, 1523528604, 1897674508);
    Combine(82, 82, 1897674508, 1897674508, 308936698);
    Combine(164, 1, 308936698, 1415456845, 735062482);
    Combine(165, 165, 735062482, 735062482, 387194597);
    Combine(330, 1, 387194597, 1415456845, 556613938);
  }

  lemma PowerBoth()
    ensures Power(BASE, R * S, N) == 1
  {
    hide Power;
    Power331();
    Combine(331, 331, 556613938, 556613938, 1757926241);
    Combine(662, 662, 1757926241, 1757926241, 1964833331);
    Combine(1324, 1324, 1964833331, 1964833331, 953591326);
    Combine(2648, 331, 953591326, 556613938, 974880537);
    Combine(2979, 2979, 974880537, 974880537, 2093007239);
    Combine(5958, 5958, 2093007239, 2093007239, 509832813);
    Combine(11916, 331, 509832813, 556613938, 746495793);
    Combine(12247, 12247, 746495793, 746495793, 2125558292);
    Combine(24494, 331, 2125558292, 556613938, 251258427);
    Combine(24825, 24825, 251258427, 251258427, 596943833);
    Combine(49650, 331, 596943833, 556613938, 1);
  }

  /** Neither power is 1 modulo any divisor of N: each is 1 plus a unit. */
  lemma NotOne(q: nat)
    requires q > 1 && Divides(q, N)
    ensures Power(BASE, R, q) != 1 && Power(BASE, S, q) != 1
  {
    hide Power, Divides;
    Power151();
    Power331();
    PowerReduced(BASE, R, N, q);
    PowerReduced(BASE, S, N, q);
    UnitPlusOne(272122089, 411595504, 52156033, q);
    UnitPlusOne(556613938, 2069584139, 536422886, q);
  }

  lemma UnitPlusOne(v: nat, u: int, w: int, q: nat)
    requires q > 1 && Divides(q, N) && v > 0 && u * (v - 1) == 1 + w * N
    ensures v % q != 1
  {
    hide Divides;
    if v % q == 1 {
      var k := v / q;
      assert v == k * q + 1;
      DividesMultiple(q, k);
      DividesSum(q, 0, v - 1, -u) by { DividesMultiple(q, 0); }
      assert 0 - (-u) * (v - 1) == u * (v - 1);
      DividesSum(q, u * (v - 1), N, w);
      TooSmall(q, 1);
      assert false;
    }
  }

  // ----- no small divisor -----

  /** No exponent below 151 * 331 gives one. */
  lemma OrderIsLarge(e: nat, q: nat)
    requires q > 1 && Divides(q, N) && 0 < e < R * S
    ensures Power(BASE, e, q) != 1
  {
    hide Power, Divides;
    if Power(BASE, e, q) == 1 {
      BothIsOne(q);
      var g := LeastUnit(BASE, e, q);
      LeastDivides(BASE, g, R * S, q);
      var c := DividesIff(g, R * S);
      OneOfTwo(g, c);
      NotOne(q);
      if Divides(g, R) {
        var k := DividesIff(g, R);
        UnitsMultiplyAny(g, k, R, q);
      } else {
        var k := DividesIff(g, S);
        UnitsMultiplyAny(g, k, S, q);
      }
      assert false;
    }
  }

  lemma UnitsMultiplyAny(g: nat, k: int, n: nat, q: nat)
    requires q > 1 && g > 0 && n == k * g && Power(BASE, g, q) == 1
    ensures Power(BASE, n, q) == 1
  {
    if k < 0 { MulMono(k, -1, g); }
    UnitsMultiply(BASE, g, k, q);
  }

  lemma BothIsOne(q: nat)
    requires q > 1 && Divides(q, N)
    ensures Power(BASE, R * S, q) == 1
  {
    hide Power, Divides;
    PowerBoth();
    PowerReduced(BASE, R * S, N, q);
    EuclidUnique(1, q, 0, 1);
  }

  /** A proper divisor of the product of two primes divides one of them. */
  lemma OneOfTwo(g: nat, c: int)
    requires 0 < g < R * S && c * g == R * S
    ensures Divides(g, R) || Divides(g, S)
  {
    hide Divides;
    SmallPrimes();
    if c <= 1 { MulMono(c, 1, g); }
    DividesMultiple(R, S);
    assert c * g == S * R;
    EuclidLemma(R, c, g);
    if Divides(R, c) {
      var d := DividesIff(R, c);
      assert R * (d * g) == R * S by { assert c * g == (d * R) * g; }
      DividesMultiple(g, d);
    } else {
      var h := DividesIff(R, g);
      assert R * (c * h) == R * S by { assert c * g == c * (h * R); }
      CofactorOfPrime(c, h);
      DividesMultiple(R, 1);
    }
  }

  lemma CofactorOfPrime(c: nat, h: int)
    requires c > 1 && c * h == S
    ensures h == 1
  {
    assert S == h * c;
    MulMod(h, c);
    if c < S {
      NoFactor(S, c);
      assert false;
    }
    if c > S {
      if h >= 1 { MulMono(1, h, c); } else { MulMono(h, 0, c); }
      assert false;
    }
  }

  /** Powers never vanish modulo a divisor, so q - 1 values are all there is room for. */
  lemma DivisorIsLarge(q: nat)
    requires q > 1 && Divides(q, N)
    ensures q > R * S
  {
    hide Power, Divides;
    if q <= R * S {
      forall i | 0 <= i < q
        ensures 1 <= Power(BASE, i, q) < q
      {
        NeverZero(i, q);
      }
      var f := seq(q, (i: int) requires 0 <= i < q => (Power(BASE, i, q) - 1) as nat);
      var i, j := Pigeonhole(f, q - 1);
      assert f[i] == Power(BASE, i, q) - 1 && f[j] == Power(BASE, j, q) - 1;
      Repeated(i, j, q);
      OrderIsLarge(j - i, q);
      assert false;
    }
  }

  lemma NeverZero(i: nat, q: nat)
    requires q > 1 && Divides(q, N) && i < R * S
    ensures 1 <= Power(BASE, i, q)
  {
    hide Power, Divides;
    BothIsOne(q);
    PowerAdds(BASE, i, R * S - i, q);
    if Power(BASE, i, q) == 0 {
      assert 0 * Power(BASE, R * S - i, q) == 0;
      EuclidUnique(0, q, 0, 0);
      assert false;
    }
  }

  /** Equal powers: the difference of the exponents has power one. */
  lemma Repeated(i: nat, j: nat, q: nat)
    requires q > 1 && Divides(q, N) && i < j < R * S && Power(BASE, i, q) == Power(BASE, j, q)
    ensures Power(BASE, j - i, q) == 1
  {
    hide Power, Divides;
    BothIsOne(q);
    var rest := R * S - i;
    PowerAdds(BASE, i, rest, q);
    PowerAdds(BASE, j, rest, q);
    assert j + rest == R * S + (j - i);
    UnitsSubtract(BASE, R * S, j - i, q);
  }

  lemma MersennePrime()
    ensures Prime(N)
  {
    forall d | 1 < d < N
      ensures N % d != 0
    {
      NoDivisor(d);
    }
  }

  lemma NoDivisor(d: nat)
    requires 1 < d < N
    ensures N % d != 0
  {
    hide Divides;
    if N % d == 0 {
      var c := N / d;
      assert N == c * d;
      if c <= 1 { MulMono(c, 1, d); }
      assert N == d * c;
      DividesMultiple(d, c);
      DividesMultiple(c, d);
      DivisorIsLarge(d);
      DivisorIsLarge(c);
      MulMono(R * S, c, d);
      MulMono(R * S, d, R * S);
      assert false;
    }
  }
}
