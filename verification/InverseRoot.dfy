/** Inv_sqrt: a table of 49 entries, linear interpolation and a final shift. */
module InverseRoot {
  import opened FixedPoint
  import opened Kernel

  function RootRow(i: nat): seq<Word16> {
    if i == 0 then [32767, 31790, 30894, 30070, 29309, 28602, 27945, 27330, 26755, 26214]
    else if i == 1 then [25705, 25225, 24770, 24339, 23930, 23541, 23170, 22817, 22479, 22155]
    else if i == 2 then [21845, 21548, 21263, 20988, 20724, 20470, 20225, 19988, 19760, 19539]
    else if i == 3 then [19326, 19119, 18919, 18725, 18536, 18354, 18176, 18004, 17837, 17674]
    else [17515, 17361, 17211, 17064, 16921, 16782, 16646, 16514, 16384, 16384]
  }

  /** table[i] of inv_sqrt.tab. */
  function Root(i: nat): Word16
    requires i <= 48
  {
    RootRow(i / 10)[i % 10]
  }

  lemma RowDecreases(k: nat, j: nat)
    requires k <= 4 && j <= 9
    ensures RootRow(k)[j] >= 16384
    ensures j < (if k < 4 then 9 else 8) ==> RootRow(k)[j + 1] < RootRow(k)[j]
  {
  }

  lemma RowBoundaries(k: nat)
    requires k < 4
    ensures RootRow(k + 1)[0] < RootRow(k)[9]
  {
  }

  /** The table is strictly decreasing and stays in its top octave. */
  lemma RootDecreases(i: nat)
    requires i <= 48
    ensures Root(i) >= 16384
    ensures i < 48 ==> Root(i + 1) < Root(i)
  {
    hide RootRow;
    var k, j := i / 10, i % 10;
    RowDecreases(k, j);
    if j < 9 {
      assert (i + 1) / 10 == k && (i + 1) % 10 == j + 1;
    } else {
      RowBoundaries(k);
      assert (i + 1) / 10 == k + 1 && (i + 1) % 10 == 0;
    }
  }

  /** The argument brought to [2^29, 2^31), with an odd binary exponent. */
  function RootArgument(x: Word32): Word32
    requires x > 0
  {
    var m := LShl(x, NormL(x));
    if (30 - NormL(x)) % 2 == 0 then LShr(m, 1) else m
  }

  lemma RootArgumentRange(x: Word32)
    requires x > 0
    ensures 0x2000_0000 <= RootArgument(x) && NormL(x) <= 30
    ensures (30 - NormL(x)) % 2 == 0 ==> RootArgument(x) < 0x4000_0000
  {
    NormalizeExact(x);
    MulSign(x, Pow2(NormL(x)));
    assert Pow2(1) == 2 by { assert Pow2(0) == 1; }
    Pow2Values();
    MulMono(1, x, Pow2(NormL(x)));
  }

  /** Linear interpolation in the table: bits 25 to 31 choose the entry, the next 15 the
      place between it and its successor. */
  function Interpolated(m: Word32): Word32
    requires m >= 0x2000_0000
  {
    var i := (m as int) / 0x200_0000 - 16;
    var a := (m as int) / 0x400 % 0x8000;
    LMsu(LDepositH(Root(i)), Sub(Root(i), Root(i + 1)), a)
  }

  /** Inv_sqrt, including its answer for zero and negative arguments. */
  function InvSqrt(x: Word32): Word32 {
    if x <= 0 then 0x3fff_ffff
    else
      RootArgumentRange(x);
      LShr(Interpolated(RootArgument(x)), (30 - NormL(x)) / 2 + 1)
  }

  lemma InterpolatedRange(m: Word32)
    requires m >= 0x2000_0000
    ensures 0x4000_0000 <= Interpolated(m) <= 0x7fff_0000
  {
    hide Root, LMsu, Sub;
    var i := (m as int) / 0x200_0000 - 16;
    RootDecreases(i);
    RootDecreases(i + 1);
    BetweenEntries(Root(i), Root(i + 1), (m as int) / 0x400 % 0x8000);
  }

  lemma BetweenEntries(t: Word16, u: Word16, a: Word16)
    requires 16384 <= u < t && 0 <= a
    ensures 0x4000_0000 <= LMsu(LDepositH(t), Sub(t, u), a) <= 0x7fff_0000
  {
    var d := (t as int) - u;
    MulMono(a, 0x8000, d);
    MulMono(0, a, d);
    assert LMult(d, a) == 2 * (d * a);
  }

  /** The 32-bit result is positive and leaves a sign bit to spare. */
  lemma InvSqrtRange(x: Word32)
    ensures 0 <= InvSqrt(x) <= 0x3fff_ffff
  {
    hide Interpolated, RootArgument;
    if x > 0 {
      RootArgumentRange(x);
      var y := Interpolated(RootArgument(x));
      var n := (30 - NormL(x)) / 2 + 1;
      InterpolatedRange(RootArgument(x));
      AsrBounds(y, n);
      assert Pow2(n) == 2 * Pow2(n - 1);
      HalfBound(y, Pow2(n - 1));
    }
  }

  lemma HalfBound(y: int, p: int)
    requires 0 <= y <= MAX_32 && p >= 1
    ensures y / (2 * p) <= 0x3fff_ffff
  {
    var q := y / (2 * p);
    assert y == q * (2 * p) + y % (2 * p);
    if q > 0x3fff_ffff { MulMono(0x4000_0000, q, 2 * p); MulMono(1, p, 0x8000_0000); }
  }

  // ----- how close it comes to 1 / sqrt(x) -----

  const LOW: int := 0x3_fff0_0000
  const HIGH: int := 17_229_069_184

  /** What a table entry t, its successor u and its number n have to satisfy: the straight
      line between them stays near the curve, squared and multiplied by the argument. */
  predicate Close(t: int, u: int, n: int) {
    var d := t - u;
    && 0 < d <= t && 2 * d * n <= t
    && LOW <= t * t * n
    && LOW <= t * t * n + t * (t - 2 * d * n) - d * (2 * t - d * n)
    && t * t * n + t * (t - 2 * d * n) + d * d <= HIGH
  }

  lemma Close0To4(i: nat)
    requires 0 <= i <= 4
    ensures Close(Root(i), Root(i + 1), i + 16)
  {
    if i == 0 {
      assert Close(32767, 31790, 16);
    } else if i == 1 {
      assert Close(31790, 30894, 17);
    } else if i == 2 {
      assert Close(30894, 30070, 18);
    } else if i == 3 {
      assert Close(30070, 29309, 19);
    } else {
      assert Close(29309, 28602, 20);
    }
  }

  lemma Close5To9(i: nat)
    requires 5 <= i <= 9
    ensures Close(Root(i), Root(i + 1), i + 16)
  {
    if i == 5 {
      assert Close(28602, 27945, 21);
    } else if i == 6 {
      assert Close(27945, 27330, 22);
    } else if i == 7 {
      assert Close(27330, 26755, 23);
    } else if i == 8 {
      assert Close(26755, 26214, 24);
    } else {
      assert Close(26214, 25705, 25);
    }
  }

  lemma Close10To14(i: nat)
    requires 10 <= i <= 14
    ensures Close(Root(i), Root(i + 1), i + 16)
  {
    if i == 10 {
      assert Close(25705, 25225, 26);
    } else if i == 11 {
      assert Close(25225, 24770, 27);
    } else if i == 12 {
      assert Close(24770, 24339, 28);
    } else if i == 13 {
      assert Close(24339, 23930, 29);
    } else {
      assert Close(23930, 23541, 30);
    }
  }

  lemma Close15To19(i: nat)
    requires 15 <= i <= 19
    ensures Close(Root(i), Root(i + 1), i + 16)
  {
    if i == 15 {
      assert Close(23541, 23170, 31);
    } else if i == 16 {
      assert Close(23170, 22817, 32);
    } else if i == 17 {
      assert Close(22817, 22479, 33);
    } else if i == 18 {
      assert Close(22479, 22155, 34);
    } else {
      assert Close(22155, 21845, 35);
    }
  }

  lemma Close20To24(i: nat)
    requires 20 <= i <= 24
    ensures Close(Root(i), Root(i + 1), i + 16)
  {
    if i == 20 {
      assert Close(21845, 21548, 36);
    } else if i == 21 {
      assert Close(21548, 21263, 37);
    } else if i == 22 {
      assert Close(21263, 20988, 38);
    } else if i == 23 {
      assert Close(20988, 20724, 39);
    } else {
      assert Close(20724, 20470, 40);
    }
  }

  lemma Close25To29(i: nat)
    requires 25 <= i <= 29
    ensures Close(Root(i), Root(i + 1), i + 16)
  {
    if i == 25 {
      assert Close(20470, 20225, 41);
    } else if i == 26 {
      assert Close(20225, 19988, 42);
    } else if i == 27 {
      assert Close(19988, 19760, 43);
    } else if i == 28 {
      assert Close(19760, 19539, 44);
    } else {
      assert Close(19539, 19326, 45);
    }
  }

  lemma Close30To34(i: nat)
    requires 30 <= i <= 34
    ensures Close(Root(i), Root(i + 1), i + 16)
  {
    if i == 30 {
      assert Close(19326, 19119, 46);
    } else if i == 31 {
      assert Close(19119, 18919, 47);
    } else if i == 32 {
      assert Close(18919, 18725, 48);
    } else if i == 33 {
      assert Close(18725, 18536, 49);
    } else {
      assert Close(18536, 18354, 50);
    }
  }

  lemma Close35To39(i: nat)
    requires 35 <= i <= 39
    ensures Close(Root(i), Root(i + 1), i + 16)
  {
    if i == 35 {
      assert Close(18354, 18176, 51);
    } else if i == 36 {
      assert Close(18176, 18004, 52);
    } else if i == 37 {
      assert Close(18004, 17837, 53);
    } else if i == 38 {
      assert Close(17837, 17674, 54);
    } else {
      assert Close(17674, 17515, 55);
    }
  }

  lemma Close40To44(i: nat)
    requires 40 <= i <= 44
    ensures Close(Root(i), Root(i + 1), i + 16)
  {
    if i == 40 {
      assert Close(17515, 17361, 56);
    } else if i == 41 {
      assert Close(17361, 17211, 57);
    } else if i == 42 {
      assert Close(17211, 17064, 58);
    } else if i == 43 {
      assert Close(17064, 16921, 59);
    } else {
      assert Close(16921, 16782, 60);
    }
  }

  lemma Close45To47(i: nat)
    requires 45 <= i <= 47
    ensures Close(Root(i), Root(i + 1), i + 16)
  {
    if i == 45 {
      assert Close(16782, 16646, 61);
    } else if i == 46 {
      assert Close(16646, 16514, 62);
    } else {
      assert Close(16514, 16384, 63);
    }
  }

  lemma AllClose(i: nat)
    requires i < 48
    ensures Close(Root(i), Root(i + 1), i + 16)
  {
    hide Close, Root;
    if i < 5 { Close0To4(i); } else if i < 10 { Close5To9(i); }
    else if i < 15 { Close10To14(i); } else if i < 20 { Close15To19(i); }
    else if i < 25 { Close20To24(i); } else if i < 30 { Close25To29(i); }
    else if i < 35 { Close30To34(i); } else if i < 40 { Close35To39(i); }
    else if i < 45 { Close40To44(i); } else { Close45To47(i); }
  }

  function Times(a: int, b: int): int { a * b }

  function Squared(a: int): int { a * a }

  /** (2^15 t - d a)^2 (2^15 n + a), expanded in powers of a. */
  lemma Expanded(t: int, d: int, n: int, a: int)
    ensures Squared(0x8000 * t - d * a) * (0x8000 * n + a)
         == 0x2000_0000_0000 * (t * t * n) + 0x4000_0000 * Times(a, t * (t - 2 * d * n))
          - 0x8000 * Times(a * a, d * (2 * t - d * n)) + Times(a * a * a, d * d)
  {
    var p, q, r := t * t, t * d * a, d * d * (a * a);
    SquareOfLine(t, d, a);
    Distribute(0x4000_0000 * p - 0x1_0000 * q + r, n, a);
    TermsOfN(p, q, r, n);
    ProductsWithN(t, d, n, a);
    hide Times, Squared;
    TermsOfA(t, d, n, a, p, q, r);
  }

  lemma SquareOfLine(t: int, d: int, a: int)
    ensures Squared(0x8000 * t - d * a) == 0x4000_0000 * (t * t) - 0x1_0000 * (t * d * a) + d * d * (a * a)
  {
    var x, y := 0x8000 * t, d * a;
    assert Squared(x - y) == x * x - 2 * (x * y) + y * y;
    assert x * x == 0x4000_0000 * (t * t) && x * y == 0x8000 * (t * d * a) && y * y == d * d * (a * a);
  }

  lemma ProductsWithN(t: int, d: int, n: int, a: int)
    ensures (t * t) * n == t * t * n && (t * d * a) * n == a * (t * d * n)
    ensures (d * d * (a * a)) * n == (a * a) * (d * d * n)
  {
  }

  lemma Distribute(s: int, n: int, a: int)
    ensures s * (0x8000 * n + a) == 0x8000 * (s * n) + s * a
  {
  }

  lemma TermsOfN(p: int, q: int, r: int, n: int)
    ensures (0x4000_0000 * p - 0x1_0000 * q + r) * n == 0x4000_0000 * (p * n) - 0x1_0000 * (q * n) + r * n
  {
  }

  lemma TermsOfA(t: int, d: int, n: int, a: int, p: int, q: int, r: int)
    requires p == t * t && q == t * d * a && r == d * d * (a * a)
    ensures (0x4000_0000 * p - 0x1_0000 * q + r) * a == 0x4000_0000 * (p * a) - 0x1_0000 * (q * a) + r * a
    ensures Times(a, t * (t - 2 * d * n)) == p * a - 2 * (a * (t * d * n))
    ensures Times(a * a, d * (2 * t - d * n)) == 2 * (q * a) - (a * a) * (d * d * n)
    ensures Times(a * a * a, d * d) == r * a
  {
    assert t * (t - 2 * d * n) == t * t - 2 * (t * d * n);
    assert d * (2 * t - d * n) == 2 * (t * d) - d * d * n;
    assert (a * a) * (t * d) == q * a;
    assert (d * d * (a * a)) * a == (a * a * a) * (d * d);
  }

  /** Between two entries the squared line times the argument stays in the band. */
  lemma LineNearCurve(t: int, u: int, n: int, a: int)
    requires Close(t, u, n) && n >= 0 && 0 <= a < 0x8000
    ensures 0x2000_0000_0000 * LOW <= Squared(0x8000 * t - (t - u) * a) * (0x8000 * n + a) <= 0x2000_0000_0000 * HIGH
  {
    var d := t - u;
    CloseTerms(t, u, n);
    hide Squared, Close;
    Expanded(t, d, n, a);
    Band(t * t * n, t * (t - 2 * d * n), d * (2 * t - d * n), d * d, a);
  }

  lemma CloseTerms(t: int, u: int, n: int)
    requires Close(t, u, n) && n >= 0
    ensures var d := t - u; var p, c1, c2, dd := t * t * n, t * (t - 2 * d * n), d * (2 * t - d * n), d * d;
            && c1 >= 0 && c2 >= 0 && dd >= 0
            && LOW <= p && LOW <= p + c1 - c2 && p + c1 + dd <= HIGH
  {
    var d := t - u;
    assert 0 < d <= t && 2 * d * n <= t;
    hide Close;
    NonNegativeTerms(t, d, n, d * n);
  }

  lemma NonNegativeTerms(t: int, d: int, n: int, e: int)
    requires 0 < d <= t && n >= 0 && e == d * n && 2 * d * n <= t
    ensures t * (t - 2 * d * n) >= 0 && d * (2 * t - d * n) >= 0 && d * d >= 0
  {
    MulMono(0, d, n);
    assert 2 * d * n == 2 * e;
    MulMono(0, t - 2 * e, t);
    MulMono(0, 2 * t - e, d);
    MulMono(0, d, d);
  }

  lemma Band(p: int, c1: int, c2: int, dd: int, a: int)
    requires 0 <= a < 0x8000 && c1 >= 0 && c2 >= 0 && dd >= 0
    requires LOW <= p && LOW <= p + c1 - c2 && p + c1 + dd <= HIGH
    ensures var f := 0x2000_0000_0000 * p + 0x4000_0000 * Times(a, c1) - 0x8000 * Times(a * a, c2)
                   + Times(a * a * a, dd);
            0x2000_0000_0000 * LOW <= f <= 0x2000_0000_0000 * HIGH
  {
    var s, k := a * a, a * a * a;
    MulMono(a, 0x8000, a);
    MulMono(0, a, a);
    MulMono(0, a, s);
    MulMono(a, 0x8000, s);
    assert k == a * s;
    MulMono(a, 0x8000, c1);
    MulMono(s, 0x8000 * a, c1);
    MulMono(0, s, c2);
    MulMono(k, 0x2000_0000_0000, dd);
    MulMono(0, k, dd);
    assert (0x8000 * a) * c1 == 0x8000 * (a * c1);
    if c1 >= c2 {
      MulMono(0, s, c1 - c2);
      assert s * (c1 - c2) == s * c1 - s * c2;
    } else {
      MulMono(s, 0x4000_0000, c2 - c1);
      assert s * (c2 - c1) == s * c2 - s * c1;
    }
  }

  // ----- the interpolated value -----

  /** y^2 m stays within [LOW, HIGH + 2^15] in units of 2^57. */
  lemma InterpolatedNear(m: Word32)
    requires m >= 0x2000_0000
    ensures var y := Interpolated(m);
            0x200_0000_0000_0000 * LOW <= Squared(y) * m <= 0x200_0000_0000_0000 * (HIGH + 0x8000)
  {
    hide Root, Squared, LMsu, Sub, Close;
    var i := (m as int) / 0x200_0000 - 16;
    var a := (m as int) / 0x400 % 0x8000;
    RootDecreases(i);
    RootDecreases(i + 1);
    AllClose(i);
    LineNearCurve(Root(i), Root(i + 1), i + 16, a);
    InterpolatedLine(Root(i), Root(i + 1), a);
    InterpolatedRange(m);
    var z := 0x8000 * (Root(i) as int) - (Root(i) as int - Root(i + 1)) * a;
    var h := 0x8000 * (i + 16) + a;
    FieldsOf(m);
    Scale57(Interpolated(m), z, h, m);
  }

  lemma FieldsOf(m: Word32)
    ensures var h := 0x8000 * ((m as int) / 0x200_0000) + (m as int) / 0x400 % 0x8000;
            0x400 * h <= m < 0x400 * h + 0x400
  {
  }

  lemma InterpolatedLine(t: Word16, u: Word16, a: Word16)
    requires 16384 <= u < t && 0 <= a
    ensures LMsu(LDepositH(t), Sub(t, u), a) == 2 * (0x8000 * (t as int) - (t as int - u) * a)
  {
    var d := (t as int) - u;
    MulMono(a, 0x8000, d);
    MulMono(0, a, d);
    assert LMult(d, a) == 2 * (d * a);
  }

  lemma Scale57(y: int, z: int, h: int, m: int)
    requires y == 2 * z && 0 <= y <= MAX_32 && 0x400 * h <= m <= 0x400 * h + 0x3ff
    requires 0x2000_0000_0000 * LOW <= Squared(z) * h <= 0x2000_0000_0000 * HIGH
    ensures 0x200_0000_0000_0000 * LOW <= Squared(y) * m <= 0x200_0000_0000_0000 * (HIGH + 0x8000)
  {
    var q := y * y;
    assert q == 4 * (z * z);
    MulMono(0, y, y);
    MulMono(y, 0x8000_0000, y);
    MulMono(0x400 * h, m, q);
    MulMono(m, 0x400 * h + 0x3ff, q);
    assert (0x400 * h) * q == 0x1000 * ((z * z) * h);
    assert (0x400 * h + 0x3ff) * q == (0x400 * h) * q + 0x3ff * q;
  }

  // ----- the final shift -----

  /** m 4^e is 2^31 x, except that the largest odd arguments lose their last bit. */
  lemma ArgumentScale(x: Word32)
    requires x > 0
    ensures var e := (30 - NormL(x)) / 2 + 1;
            var lost := if NormL(x) == 0 then (x as int) % 2 else 0;
            && NormL(x) <= 30
            && RootArgument(x) * (Pow2(e) * Pow2(e)) == 0x8000_0000 * (x as int - lost)
  {
    hide LShl, LShr, NormL;
    RootArgumentRange(x);
    NormalizeExact(x);
    var n := NormL(x);
    var e := (30 - n) / 2 + 1;
    Pow2Split(e, e);
    hide Pow2;
    if (30 - n) % 2 == 1 {
      FullShift(x, n);
    } else if n == 0 {
      LastBit(x);
    } else {
      HalfShifted(x, n);
    }
  }

  lemma Regrouped(x: int, a: int, b: int, c: int)
    requires a * b == c
    ensures (x * a) * b == c * x
  {
    assert (x * a) * b == x * (a * b);
  }

  lemma FullShift(x: Word32, n: nat)
    requires n <= 31
    ensures (x * Pow2(n)) * Pow2(31 - n) == 0x8000_0000 * (x as int)
  {
    hide Pow2;
    Pow2Split(n, 31 - n);
    Pow2Values();
    Regrouped(x, Pow2(n), Pow2(31 - n), 0x8000_0000);
  }

  lemma LastBit(x: Word32)
    ensures LShr(x * Pow2(0), 1) * Pow2(32) == 0x8000_0000 * (x as int - (x as int) % 2)
  {
    assert Pow2(0) == 1;
    assert Pow2(1) == 2;
    Pow2Values();
  }

  lemma HalfShifted(x: Word32, n: nat)
    requires 1 <= n <= 30 && MIN_32 <= x * Pow2(n) <= MAX_32
    ensures LShr(x * Pow2(n), 1) * Pow2(32 - n) == 0x8000_0000 * (x as int)
  {
    var p := Pow2(n - 1);
    HalvedOnce(x, n);
    hide Pow2, LShr;
    Pow2Split(n - 1, 32 - n);
    Pow2Values();
    Regrouped(x, p, Pow2(32 - n), 0x8000_0000);
  }

  lemma HalvedOnce(x: Word32, n: nat)
    requires 1 <= n && MIN_32 <= x * Pow2(n) <= MAX_32
    ensures LShr(x * Pow2(n), 1) == x * Pow2(n - 1)
  {
    var v: Word32, w: int := x * Pow2(n), x * Pow2(n - 1);
    assert v == 2 * w by { ShiftOnce(x, Pow2(n - 1)); assert 2 * (x as int) * Pow2(n - 1) == 2 * w; }
    Halved(v, w);
  }

  lemma Halved(v: Word32, w: int)
    requires v == 2 * w
    ensures LShr(v, 1) == w
  {
    assert Pow2(1) == 2 by { assert Pow2(0) == 1; }
  }

  lemma ShiftedSquare(x: int, m: int, y: int, p: int, lost: int)
    requires x > 0 && m > 0 && 0 <= y <= MAX_32 && p >= 1 && 0 <= lost <= 1 && lost <= x
    requires m * (p * p) == 0x8000_0000 * (x - lost) && (lost == 1 ==> p >= 0x1_0000)
    requires 0x200_0000_0000_0000 * LOW <= Squared(y) * m <= 0x200_0000_0000_0000 * (HIGH + 0x8000)
    ensures Squared(y / p) * x <= 0x400_0000 * (HIGH + 0x8010)
    ensures 0x400_0000 * LOW <= Squared(y / p + 1) * x
  {
    hide Squared;
    var r := y / p;
    assert y == r * p + y % p;
    if r < 0 { MulMono(r, -1, p); }
    ShiftedUpper(x, m, y, p, lost, r);
    ShiftedLower(x, m, y, p, lost, r);
  }

  lemma ScaledSquare(r: int, p: int, m: int, v: int)
    requires m * (p * p) == 0x8000_0000 * v
    ensures Squared(r * p) * m == 0x8000_0000 * (Squared(r) * v)
  {
    assert (r * p) * (r * p) == (r * r) * (p * p);
    assert ((r * r) * (p * p)) * m == (r * r) * (m * (p * p));
    assert (r * r) * (0x8000_0000 * v) == 0x8000_0000 * ((r * r) * v);
  }

  lemma SquareGrows(a: int, b: int)
    requires 0 <= a <= b
    ensures 0 <= Squared(a) <= Squared(b)
  {
    MulMono(0, a, a);
    MulMono(a, b, a);
    MulMono(a, b, b);
  }

  lemma ShiftedUpper(x: int, m: int, y: int, p: int, lost: int, r: int)
    requires x > 0 && m > 0 && 0 <= y <= MAX_32 && p >= 1 && 0 <= lost <= 1
    requires 0 <= r && r * p <= y && (lost == 1 ==> p >= 0x1_0000)
    requires m * (p * p) == 0x8000_0000 * (x - lost)
    requires Squared(y) * m <= 0x200_0000_0000_0000 * (HIGH + 0x8000)
    ensures Squared(r) * x <= 0x400_0000 * (HIGH + 0x8010)
  {
    hide Squared;
    MulMono(0, r, p);
    SquareGrows(r * p, y);
    MulMono(Squared(r * p), Squared(y), m);
    ScaledSquare(r, p, m, x - lost);
    if lost == 1 {
      MulMono(0x1_0000, p, r);
      SquareGrows(r, 0x7fff);
      assert Squared(0x7fff) == 0x3fff_0001 by { assert 0x7fff * 0x7fff == 0x3fff_0001; SquareOf(0x7fff); }
      assert Squared(r) * x == Squared(r) * (x - 1) + Squared(r);
    }
  }

  lemma SquareOf(a: int)
    ensures Squared(a) == a * a
  {
  }

  lemma ShiftedLower(x: int, m: int, y: int, p: int, lost: int, r: int)
    requires x > 0 && m > 0 && 0 <= y && p >= 1 && 0 <= lost <= 1
    requires 0 <= r && y <= (r + 1) * p
    requires m * (p * p) == 0x8000_0000 * (x - lost)
    requires 0x200_0000_0000_0000 * LOW <= Squared(y) * m
    ensures 0x400_0000 * LOW <= Squared(r + 1) * x
  {
    hide Squared;
    SquareGrows(y, (r + 1) * p);
    MulMono(Squared(y), Squared((r + 1) * p), m);
    ScaledSquare(r + 1, p, m, x - lost);
    SquareGrows(0, r + 1);
    MulMono(x - lost, x, Squared(r + 1));
  }

  /** Inv_sqrt(x) is 2^30 / sqrt(x), squared: never more than 3 / 1024 too large, and, one
      unit added for the rounding down, never more than 2^-14 too small. */
  lemma InvSqrtNear(x: Word32)
    requires x > 0
    ensures var r := InvSqrt(x);
            && Squared(r) * x <= 0x400_0000 * (HIGH + 0x8010) <= 0x1000_0000_0000_0000 / 1024 * 1027
            && 0x400_0000 * LOW <= Squared(r + 1) * x
            && 0x400_0000 * LOW == 0x1000_0000_0000_0000 - 0x4000_0000_0000
  {
    hide Interpolated, RootArgument, Squared, NormL, Pow2;
    RootArgumentRange(x);
    var m, e := RootArgument(x), (30 - NormL(x)) / 2 + 1;
    ArgumentScale(x);
    InterpolatedNear(m);
    InterpolatedRange(m);
    var lost := if NormL(x) == 0 then (x as int) % 2 else 0;
    if NormL(x) == 0 { Pow2Values(); }
    ShiftedSquare(x, m, Interpolated(m), Pow2(e), lost);
  }
}
