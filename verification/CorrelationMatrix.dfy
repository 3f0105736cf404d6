/** The autocorrelation matrix of the impulse response with the pulse signs folded in
    (cor_h), and what it gives the two-pulse searches: when the squared response sums to
    less than 2^31 - 1, no pair of pulses has a negative energy. */
module CorrelationMatrix {
  import opened FixedPoint
  import opened InverseRoot
  import opened PulseStages
  import opened TwoPulseSearch
  import Autocorrelation

  // ----- specification -----

  predicate SignVector(sign: Corr) {
    forall i :: 0 <= i < 40 ==> sign[i] == 32767 || sign[i] == -32767
  }

  /** The signs set_sign chooses. */
  function Signs(dn: Corr): (sign: Corr)
    ensures SignVector(sign)
  {
    seq(40, i requires 0 <= i < 40 => if dn[i] >= 0 then 32767 else -32767)
  }

  function Energy(h: Corr): nat { Autocorrelation.Energy(h, L_CODE) }

  /** The response's energy plus one, doubled, as the 32-bit sum holds it. */
  function Doubled(h: Corr): Word32 { Wrap32(2 * Wrap32(Energy(h) + 1)) }

  /** 0.99 / sqrt(s). */
  function Scaling(s: Word32): Word16 { Mult(ExtractH(LShl(InvSqrt(s), 7)), 32440) }

  function ScaledSample(x: Word16, k: Word16): Word16 { Round(LShl(LMult(x, k), 9)) }

  /** h2: halved when bit 31 of the doubled sum is set, otherwise brought to unit energy. */
  function Scaled(h: Corr): Corr {
    if Doubled(h) < 0 then seq(40, i requires 0 <= i < 40 => h[i] / 2)
    else
      var k := Scaling(LShr(Doubled(h), 1));
      seq(40, i requires 0 <= i < 40 => ScaledSample(h[i], k))
  }

  function Rounded(s: Word32): Word16 { Wrap16(Wrap32(s + 0x4000) / 0x8000) }

  function Signed(t: Word16, a: Word16, b: Word16): Word16 {
    Wrap16(t * Wrap16(a * b / 0x8000) / 0x8000)
  }

  /** Entry (j, i) below the diagonal and (i, j) above it. */
  function OffDiagonal(g: Corr, sign: Corr, i: Pos, j: Pos): Word16
    requires i < j
  {
    Signed(Rounded(Wrap32(Autocorrelation.Lag(g, j - i, L_CODE - j))), sign[i], sign[j])
  }

  function Entry(g: Corr, sign: Corr, i: Pos, j: Pos): Word16 {
    if i == j then Rounded(Wrap32(Autocorrelation.Energy(g, L_CODE - i)))
    else if i < j then OffDiagonal(g, sign, i, j)
    else OffDiagonal(g, sign, j, i)
  }

  function Correlations(h: Corr, sign: Corr): Matrix {
    var g := Scaled(h);
    seq<Corr>(40, i requires 0 <= i < 40 => seq(40, j requires 0 <= j < 40 => Entry(g, sign, i, j)))
  }

  // ----- the code -----

  /** The energy test and the two ways of scaling. */
  method ScaleResponse(h: Corr, h2: array<Word16>)
    requires h2.Length == L_CODE
    modifies h2
    ensures h2[..] == Scaled(h)
  {
    hide Autocorrelation.Energy, Autocorrelation.Product, LShl, LShr, ScaledSample, Scaling;
    var s: Word32 := 1;
    Autocorrelation.EnergyStart(h);
    for i := 0 to L_CODE
      invariant s == Wrap32(Autocorrelation.Energy(h, i) + 1)
    {
      Autocorrelation.EnergyStep(h, i);
      Autocorrelation.WrapAdd(Autocorrelation.Energy(h, i) + 1, Autocorrelation.Product(h[i], h[i]));
      s := Wrap32(s + Autocorrelation.Product(h[i], h[i]));
    }
    s := Wrap32(2 * s);
    if s < 0 {
      for i := 0 to L_CODE
        invariant forall m :: 0 <= m < i ==> h2[m] == h[m] / 2
      {
        h2[i] := h[i] / 2;
      }
    } else {
      s := LShr(s, 1);
      var k := Scaling(s);
      for i := 0 to L_CODE
        invariant forall m :: 0 <= m < i ==> h2[m] == ScaledSample(h[m], k)
      {
        h2[i] := ScaledSample(h[i], k);
      }
    }
  }

  /** Entries whose distance from the diagonal is below dec, or equal to it and among the
      last k rows, are final. */
  predicate Filled(i: Pos, j: Pos, dec: int, k: int) {
    var lo, hi := if i < j then i else j, if i < j then j else i;
    hi - lo < dec || (hi - lo == dec && hi > 39 - k)
  }

  method CorH(h: Corr, sign: Corr, rr: array2<Word16>)
    requires rr.Length0 == L_CODE && rr.Length1 == L_CODE
    modifies rr
    ensures forall i, j :: 0 <= i < 40 && 0 <= j < 40 ==> rr[i, j] == Correlations(h, sign)[i][j]
  {
    hide Scaled, Entry, Wrap32, Autocorrelation.Energy, Autocorrelation.Lag, Autocorrelation.Product, Signed, Rounded;
    var h2 := new Word16[40];
    ScaleResponse(h, h2);
    ghost var g := Scaled(h);
    FirstSquare(g);
    var s1 := Wrap32(Autocorrelation.Product(h2[0], h2[0]));
    EntryOnDiagonal(g, sign, 39);
    rr[39, 39] := Rounded(s1);
    for dec := 1 to L_CODE
      invariant h2[..] == g
      invariant s1 == Wrap32(Autocorrelation.Energy(g, dec))
      invariant forall i, j :: 0 <= i < 40 && 0 <= j < 40 && i != j && Filled(i, j, dec, 0) ==>
          rr[i, j] == Entry(g, sign, i, j)
      invariant forall i :: 40 - dec <= i < 40 ==> rr[i, i] == Entry(g, sign, i, i)
    {
      var s: Word32 := 0;
      var j := 39;
      var i := j - dec;
      Autocorrelation.EnergyStep(g, dec);
      Autocorrelation.WrapAdd(Autocorrelation.Energy(g, dec), Autocorrelation.Product(g[dec], g[dec]));
      s1 := Wrap32(s1 + Autocorrelation.Product(h2[dec], h2[dec]));
      EntryOnDiagonal(g, sign, i);
      rr[i, i] := Rounded(s1);
      LagStart(g, dec);
      for k := 0 to L_CODE - dec
        invariant h2[..] == g && j == 39 - k && i == j - dec
        invariant s == Wrap32(Autocorrelation.Lag(g, dec, k))
        invariant forall i, j :: 0 <= i < 40 && 0 <= j < 40 && i != j && Filled(i, j, dec, k) ==>
            rr[i, j] == Entry(g, sign, i, j)
        invariant forall i :: 39 - dec <= i < 40 ==> rr[i, i] == Entry(g, sign, i, i)
      {
        LagStep(g, dec, k);
        Autocorrelation.WrapAdd(Autocorrelation.Lag(g, dec, k), Autocorrelation.Product(g[k], g[k + dec]));
        s := Wrap32(s + Autocorrelation.Product(h2[k], h2[k + dec]));
        EntryOffDiagonal(g, sign, i, j);
        rr[j, i] := Signed(Rounded(s), sign[i], sign[j]);
        rr[i, j] := rr[j, i];
        i, j := i - 1, j - 1;
      }
    }
  }

  lemma FirstSquare(g: Corr)
    ensures Autocorrelation.Energy(g, 1) == Autocorrelation.Product(g[0], g[0])
  {
    assert Autocorrelation.Energy(g, 0) == 0;
  }

  lemma EntryOnDiagonal(g: Corr, sign: Corr, i: Pos)
    ensures Entry(g, sign, i, i) == Rounded(Wrap32(Autocorrelation.Energy(g, L_CODE - i)))
  {
  }

  lemma EntryOffDiagonal(g: Corr, sign: Corr, i: Pos, j: Pos)
    requires i < j
    ensures Entry(g, sign, j, i) == Entry(g, sign, i, j)
         == Signed(Rounded(Wrap32(Autocorrelation.Lag(g, j - i, L_CODE - j))), sign[i], sign[j])
  {
  }

  lemma LagStart(g: seq<Word16>, dec: nat)
    requires dec <= |g|
    ensures Wrap32(Autocorrelation.Lag(g, dec, 0)) == 0
  {
  }

  lemma LagStep(g: seq<Word16>, dec: nat, k: nat)
    requires dec + k < |g|
    ensures Autocorrelation.Lag(g, dec, k + 1)
         == Autocorrelation.Lag(g, dec, k) + Autocorrelation.Product(g[k], g[k + dec])
  {
  }

  // ----- the scaled response has less than unit energy -----

  lemma {:induction false} SumOfBounds(g: seq<Word16>, h: seq<Word16>, n: nat, a: int, b: int, c: int)
    requires n <= |g| == |h|
    requires forall i :: 0 <= i < n ==> Times(a, Squared(g[i])) <= Times(b, Squared(h[i])) + c
    ensures Times(a, Autocorrelation.Energy(g, n)) <= Times(b, Autocorrelation.Energy(h, n)) + c * n
  {
    hide Times, Squared, Autocorrelation.Product;
    if n == 0 {
      TimesZero(a);
      TimesZero(b);
    } else {
      SumOfBounds(g, h, n - 1, a, b, c);
      TimesStep(a, Autocorrelation.Energy(g, n - 1), g[n - 1]);
      TimesStep(b, Autocorrelation.Energy(h, n - 1), h[n - 1]);
    }
  }

  lemma TimesZero(a: int)
    ensures Times(a, 0) == 0
  {
  }

  lemma TimesStep(a: int, e: int, x: int)
    ensures Times(a, e + Autocorrelation.Product(x, x)) == Times(a, e) + Times(a, Squared(x))
  {
  }

  lemma HalvedSample(x: Word16)
    ensures Times(32768, Squared(x / 2)) <= Times(8193, Squared(x)) + 67_117_056
  {
    var y := x / 2;
    Autocorrelation.SquareNonNegative(x + 8192);
    assert (x + 8192) * (x + 8192) == x * x + 16384 * x + 67_108_864;
    if x == 2 * y {
      assert x * x == 4 * (y * y);
    } else {
      assert x == 2 * y + 1;
      assert (x - 1) * (x - 1) == x * x - 2 * x + 1;
      assert (x - 1) * (x - 1) == 4 * (y * y);
    }
    Autocorrelation.SquareNonNegative(x);
  }

  lemma HalvedEnergy(h: Corr, g: Corr)
    requires Energy(h) <= 4_294_049_859 && forall i :: 0 <= i < 40 ==> g[i] == h[i] / 2
    ensures Energy(g) + 0x4000 < 0x4000_0000
  {
    hide Times, Squared, Autocorrelation.Energy;
    forall i | 0 <= i < 40 ensures Times(32768, Squared(g[i])) <= Times(8193, Squared(h[i])) + 67_117_056 {
      HalvedSample(h[i]);
    }
    SumOfBounds(g, h, 40, 32768, 8193, 67_117_056);
    TimesIs(32768, Energy(g));
    TimesIs(8193, Energy(h));
  }

  lemma TimesIs(a: int, b: int)
    ensures Times(a, b) == a * b
  {
  }

  function Magnitude(z: int): nat { if z < 0 then 0 - z else z }

  /** The rounded, possibly saturated sample is within half a unit of x k / 64 in magnitude. */
  lemma SampleMagnitude(x: Word16, k: Word16)
    requires 0 <= k < 32767
    ensures 64 * Magnitude(ScaledSample(x, k)) <= Magnitude(Times(x, k)) + 32
  {
    hide LShl, Pow2, Times;
    TimesIs(x, k);
    MulBounds(x, k, 32768, 32767);
    LShlSaturates(LMult(x, k), 9);
    Pow2Of9();
    RoundMagnitude(Times(x, k));
  }

  lemma Pow2Of9()
    ensures Pow2(9) == 512 && Pow2(7) == 128 && Pow2(1) == 2
  {
  }

  lemma RoundMagnitude(z: int)
    ensures 64 * Magnitude(Round(Sat32(1024 * z))) <= Magnitude(z) + 32
  {
  }

  lemma SquaredSample(x: Word16, k: Word16)
    requires 0 <= k < 32767
    ensures Times(0x10_0000, Squared(ScaledSample(x, k))) <= Times(257 * Squared(k), Squared(x)) + 67_371_008
  {
    hide ScaledSample, Times, Squared;
    SampleMagnitude(x, k);
    SquaredMagnitude(ScaledSample(x, k), Times(x, k));
    TimesIs(0x10_0000, Squared(ScaledSample(x, k)));
    SquareOfProduct(x, k);
  }

  lemma SquareOfProduct(x: int, k: int)
    ensures 257 * Squared(Times(x, k)) == Times(257 * Squared(k), Squared(x))
  {
    assert (x * k) * (x * k) == (k * k) * (x * x);
    assert 257 * ((k * k) * (x * x)) == (257 * (k * k)) * (x * x);
  }

  lemma SquaredMagnitude(g: int, z: int)
    requires 64 * Magnitude(g) <= Magnitude(z) + 32
    ensures 0x10_0000 * Squared(g) <= 257 * Squared(z) + 67_371_008
  {
    hide Squared;
    var a: int, m: int := Magnitude(g), Magnitude(z);
    SquareGrows(64 * a, m + 32);
    SquareSums(a, m);
    SquareGrows(0, Magnitude(m - 8192));
    SquareOfMagnitude(m - 8192);
    SquareOfMagnitude(g);
    SquareOfMagnitude(z);
  }

  lemma SquareOfMagnitude(z: int)
    ensures Squared(Magnitude(z)) == Squared(z)
  {
    SquareOf(z);
    assert (-z) * (-z) == z * z;
  }

  lemma SquareSums(a: int, m: int)
    ensures Squared(64 * a) == 4096 * Squared(a)
    ensures Squared(m + 32) == Squared(m) + 64 * m + 1024
    ensures Squared(m - 8192) == Squared(m) - 16384 * m + 67_108_864
  {
  }

  /** k is at most 0.99 times the root table's answer. */
  lemma ScalingBound(s: Word32)
    requires s > 0
    ensures 0 <= Scaling(s) < 32767
    ensures Times(Squared(Scaling(s)), s) <= 4_323_068_588_800
  {
    hide InvSqrt, LShl, Pow2, Squared, Times;
    var r := InvSqrt(s);
    InvSqrtRange(s);
    InvSqrtNear(s);
    LShlSaturates(r, 7);
    Pow2Of9();
    ScalingOfRoot(r);
    ScaledSquares(Scaling(s), r, s);
  }

  lemma ScaledSquares(k: int, r: int, s: int)
    requires 0 <= 0x100_0000 * k <= 32440 * r && s > 0
    requires Squared(r) * s <= 0x1000_0000_0000_0000 / 1024 * 1027
    ensures Times(Squared(k), s) <= 4_323_068_588_800
  {
    hide Squared;
    SquareGrows(0x100_0000 * k, 32440 * r);
    SquaresOfScaled(k, r);
    MulMono(0x1_0000_0000_0000 * Squared(k), 1_052_353_600 * Squared(r), s);
    Outside(0x1_0000_0000_0000, Squared(k), s);
    Outside(1_052_353_600, Squared(r), s);
  }

  lemma Outside(c: int, q: int, s: int)
    ensures (c * q) * s == c * (q * s)
  {
  }

  lemma SquaresOfScaled(k: int, r: int)
    ensures Squared(0x100_0000 * k) == 0x1_0000_0000_0000 * Squared(k)
    ensures Squared(32440 * r) == 1_052_353_600 * Squared(r)
  {
  }

  lemma ScalingOfRoot(r: Word32)
    requires 0 <= r
    ensures var k := Mult(ExtractH(Sat32(r * 128)), 32440);
            0 <= k < 32767 && 0x100_0000 * (k as int) <= 32440 * (r as int)
  {
  }

  /** Nor is it much smaller: 0.99 is lost by two units of k at most, unless k is clipped. */
  lemma ScalingNotBelow(s: Word32)
    requires s > 0
    ensures Scaling(s) == 32439
         || 4_310_177_132_544 <= Times(Squared(Scaling(s) as int + 2), s)
  {
    hide InvSqrt, LShl, Pow2, Squared, Times;
    var r := InvSqrt(s);
    InvSqrtRange(s);
    InvSqrtNear(s);
    LShlSaturates(r, 7);
    Pow2Of9();
    RootOfScaling(r);
    if Scaling(s) != 32439 { SquaresBelow(Scaling(s) as int + 2, r + 1, s); }
  }

  lemma RootOfScaling(r: Word32)
    requires 0 <= r
    ensures var k := Mult(ExtractH(Sat32(r * 128)), 32440);
            k == 32439 || 32440 * (r as int + 1) <= 0x100_0000 * (k as int + 2)
  {
  }

  lemma SquaresBelow(k: int, r: int, s: int)
    requires 0 <= r && 32440 * r <= 0x100_0000 * k && s > 0
    requires 0x1000_0000_0000_0000 - 0x4000_0000_0000 <= Squared(r) * s
    ensures 4_310_177_132_544 <= Times(Squared(k), s)
  {
    hide Squared;
    SquareGrows(32440 * r, 0x100_0000 * k);
    SquaresOfScaled(k, r);
    MulMono(1_052_353_600 * Squared(r), 0x1_0000_0000_0000 * Squared(k), s);
    Outside(0x1_0000_0000_0000, Squared(k), s);
    Outside(1_052_353_600, Squared(r), s);
  }

  /** A scaled sample is x k / 64 rounded half up, and clipped. */
  lemma ScaledSampleIs(x: Word16, k: Word16)
    requires 0 <= k < 32767
    ensures ScaledSample(x, k) == Sat16((Times(x, k) + 32) / 64)
  {
    hide LShl, Pow2, Times;
    TimesIs(x, k);
    MulBounds(x, k, 32768, 32767);
    LShlSaturates(LMult(x, k), 9);
    Pow2Of9();
    RoundIs(Times(x, k));
  }

  lemma RoundIs(z: int)
    ensures Round(Sat32(1024 * z)) == Sat16((z + 32) / 64)
  {
  }

  lemma UnitEnergy(h: Corr, g: Corr, k: Word16)
    requires 0 <= k < 32767 && Times(Squared(k), Energy(h) + 1) <= 4_323_068_588_800
    requires forall i :: 0 <= i < 40 ==> g[i] == ScaledSample(h[i], k)
    ensures Energy(g) + 0x4000 < 0x4000_0000
  {
    hide Squared, Autocorrelation.Energy, ScaledSample, Times;
    forall i | 0 <= i < 40
      ensures Times(0x10_0000, Squared(g[i])) <= Times(257 * Squared(k), Squared(h[i])) + 67_371_008
    {
      SquaredSample(h[i], k);
    }
    SumOfBounds(g, h, 40, 0x10_0000, 257 * Squared(k), 67_371_008);
    TimesIs(0x10_0000, Energy(g));
    SplitTimes(Squared(k), Energy(h));
    SquareOf(k);
    Autocorrelation.SquareNonNegative(k);
  }

  lemma SplitTimes(q: int, e: int)
    ensures Times(257 * q, e) == 257 * Times(q, e) && Times(q, e + 1) == Times(q, e) + q
  {
  }

  /** The energies for which the test on the doubled sum scales well: below 2^31 it does not
      wrap, and from 3 * 2^30 on it wraps to a negative value again, so the response is
      halved, which is enough while the energy stays below 2^32 by the rounding. */
  predicate WellMeasured(h: Corr) {
    Energy(h) + 1 < 0x8000_0000 || 0xC000_0000 - 1 <= Energy(h) <= 4_294_049_859
  }

  lemma HalvedWhen(h: Corr)
    requires 0x4000_0000 <= Energy(h) + 1 && WellMeasured(h)
    ensures Doubled(h) < 0
  {
    hide Autocorrelation.Energy;
    DoubledSign(Energy(h) + 1);
  }

  lemma DoubledSign(s: int)
    requires 0x4000_0000 <= s < 0x8000_0000 || 0xC000_0000 <= s < 0x1_0000_0000
    ensures Wrap32(2 * Wrap32(s)) < 0
  {
  }

  lemma ScaledWhen(h: Corr)
    requires Energy(h) + 1 < 0x4000_0000
    ensures Doubled(h) >= 0 && LShr(Doubled(h), 1) == Energy(h) + 1
  {
    hide Autocorrelation.Energy, LShr;
    HalfOfDouble(Energy(h) + 1);
  }

  /** Whichever way the response was scaled, its energy rounds to less than 2^15 units. */
  lemma ScaledEnergy(h: Corr)
    requires WellMeasured(h)
    ensures Energy(Scaled(h)) + 0x4000 < 0x4000_0000
  {
    hide Energy, Scaling, ScaledSample, Doubled, LShr;
    var s := Energy(h) + 1;
    if s >= 0x4000_0000 {
      HalvedWhen(h);
      HalvedEnergy(h, Scaled(h));
    } else {
      ScaledWhen(h);
      ScalingBound(s);
      UnitEnergy(h, Scaled(h), Scaling(s));
    }
  }

  lemma HalfOfDouble(s: Word32)
    requires 0 < s < 0x4000_0000
    ensures Wrap32(s) == s && Wrap32(2 * s) == 2 * s && LShr(Wrap32(2 * s), 1) == s
  {
    Pow2Of9();
  }

  // ----- no pair has a negative energy -----

  /** Rounding an in-range sum to units of 2^15 moves it by half a unit at most. */
  lemma RoundedNear(s: int)
    requires -0x4000_0000 < s + 0x4000 < 0x4000_0000
    ensures Wrap32(s) == s && s - 16383 <= 0x8000 * (Rounded(s) as int) <= s + 16384
  {
  }

  /** Folding in the signs never makes an entry more negative than its magnitude. */
  lemma SignedAbove(t: Word16, a: Word16, b: Word16)
    requires a == 32767 || a == -32767
    requires b == 32767 || b == -32767
    ensures Signed(t, a, b) >= if t < 0 then t else 0 - t
  {
    if a == b { assert a * b / 0x8000 == 32766; } else { assert a * b / 0x8000 == -32767; }
  }

  /** The energy of a pair in rr units, before it is quartered and rounded. */
  lemma PairAbove(g: Corr, sign: Corr, i: Pos, j: Pos)
    requires Energy(g) + 0x4000 < 0x4000_0000 && SignVector(sign)
    ensures Entry(g, sign, i, i) >= 0
    ensures Entry(g, sign, i, i) + Entry(g, sign, j, j) + 2 * Entry(g, sign, i, j) >= -1
  {
    hide Autocorrelation.Energy, Autocorrelation.Lag, Autocorrelation.Product, Rounded, Signed, Wrap32;
    Autocorrelation.EnergyGrows(g, 40 - i, 40);
    Autocorrelation.EnergyGrows(g, 40 - j, 40);
    RoundedNear(Autocorrelation.Energy(g, 40 - i));
    RoundedNear(Autocorrelation.Energy(g, 40 - j));
    if i != j {
      var lo, hi := if i < j then i else j, if i < j then j else i;
      var lag := Autocorrelation.Lag(g, hi - lo, 40 - hi);
      Autocorrelation.LagBound(g, hi - lo, 40 - hi);
      RoundedNear(lag);
      SignedAbove(Rounded(lag), sign[lo], sign[hi]);
    }
  }

  /** With the matrix cor_h computes from a well measured response no pair of pulses has a
      negative energy. */
  lemma PairEnergyNonNegative(h: Corr, sign: Corr, dn: Corr, p: (Pos, Pos))
    requires WellMeasured(h) && SignVector(sign)
    ensures PairScore(dn, Correlations(h, sign), p).alp >= 0
  {
    hide Scaled, Entry, PulseStages.Energy;
    ScaledEnergy(h);
    PairAbove(Scaled(h), sign, p.0, p.1);
    PairEnergyIs(Correlations(h, sign), p.0, p.1);
  }

  /** The exhaustive search over the codec's own matrix is optimal, whatever the target. */
  lemma CodecSearchIsOptimal(h: Corr, sign: Corr, dn: Corr, tracks: Tracks) returns (d: nat, x: nat, y: nat)
    requires ValidTracks(tracks) && WellMeasured(h) && SignVector(sign)
    ensures var rr := Correlations(h, sign);
      if NoViablePair(dn, rr, tracks) then Search(dn, rr, tracks).tag == (0, 1)
      else FirstBestPair(dn, rr, tracks, d, x, y) && Search(dn, rr, tracks).tag == PairAt(tracks, d, x, y)
  {
    hide PairScore, Search, Correlations, WellMeasured;
    forall c: nat, u: nat, v: nat | c < |tracks| && u < 8 && v < 8
      ensures PairScore(dn, Correlations(h, sign), PairAt(tracks, c, u, v)).alp >= 0
    {
      PairEnergyNonNegative(h, sign, dn, PairAt(tracks, c, u, v));
    }
    d, x, y := SearchIsOptimal(dn, Correlations(h, sign), tracks);
  }

  // ----- the first energy that breaks this -----

  /** A response whose squares sum to exactly 2^31 - 1: the test takes the sum for 0. It
      begins with 1.0 as every impulse response of the codec does. */
  function LoudResponse(): Corr {
    seq(40, i => if i == 0 then 4096 else if i == 1 then 28000 else if i == 2 then 20041
                 else if i == 3 then 15707 else if i == 4 then 7290 else if i == 5 then 25401 else 0)
  }

  /** What it is scaled to. */
  function ClippedResponse(): Corr { seq(40, i => if i < 6 then 32767 else 0) }

  lemma {:induction false} EnergyOfSix(h: seq<Word16>, n: nat)
    requires 6 <= n <= |h| && forall i :: 6 <= i < n ==> h[i] == 0
    ensures Autocorrelation.Energy(h, n)
         == Squared(h[0]) + Squared(h[1]) + Squared(h[2]) + Squared(h[3]) + Squared(h[4]) + Squared(h[5])
  {
    hide Autocorrelation.Energy;
    if n > 6 {
      Autocorrelation.EnergyStep(h, n - 1);
      EnergyOfSix(h, n - 1);
    } else {
      Autocorrelation.EnergyStart(h);
      Autocorrelation.EnergyStep(h, 0);
      Autocorrelation.EnergyStep(h, 1);
      Autocorrelation.EnergyStep(h, 2);
      Autocorrelation.EnergyStep(h, 3);
      Autocorrelation.EnergyStep(h, 4);
      Autocorrelation.EnergyStep(h, 5);
    }
  }

  lemma LoudScaling()
    ensures Scaling(0) == 32439
  {
    hide LShl, Pow2;
    LShlSaturates(0x3fff_ffff, 7);
    Pow2Of9();
  }

  lemma LoudSample(x: Word16)
    requires x >= 65 || x == 0
    ensures ScaledSample(x, 32439) == if x == 0 then 0 else 32767
  {
    hide LShl, Pow2;
    LShlSaturates(LMult(x, 32439), 9);
    Pow2Of9();
  }

  lemma LoudEnergy()
    ensures Energy(LoudResponse()) + 1 == 0x8000_0000
  {
    hide Autocorrelation.Energy;
    EnergyOfSix(LoudResponse(), L_CODE);
    SixSquares();
  }

  lemma SixSquares()
    ensures Squared(4096) + Squared(28000) + Squared(20041) + Squared(15707) + Squared(7290) + Squared(25401)
         == 0x7fff_ffff
  {
  }

  lemma LoudScaled()
    ensures Scaled(LoudResponse()) == ClippedResponse()
  {
    hide Energy, Scaling, ScaledSample;
    LoudEnergy();
    LoudScaling();
    Pow2Of9();
    assert Doubled(LoudResponse()) == 0 && LShr(0, 1) == 0;
    forall i | 0 <= i < 40 ensures ScaledSample(LoudResponse()[i], 32439) == ClippedResponse()[i] {
      LoudSample(LoudResponse()[i]);
    }
  }

  // The sums of the clipped response: one full-scale square for each common tap.

  const FULL: int := 1_073_676_289

  function Taps(dec: nat, n: nat): nat { if dec >= 6 then 0 else if n < 6 - dec then n else 6 - dec }

  lemma {:induction false} ClippedEnergy(n: nat)
    requires n <= 40
    ensures Autocorrelation.Energy(ClippedResponse(), n) == Taps(0, n) * FULL
  {
    if n > 0 {
      ClippedEnergy(n - 1);
      FullSquare();
    }
  }

  lemma {:induction false} ClippedLag(dec: nat, n: nat)
    requires dec + n <= 40
    ensures Autocorrelation.Lag(ClippedResponse(), dec, n) == Taps(dec, n) * FULL
  {
    if n > 0 {
      ClippedLag(dec, n - 1);
      FullSquare();
    }
  }

  lemma FullSquare()
    ensures Autocorrelation.Product(32767, 32767) == FULL && Autocorrelation.Product(0, 0) == 0
    ensures Autocorrelation.Product(32767, 0) == 0
  {
  }

  /** An odd number of full-scale squares rounds to a large value, an even number wraps to
      one just below zero. */
  function TapValue(m: nat): Word16
    requires m <= 6
  {
    if m == 0 then 0 else if m == 1 then 32766 else if m == 2 then -4 else if m == 3 then 32762
    else if m == 4 then -8 else if m == 5 then 32758 else -12
  }

  lemma RoundedTaps(m: nat)
    requires m <= 6
    ensures Rounded(Wrap32(m * FULL)) == TapValue(m)
  {
  }

  lemma ClippedDiagonal(sign: Corr, p: Pos)
    ensures Entry(ClippedResponse(), sign, p, p) == TapValue(Taps(0, 40 - p))
  {
    hide Autocorrelation.Energy, Rounded, Wrap32, ClippedResponse, TapValue;
    ClippedEnergy(L_CODE - p);
    RoundedTaps(Taps(0, 40 - p));
    EntryOnDiagonal(ClippedResponse(), sign, p);
  }

  /** With equal signs an entry keeps its sign, and next to nothing of a small one is lost. */
  lemma ClippedCross(sign: Corr, p: Pos, q: Pos)
    requires p != q && sign[p] == sign[q] == 32767
    ensures -12 <= Entry(ClippedResponse(), sign, p, q)
    ensures p == 38 && q == 39 ==> Entry(ClippedResponse(), sign, p, q) == 32764
  {
    hide Autocorrelation.Lag, Rounded, Wrap32, ClippedResponse, TapValue, Signed;
    var lo, hi := if p < q then p else q, if p < q then q else p;
    var m := Taps(hi - lo, 40 - hi);
    ClippedLag(hi - lo, 40 - hi);
    RoundedTaps(m);
    EntryOffDiagonal(ClippedResponse(), sign, lo, hi);
    SignedTaps(m);
  }

  lemma SignedTaps(m: nat)
    requires m <= 6
    ensures -12 <= Signed(TapValue(m), 32767, 32767) && Signed(TapValue(1), 32767, 32767) == 32764
  {
    hide Signed, Wrap16;
    SameSigns(TapValue(m));
    SameSigns(32766);
    NarrowKeeps(TapValue(m) * 32766 / 0x8000);
    NarrowKeeps(32764);
  }

  lemma SameSigns(t: Word16)
    ensures Signed(t, 32767, 32767) == Wrap16((t as int) * 32766 / 0x8000)
  {
    assert 32767 * 32767 / 0x8000 == 32766 && Wrap16(32766) == 32766;
  }

  lemma NarrowKeeps(x: int)
    ensures MIN_16 <= x <= MAX_16 ==> Wrap16(x) == x
  {
  }

  lemma SignedZero(a: Word16, b: Word16)
    ensures Signed(0, a, b) == 0
  {
    hide Wrap16;
    NoProduct(Wrap16(a * b / 0x8000));
  }

  lemma NoProduct(k: int)
    ensures Wrap16(0 * k / 0x8000) == 0
  {
    assert 0 * k == 0;
  }

  lemma ClippedApart(sign: Corr, p: Pos, q: Pos)
    requires p + 6 <= q
    ensures Entry(ClippedResponse(), sign, p, q) == 0
  {
    hide Autocorrelation.Lag, Rounded, Wrap32, ClippedResponse, Signed;
    ClippedLag(q - p, L_CODE - q);
    RoundedTaps(0);
    SignedZero(sign[p], sign[q]);
    EntryOffDiagonal(ClippedResponse(), sign, p, q);
  }

  /** One more than the first range admits, and every pair of positions up to 34 and at least
      six apart has a negative energy, for any target and any signs. */
  lemma LoudResponseFails(dn: Corr, sign: Corr, p: Pos, q: Pos)
    requires p + 6 <= q <= 34
    ensures Energy(LoudResponse()) + 1 == 0x8000_0000 && LoudResponse()[0] == 4096
    ensures PairScore(dn, Correlations(LoudResponse(), sign), (p, q)).alp == -6
  {
    LoudStart();
    hide Energy, Entry, Scaled, PulseStages.Energy, LoudResponse, ClippedResponse;
    LoudEnergy();
    LoudScaled();
    ClippedDiagonal(sign, p);
    ClippedDiagonal(sign, q);
    ClippedApart(sign, p, q);
    PairEnergyIs(Correlations(LoudResponse(), sign), p, q);
  }

  lemma LoudStart()
    ensures LoudResponse()[0] == 4096
  {
  }
}
