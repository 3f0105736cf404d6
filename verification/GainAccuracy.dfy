/** How close the gain of agc and agc2 comes to sqrt(input energy / output energy). */
module GainAccuracy {
  import opened FixedPoint
  import opened Kernel
  import opened InverseRoot
  import opened GainControl

  // ----- the quotient of the mantissas -----

  lemma NormalisedEnergy(s: Word32)
    requires s > 0
    ensures NormL(s) <= 30 && 0x4000_0000 <= s * Pow2(NormL(s)) <= MAX_32
    ensures LShl(s, NormL(s)) == s * Pow2(NormL(s))
  {
    hide LShl, NormL;
    RootArgumentRange(s);
    NormalizeExact(s);
    MulSign(s, Pow2(NormL(s)));
  }

  lemma MantissaNear(s: Word32)
    requires s > 0
    ensures var a := s * Pow2(NormL(s));
            && a - 0xffff <= 0x1_0000 * (GainIn(s) as int) <= a + 0x8000
            && a - 0x1_0000 <= 0x2_0000 * (GainOut(s) as int) <= a + 0x1_0000
  {
    hide LShl, NormL;
    NormalisedEnergy(s);
    HalfMantissa(s);
    RoundedMantissas(s * Pow2(NormL(s)));
  }

  lemma RoundedMantissas(a: Word32)
    requires 0x4000_0000 <= a
    ensures a - 0xffff <= 0x1_0000 * (Round(a) as int) <= a + 0x8000
    ensures a - 0x1_0000 <= 0x2_0000 * (Round((a as int) / 2) as int) <= a + 0x1_0000
  {
  }

  /** The quotient is 2^14 a / b up to 5 / 2^14. */
  lemma QuotientNear(x: Word16, y: Word16, a: int, b: int)
    requires 8192 <= x <= 16384 <= y && DivSDefined(x, y)
    requires 0x4000_0000 <= a && 0x4000_0000 <= b <= MAX_32
    requires a - 0x1_0000 <= 0x2_0000 * (x as int) <= a + 0x1_0000
    requires b - 0xffff <= 0x1_0000 * (y as int) <= b + 0x8000
    ensures 16379 * a <= Times(Quotient(x, y), b) <= 16387 * a
  {
    hide Quotient;
    var q := Quotient(x, y);
    QuotientTimes(x, y);
    MulMono(b, 0x1_0000 * (y as int) + 0xffff, q);
    MulMono(0x1_0000 * (y as int) - 0x8000, b, q);
    Outside(q, y);
    TimesCommutes(q, b);
  }

  lemma QuotientTimes(x: Word16, y: Word16)
    requires 0 < x && 16384 <= y && DivSDefined(x, y) && x <= 16384
    ensures 0x8000 * (x as int) - y <= Times(Quotient(x, y), y) <= 0x8000 * (x as int)
  {
    var q := Quotient(x, y);
    assert (q + 1) * (y as int) == q * (y as int) + y;
  }

  lemma Outside(q: int, y: int)
    ensures (0x1_0000 * y + 0xffff) * q == 0x1_0000 * Times(q, y) + 0xffff * q
    ensures (0x1_0000 * y - 0x8000) * q == 0x1_0000 * Times(q, y) - 0x8000 * q
  {
    assert y * q == q * y;
  }

  lemma TimesCommutes(q: int, b: int)
    ensures b * q == Times(q, b)
  {
  }

  // ----- with the exponents -----

  /** The argument of the inverse root. */
  function Ratio(sOut: Word32, sIn: Word32): Word32
    requires sOut > 0 && sIn > 0
  {
    MantissaRanges(sOut, sIn);
    LShr(LShl(Quotient(GainOut(sOut), GainIn(sIn)), 7), Sub(Sub(NormL(sOut), 1), NormL(sIn)))
  }

  /** A left or right shift of 128 q by e = m - 1 - n places, compared through the powers. */
  lemma ShiftedQuotient(q: Word16, m: nat, n: nat)
    requires 0 <= q && m <= 30 && n <= 30
    ensures var x := LShr(LShl(q, 7), Sub(Sub(m, 1), n));
            && 0 <= x && Times(x, Pow2(m)) <= 256 * Times(q, Pow2(n))
            && (x == MAX_32 || 256 * Times(q, Pow2(n)) <= Times(x as int + 1, Pow2(m)))
  {
    hide LShl, LShr, Sub, Pow2, Asr, Times;
    Hundred28(q);
    ShiftBy(LShl(q, 7), m, n);
    if m >= n + 1 { ShiftedRight(q, m, n); } else { ShiftedLeft(q, m, n); }
  }

  lemma ShiftedRight(q: Word16, m: nat, n: nat)
    requires 0 <= q && n < m <= 30
    ensures var x := Asr(128 * (q as int), m - n - 1);
            0 <= x && Times(x, Pow2(m)) <= 256 * Times(q, Pow2(n)) <= Times(x + 1, Pow2(m))
  {
    hide Pow2, Asr, Times;
    Pow2Split(m - n - 1, n + 1);
    DoublePower(n);
    AsrTimes(128 * (q as int), m - n - 1, Pow2(n), Pow2(m), q);
  }

  lemma ShiftedLeft(q: Word16, m: nat, n: nat)
    requires 0 <= q && m <= n <= 30
    ensures var x := LShl(128 * (q as int), n + 1 - m);
            && 0 <= x && Times(x, Pow2(m)) <= 256 * Times(q, Pow2(n))
            && (x == MAX_32 || 256 * Times(q, Pow2(n)) <= Times(x as int + 1, Pow2(m)))
  {
    hide Pow2, LShl, Times, Sat32;
    Pow2Split(n + 1 - m, m);
    DoublePower(n);
    LShlSaturates(128 * (q as int), n + 1 - m);
    SaturatedTimes(128 * (q as int), Pow2(n + 1 - m), Pow2(m), Pow2(n), q);
  }

  lemma ShiftBy(x: Word32, m: nat, n: nat)
    requires m <= 30 && n <= 30
    ensures LShr(x, Sub(Sub(m, 1), n)) == if m >= n + 1 then Asr(x, m - n - 1) else LShl(x, n + 1 - m)
  {
    hide LShl;
    assert Sub(Sub(m, 1), n) == m - 1 - n;
  }

  lemma Hundred28(q: Word16)
    requires 0 <= q
    ensures LShl(q, 7) == 128 * (q as int)
  {
    hide LShl;
    LShlSaturates(q, 7);
    assert Pow2(7) == 128;
  }

  lemma DoublePower(n: nat)
    ensures Pow2(n + 1) == 2 * Pow2(n)
  {
  }

  lemma AsrTimes(v: Word32, e: nat, p: int, pm: int, q: int)
    requires v == 128 * q && q >= 0 && p >= 1 && pm == Pow2(e) * (2 * p)
    ensures var x := Asr(v, e);
            0 <= x && Times(x, pm) <= 256 * Times(q, p) <= Times(x + 1, pm)
  {
    hide Pow2;
    AsrBounds(v, e);
    var x, d := Asr(v, e), Pow2(e);
    assert v == x * d + v % d;
    assert (x + 1) * d == x * d + d;
    hide Times, Asr;
    MulMono(x * d, v, 2 * p);
    MulMono(v, (x + 1) * d, 2 * p);
    Regroup3(x, d, p);
    Regroup3(x + 1, d, p);
    Eight(q, p);
  }

  lemma Eight(q: int, p: int)
    ensures 128 * q * (2 * p) == 256 * Times(q, p)
  {
  }

  lemma Regroup3(x: int, d: int, p: int)
    ensures (x * d) * (2 * p) == Times(x, d * (2 * p))
  {
    assert (x * d) * (2 * p) == x * (d * (2 * p));
  }

  lemma SaturatedTimes(v: int, d: int, pm: int, p: int, q: int)
    requires v == 128 * q && q >= 0 && d >= 1 && pm >= 1 && d * pm == 2 * p
    ensures var x := Sat32(v * d);
            && 0 <= x && Times(x, pm) <= 256 * Times(q, p)
            && (x == MAX_32 || 256 * Times(q, p) <= Times(x as int + 1, pm))
  {
    var w := v * d;
    MulMono(0, v, d);
    MulMono(Sat32(w), w, pm);
    assert w * pm == v * (2 * p) by { assert w * pm == v * (d * pm); }
    assert v * (2 * p) == 256 * (q * p);
    assert (Sat32(w) as int + 1) * pm == (Sat32(w) as int) * pm + pm;
  }

  /** The argument is 2^22 times the ratio of the energies, rounded down. */
  lemma RatioNear(sOut: Word32, sIn: Word32)
    requires sOut > 0 && sIn > 0
    ensures var x := Ratio(sOut, sIn);
            && 0 <= x && Times(x, sIn) <= 256 * 16387 * (sOut as int)
            && (x == MAX_32 || 256 * 16379 * (sOut as int) <= Times(x as int + 1, sIn))
  {
    hide GainOut, GainIn, Quotient, NormL, LShl, LShr, Times, Pow2;
    MantissaRanges(sOut, sIn);
    NormalisedEnergy(sOut);
    NormalisedEnergy(sIn);
    MantissaNear(sOut);
    MantissaNear(sIn);
    var m, n := NormL(sOut), NormL(sIn);
    var q := Quotient(GainOut(sOut), GainIn(sIn));
    QuotientNear(GainOut(sOut), GainIn(sIn), sOut * Pow2(m), sIn * Pow2(n));
    ShiftedQuotient(q, m, n);
    Unscaled(Ratio(sOut, sIn), sOut, sIn, q, Pow2(m), Pow2(n));
  }

  /** The powers cancel: x 2^m is 256 q 2^n and q sIn 2^n is 2^14 sOut 2^m. */
  lemma Unscaled(x: Word32, sOut: int, sIn: int, q: int, pm: int, pn: int)
    requires x >= 0 && sOut > 0 && sIn > 0 && q >= 0 && pm >= 1 && pn >= 1
    requires 16379 * (sOut * pm) <= Times(q, sIn * pn) <= 16387 * (sOut * pm)
    requires Times(x, pm) <= 256 * Times(q, pn)
    requires x == MAX_32 || 256 * Times(q, pn) <= Times(x as int + 1, pm)
    ensures Times(x, sIn) <= 256 * 16387 * sOut
    ensures x == MAX_32 || 256 * 16379 * sOut <= Times(x as int + 1, sIn)
  {
    assert Times(q, sIn * pn) == Times(q, pn) * sIn by { assert q * (sIn * pn) == (q * pn) * sIn; }
    hide Times;
    UnscaledAbove(x, sOut, sIn, Times(q, pn), pm);
    if x != MAX_32 { UnscaledBelow(x as int + 1, sOut, sIn, Times(q, pn), pm); }
  }

  lemma UnscaledAbove(x: int, sOut: int, sIn: int, w: int, pm: int)
    requires sIn > 0 && pm >= 1 && w * sIn <= 16387 * (sOut * pm) && Times(x, pm) <= 256 * w
    ensures Times(x, sIn) <= 256 * 16387 * sOut
  {
    MulMono(x * pm, 256 * w, sIn);
    assert (x * pm) * sIn == (x * sIn) * pm;
    assert (256 * w) * sIn == 256 * (w * sIn);
    Cancelled(x * sIn, 256 * 16387 * sOut, pm);
  }

  lemma UnscaledBelow(y: int, sOut: int, sIn: int, w: int, pm: int)
    requires sIn > 0 && pm >= 1 && 16379 * (sOut * pm) <= w * sIn && 256 * w <= Times(y, pm)
    ensures 256 * 16379 * sOut <= Times(y, sIn)
  {
    MulMono(256 * w, y * pm, sIn);
    assert (y * pm) * sIn == (y * sIn) * pm;
    assert (256 * w) * sIn == 256 * (w * sIn);
    Cancelled(256 * 16379 * sOut, y * sIn, pm);
  }

  lemma Cancelled(a: int, b: int, p: int)
    requires p >= 1
    ensures a * p <= b * p ==> a <= b
  {
    if a > b { MulMono(b + 1, a, p); }
  }

  // ----- the gain -----

  /** Rounding the root to Q12. */
  lemma GainOfRoot(r: Word32)
    requires 0 <= r
    ensures var g := Round(LShl(r, 9));
            && 0 <= g && 64 * (2 * (g as int) - 1) <= r
            && (g == MAX_16 || r + 1 <= 64 * (2 * (g as int) + 1))
  {
    hide LShl;
    LShlSaturates(r, 9);
    assert Pow2(9) == 512;
    RoundedRoot(r);
  }

  lemma RoundedRoot(r: Word32)
    requires 0 <= r
    ensures var g := Round(Sat32(r * 512));
            && 0 <= g && 64 * (2 * (g as int) - 1) <= r
            && (g == MAX_16 || r + 1 <= 64 * (2 * (g as int) + 1))
  {
  }

  lemma GainIs(sOut: Word32, sIn: Word32)
    requires sOut > 0 && sIn > 0
    ensures RawGain(sOut, sIn) == Round(LShl(InvSqrt(Ratio(sOut, sIn)), 9))
  {
    hide GainOut, GainIn, Quotient, NormL, LShl, LShr, InvSqrt, Round;
  }

  /** The gain is sqrt(sIn / sOut) in Q12: not too small, unless it is clipped ... */
  lemma GainNotBelow(sOut: Word32, sIn: Word32)
    requires sOut > 0 && sIn > 0
    ensures var g := RawGain(sOut, sIn) as int;
            g == MAX_16 || Times(0x100_0000_0000 - 0x400_0000, sIn) <= Times(Squared(2 * g + 1) * 16387, sOut)
  {
    hide InvSqrt, Ratio, LShl, Round, Squared, Times, RawGain;
    RatioNear(sOut, sIn);
    GainIs(sOut, sIn);
    var x := Ratio(sOut, sIn);
    InvSqrtRange(x);
    GainOfRoot(InvSqrt(x));
    if RawGain(sOut, sIn) != MAX_16 {
      if x == 0 { NoRoot(); } else {
        InvSqrtNear(x);
        LowerChain(RawGain(sOut, sIn), InvSqrt(x), x, sOut, sIn);
      }
    }
  }

  /** For the argument 0 the root is the largest there is, and the gain is clipped. */
  lemma NoRoot()
    ensures Round(LShl(InvSqrt(0), 9)) == MAX_16
  {
    hide LShl;
    LShlSaturates(0x3fff_ffff, 9);
    assert Pow2(9) == 512;
  }

  lemma LowerChain(g: int, r: int, x: int, sOut: int, sIn: int)
    requires g >= 0 && 0 <= r && r + 1 <= 64 * (2 * g + 1) && x > 0 && sOut > 0 && sIn > 0
    requires 0x1000_0000_0000_0000 - 0x4000_0000_0000 <= Squared(r + 1) * x
    requires Times(x, sIn) <= 256 * 16387 * sOut
    ensures Times(0x100_0000_0000 - 0x400_0000, sIn) <= Times(Squared(2 * g + 1) * 16387, sOut)
  {
    hide Squared;
    var s, t := Squared(r + 1), Squared(2 * g + 1);
    SquareGrows(r + 1, 64 * (2 * g + 1));
    SquareOf64(2 * g + 1);
    SquareGrows(0, 2 * g + 1);
    MulMono(s, 4096 * t, x);
    MulMono(0x1000_0000_0000_0000 - 0x4000_0000_0000, 4096 * t * x, sIn);
    MulMono(x * sIn, 256 * 16387 * sOut, 4096 * t);
    assert (4096 * t * x) * sIn == (x * sIn) * (4096 * t);
    assert (256 * 16387 * sOut) * (4096 * t) == 0x10_0000 * ((t * 16387) * sOut);
  }

  lemma SquareOf64(a: int)
    ensures Squared(64 * a) == 4096 * Squared(a)
  {
  }

  /** ... and not too large, unless the output energy is more than 511 times the input energy. */
  lemma GainNotAbove(sOut: Word32, sIn: Word32)
    requires sOut > 0 && sIn > 0 && sOut as int <= 511 * (sIn as int)
    ensures var g := RawGain(sOut, sIn) as int;
            Times(Squared(2 * g - 1) * 16379, sOut) <= Times(0x4000_0000 * 1028, sIn)
  {
    hide InvSqrt, Ratio, LShl, Round, Squared, Times, RawGain;
    RatioNear(sOut, sIn);
    GainIs(sOut, sIn);
    var x, g := Ratio(sOut, sIn), RawGain(sOut, sIn);
    InvSqrtRange(x);
    GainOfRoot(InvSqrt(x));
    GainFloor(sOut, sIn);
    assert x != MAX_32 by { NotClipped(sIn, sOut); }
    if x > 0 {
      InvSqrtNear(x);
      SquareGrows(64 * (2 * (g as int) - 1), InvSqrt(x));
      MulMono(Squared(64 * (2 * (g as int) - 1)), Squared(InvSqrt(x)), x);
    }
    UpperChain(g, x, sOut, sIn);
  }

  lemma NotClipped(sIn: int, sOut: int)
    requires sOut <= 511 * sIn && sIn > 0
    ensures Times(MAX_32, sIn) > 256 * 16387 * sOut
  {
  }

  lemma UpperChain(g: int, x: int, sOut: int, sIn: int)
    requires 1 <= g <= MAX_16 && x >= 0 && sOut > 0 && sIn > 0
    requires Squared(64 * (2 * g - 1)) * x <= 0x1000_0000_0000_0000 / 1024 * 1027
    requires 256 * 16379 * sOut <= Times(x + 1, sIn)
    ensures Times(Squared(2 * g - 1) * 16379, sOut) <= Times(0x4000_0000 * 1028, sIn)
  {
    hide Squared;
    var t, s := Squared(2 * g - 1), Squared(64 * (2 * g - 1));
    SquareOf64(2 * g - 1);
    SquareGrows(0, 2 * g - 1);
    SquareGrows(2 * g - 1, 0x1_0000);
    SquareOf(0x1_0000);
    assert s * (x + 1) == s * x + s;
    MulMono(256 * 16379 * sOut, (x + 1) * sIn, s);
    assert ((x + 1) * sIn) * s == (s * (x + 1)) * sIn;
    MulMono(s * (x + 1), 0x1000_0000_0000_0000 / 1024 * 1028, sIn);
    assert (256 * 16379 * sOut) * s == 0x10_0000 * ((t * 16379) * sOut);
  }

  /** No gain is below 181 / 4096: the argument of the root is clipped first. */
  lemma GainFloor(sOut: Word32, sIn: Word32)
    requires sOut > 0 && sIn > 0
    ensures RawGain(sOut, sIn) >= 181
  {
    hide InvSqrt, Ratio, LShl, Round, Squared, RawGain;
    GainIs(sOut, sIn);
    RatioNear(sOut, sIn);
    var x := Ratio(sOut, sIn);
    var r := InvSqrt(x);
    InvSqrtRange(x);
    GainOfRoot(r);
    if x == 0 { NoRoot(); } else {
      InvSqrtNear(x);
      if r < 23169 {
        SquareGrows(r + 1, 23169);
        SquareOf(23169);
        MulMono(Squared(r + 1), 23169 * 23169, x);
        MulMono(x, 0x8000_0000, 23169 * 23169);
      }
    }
  }

  // ----- the prescaled energy -----

  lemma QuarteredSquare(x: Word16)
    ensures var q := (x as int) / 4; var e := x * x - 16 * (q * q);
            -(q * q + 2340) <= 4 * e <= q * q + 2340
  {
    var q, r := (x as int) / 4, (x as int) % 4;
    assert x == 4 * q + r;
    assert x * x == 16 * (q * q) + 8 * (q * r) + r * r;
    SquareGrows(0, if q < 48 then 48 - q else q - 48);
    assert (q - 48) * (q - 48) == q * q - 96 * q + 2304;
    assert (q + 48) * (q + 48) == q * q + 96 * q + 2304;
    SquareOf(if q < 48 then 48 - q else q - 48);
    NonNegativeSquare(q - 48);
    NonNegativeSquare(q + 48);
    SmallFactor(q, r);
  }

  lemma NonNegativeSquare(a: int)
    ensures a * a >= 0
  {
    if a >= 0 { MulMono(0, a, a); } else { MulMono(0, -a, -a); }
  }

  lemma SmallFactor(q: int, r: int)
    requires 0 <= r <= 3
    ensures 0 <= r * r <= 9 && (q >= 0 ==> 0 <= q * r <= 3 * q) && (q < 0 ==> 3 * q <= q * r <= 0)
  {
    MulMono(r, 3, r);
    if q >= 0 { MulMono(r, 3, q); MulMono(0, r, q); } else { MulMono(r, 3, -q); MulMono(0, r, -q); }
  }

  /** Dividing every sample by four leaves a sixteenth of the energy, within 1 / 64 of it and
      the rounding of small samples. */
  lemma {:induction false} QuarterEnergy(x: seq<Word16>, n: nat)
    requires n <= |x|
    ensures var e, q := Autocorrelation.Energy(x, n), Autocorrelation.Energy(Quarter(x), n);
            -(q as int + 2340 * n) <= 4 * (e - 16 * q) <= q + 2340 * n
  {
    if n > 0 {
      QuarterEnergy(x, n - 1);
      QuarterAt(x, n - 1);
      QuarteredSquare(x[n - 1]);
    }
  }

  lemma QuarterAt(x: seq<Word16>, i: nat)
    requires i < |x|
    ensures Quarter(x)[i] as int == (x[i] as int) / 4
  {
    assert Pow2(2) == 4 by { assert Pow2(1) == 2; }
  }

  // ----- whole calls -----

  /** g is sqrt(sIn / sOut) in Q12, within the bounds above; 0 for a silent input. */
  ghost predicate MatchingGain(g: int, sOut: int, sIn: int) {
    if sIn == 0 then g == 0
    else
      && (g == MAX_16 || Times(0x100_0000_0000 - 0x400_0000, sIn) <= Times(Squared(2 * g + 1) * 16387, sOut))
      && (sOut <= 511 * sIn ==> Times(Squared(2 * g - 1) * 16379, sOut) <= Times(0x4000_0000 * 1028, sIn))
      && g >= 181
  }

  lemma RawGainMatches(sOut: Word32, sIn: Word32)
    requires sOut > 0 && sIn >= 0
    ensures MatchingGain(RawGain(sOut, sIn), sOut, sIn)
  {
    hide RawGain, Times, Squared;
    if sIn == 0 {
      NoInput(sOut);
    } else {
      GainNotBelow(sOut, sIn);
      if sOut as int <= 511 * (sIn as int) { GainNotAbove(sOut, sIn); }
      GainFloor(sOut, sIn);
    }
  }

  lemma NoInput(sOut: Word32)
    requires sOut > 0
    ensures RawGain(sOut, 0) == 0
  {
    hide GainOut, GainIn;
  }

  /** Sample x amplified by g / 4096. */
  function Scaled(x: int, g: int): Word16 { Sat16(Times(x, g) / 4096) }

  lemma AmplifyScales(x: Word16, g: Word16)
    requires 0 <= g
    ensures Amplify(x, g) == Scaled(x, g)
  {
    hide Amplify;
    AmplifyIs(x, g);
  }

  /** A whole call of agc2: the output is left alone if its sum of squares is below 8, and is
      otherwise multiplied by one gain that matches the energies of output and input. */
  lemma Agc2Means(input: seq<Word16>, output: seq<Word16>, n: nat) returns (g: Word16)
    requires 1 <= n <= |input| && n <= |output| && n <= MAX_16
    ensures var y := Agc2Result(input, output, n);
      if Autocorrelation.Energy(output, n) < 8 then y == output
      else
        && MatchingGain(g, SignalEnergy(output, n), SignalEnergy(input, n))
        && |y| == |output|
        && forall i :: 0 <= i < |y| ==> y[i] == if i < n then Scaled(output[i], g) else output[i]
  {
    hide SignalEnergy, RawGain, Amplify, Scaled, MatchingGain;
    SilentIffTiny(output, n);
    SilentIffTiny(input, n);
    g := 0;
    var sOut := SignalEnergy(output, n);
    if sOut != 0 {
      g := RawGain(sOut, SignalEnergy(input, n));
      RawGainMatches(sOut, SignalEnergy(input, n));
      RawGainNonNegative(sOut, SignalEnergy(input, n));
      forall i | 0 <= i < n ensures Amplify(output[i], g) == Scaled(output[i], g) {
        AmplifyScales(output[i], g);
      }
    }
  }

  function Gains(past: Word16, fac: Word16, g0: Word16, n: nat): (gs: seq<int>)
    ensures |gs| == n + 1
  {
    seq(n + 1, i requires 0 <= i < n + 1 => Gain(past, fac, g0, i) as int)
  }

  /** A whole call of agc: the gain first moves towards the matching one, by the share
      1 - fac, and then multiplies the sample; the last gain is stored. */
  lemma AgcMeans(past: Word16, input: seq<Word16>, output: seq<Word16>, fac: Word16, n: nat)
    returns (g: Word16, gs: seq<int>)
    requires 1 <= n <= |input| && n <= |output| && n <= MAX_16 && 0 <= past && 0 <= fac
    ensures var r := AgcResult(past, input, output, fac, n);
      if Autocorrelation.Energy(output, n) < 8 then r == AgcOutcome(output, 0)
      else
        && MatchingGain(g, SignalEnergy(output, n), SignalEnergy(input, n))
        && |gs| == n + 1 && gs[0] == past as int && r.pastGain as int == gs[n]
        && (forall i :: 0 <= i < n ==>
              gs[i + 1] == Times(gs[i], fac) / 0x8000 + Times(g, 32767 - fac as int) / 0x8000)
        && |r.signal| == |output|
        && forall i :: 0 <= i < |output| ==>
             r.signal[i] == if i < n then Scaled(output[i], gs[i + 1]) else output[i]
  {
    hide SignalEnergy, RawGain, Amplify, Scaled, MatchingGain, NextGain, Times, Smoothing, G0;
    SilentIffTiny(output, n);
    SilentIffTiny(input, n);
    g, gs := 0, [];
    var sOut := SignalEnergy(output, n);
    if sOut != 0 {
      var sIn := SignalEnergy(input, n);
      g := RawGain(sOut, sIn);
      RawGainMatches(sOut, sIn);
      RawGainNonNegative(sOut, sIn);
      var g0 := G0(sOut, sIn, fac);
      NewPart(sOut, sIn, fac);
      SmoothingFrom(past, sOut, sIn, fac);
      gs := Gains(past, fac, g0, n);
      forall i | 0 <= i < n
        ensures gs[i + 1] == Times(gs[i], fac) / 0x8000 + Times(g, 32767 - fac as int) / 0x8000
        ensures Amplify(output[i], Gain(past, fac, g0, i + 1)) == Scaled(output[i], gs[i + 1])
      {
        OneSample(past, fac, g0, i);
        AmplifyScales(output[i], Gain(past, fac, g0, i + 1));
      }
    }
  }

  lemma NewPart(sOut: Word32, sIn: Word32, fac: Word16)
    requires sOut > 0 && sIn >= 0 && 0 <= fac
    ensures G0(sOut, sIn, fac) as int == Times(RawGain(sOut, sIn), 32767 - fac as int) / 0x8000
  {
    hide RawGain;
    RawGainNonNegative(sOut, sIn);
    var i, d := RawGain(sOut, sIn), 32767 - fac as int;
    MulBounds(i, d, 32767, 32767);
  }

  lemma SmoothingFrom(past: Word16, sOut: Word32, sIn: Word32, fac: Word16)
    requires sOut > 0 && sIn >= 0 && 0 <= fac && 0 <= past
    ensures Smoothing(past, fac, G0(sOut, sIn, fac))
  {
    hide G0;
    SmoothingHolds(sOut, sIn, fac);
  }

  lemma OneSample(past: Word16, fac: Word16, g0: Word16, i: nat)
    requires Smoothing(past, fac, g0)
    ensures Gain(past, fac, g0, i + 1) as int == Times(Gain(past, fac, g0, i), fac) / 0x8000 + g0
    ensures Gain(past, fac, g0, i + 1) >= 0
  {
    hide NextGain;
    GainMonotone(past, fac, g0, i);
    GainStep(Gain(past, fac, g0, i), fac, g0);
  }
}
