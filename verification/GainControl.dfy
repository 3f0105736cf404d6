/** Automatic gain control (agc, agc2): signal energy with a prescaled fallback, the gain
    from the energy ratio, and the smoothed gain that is applied in place. */
module GainControl {
  import opened FixedPoint
  import opened Kernel
  import opened InverseRoot
  import Autocorrelation

  const AGC_FAC: Word16 := 29491

  // ----- energies -----

  /** The accumulation loop: saturating multiply-accumulate from the first sample on. */
  function EnergySum(x: seq<Word16>, n: nat): Word32
    requires 1 <= n <= |x|
  {
    if n == 1 then LMult(x[0], x[0]) else LMac(EnergySum(x, n - 1), x[n - 1], x[n - 1])
  }

  function Quarter(x: seq<Word16>): (q: seq<Word16>)
    ensures |q| == |x|
  {
    seq(|x|, i requires 0 <= i < |x| => Shr(x[i], 2))
  }

  /** energy_new: an eighth of the sum of squares, or the prescaled sum if that overflowed. */
  function SignalEnergy(x: seq<Word16>, n: nat): Word32
    requires 1 <= n <= |x|
  {
    if LSub(EnergySum(x, n), MAX_32) == 0 then EnergySum(Quarter(x), n) else LShr(EnergySum(x, n), 4)
  }

  lemma {:induction false} SumSaturates(x: seq<Word16>, n: nat)
    requires 1 <= n <= |x|
    ensures EnergySum(x, n) == Sat32(2 * Autocorrelation.Energy(x, n))
  {
    hide Autocorrelation.Product, LMac, LMult, Sat32;
    if n == 1 {
      assert Autocorrelation.Energy(x, 0) == 0;
      FirstSquare(x[0]);
    } else {
      SumSaturates(x, n - 1);
      NextSquare(EnergySum(x, n - 1), Autocorrelation.Energy(x, n - 1), x[n - 1]);
    }
  }

  lemma FirstSquare(a: Word16)
    ensures LMult(a, a) == Sat32(2 * Autocorrelation.Product(a, a))
  {
  }

  lemma NextSquare(acc: Word32, e: nat, a: Word16)
    requires acc == Sat32(2 * e)
    ensures LMac(acc, a, a) == Sat32(2 * (e + Autocorrelation.Product(a, a)))
  {
    hide Autocorrelation.Product, LMult;
    FirstSquare(a);
    Autocorrelation.SquareNonNegative(a);
  }

  /** The saturated value is odd and every exact double sum is even, so the test for
      MAX_32 recognises saturation exactly. */
  lemma SignalEnergyIs(x: seq<Word16>, n: nat)
    requires 1 <= n <= |x|
    ensures SignalEnergy(x, n) ==
            if 2 * Autocorrelation.Energy(x, n) <= MAX_32
            then Autocorrelation.Energy(x, n) / 8
            else Sat32(2 * Autocorrelation.Energy(Quarter(x), n))
  {
    hide Autocorrelation.Energy, EnergySum;
    SumSaturates(x, n);
    SumSaturates(Quarter(x), n);
    assert Pow2(4) == 16;
  }

  /** The gain is only left alone for signals whose sum of squares is below 8: overflowing
      signals never look silent after the prescaling. */
  lemma SilentIffTiny(x: seq<Word16>, n: nat)
    requires 1 <= n <= |x| && n <= MAX_16
    ensures SignalEnergy(x, n) >= 0
    ensures SignalEnergy(x, n) == 0 <==> Autocorrelation.Energy(x, n) < 8
  {
    hide SignalEnergy;
    SignalEnergyIs(x, n);
    if Autocorrelation.Energy(Quarter(x), n) == 0 {
      QuarterSilent(x, n);
    }
  }

  /** Samples that a shift by 2 turns into 0 are at most 3. */
  lemma {:induction false} QuarterSilent(x: seq<Word16>, n: nat)
    requires n <= |x| && Autocorrelation.Energy(Quarter(x), n) == 0
    ensures Autocorrelation.Energy(x, n) <= 9 * n
  {
    if n > 0 {
      var y, z := x[n - 1], Quarter(x)[n - 1];
      Autocorrelation.SquareNonNegative(z);
      QuarterSilent(x, n - 1);
      assert Pow2(2) == 4;
      if z != 0 { SquarePositive(z); }
      MulBounds(y, y, 3, 3);
    }
  }

  lemma SquarePositive(z: int)
    requires z != 0
    ensures Autocorrelation.Product(z, z) > 0
  {
    if z > 0 { MulMono(1, z, z); } else { MulMono(1, -z, -z); }
  }

  method EnergyOld(x: array<Word16>, n: nat) returns (s: Word32)
    requires 1 <= n <= x.Length
    ensures s == EnergySum(Quarter(x[..]), n)
  {
    hide LMult, LMac, Shr;
    var temp := Shr(x[0], 2);
    s := LMult(temp, temp);
    for i := 1 to n
      invariant s == EnergySum(Quarter(x[..]), i)
    {
      temp := Shr(x[i], 2);
      s := LMac(s, temp, temp);
    }
  }

  method EnergyNew(x: array<Word16>, n: nat) returns (s: Word32)
    requires 1 <= n <= x.Length
    ensures s == SignalEnergy(x[..], n)
  {
    hide LMult, LMac, LShr, LSub, Quarter;
    s := LMult(x[0], x[0]);
    for i := 1 to n
      invariant s == EnergySum(x[..], i)
    {
      s := LMac(s, x[i], x[i]);
    }
    if LSub(s, MAX_32) == 0 {
      s := EnergyOld(x, n);
    } else {
      s := LShr(s, 4);
    }
  }

  // ----- the gain of a subframe -----

  function GainOut(s: Word32): Word16
    requires s > 0
  {
    RootArgumentRange(s);
    Round(LShl(s, Sub(NormL(s), 1)))
  }

  function GainIn(s: Word32): Word16
    requires s > 0
  {
    Round(LShl(s, NormL(s)))
  }

  /** The two mantissas never cross, so div_s is never called out of its range. */
  lemma MantissaRanges(sOut: Word32, sIn: Word32)
    requires sOut > 0 && sIn > 0
    ensures 8192 <= GainOut(sOut) <= 16384 <= GainIn(sIn) <= 32767
    ensures DivSDefined(GainOut(sOut), GainIn(sIn))
    ensures NormL(sOut) <= 30 && NormL(sIn) <= 30
  {
    OutMantissa(sOut);
    InMantissa(sIn);
  }

  lemma OutMantissa(s: Word32)
    requires s > 0
    ensures 8192 <= GainOut(s) <= 16384 && NormL(s) <= 30
  {
    hide LShl, NormL;
    HalfMantissa(s);
  }

  lemma InMantissa(s: Word32)
    requires s > 0
    ensures 16384 <= GainIn(s) && NormL(s) <= 30
  {
    hide LShl, NormL;
    HalfMantissa(s);
  }

  /** Shifting one place less than norm_l says halves the normalised value. */
  lemma HalfMantissa(s: Word32)
    requires s > 0
    ensures NormL(s) <= 30
    ensures LShl(s, Sub(NormL(s), 1)) == LShl(s, NormL(s)) as int / 2
    ensures 0x4000_0000 <= LShl(s, NormL(s))
  {
    hide LShl, NormL;
    RootArgumentRange(s);
    NormalizeExact(s);
    var n := NormL(s);
    MulSign(s, Pow2(n));
    if n == 0 {
      ShiftByMinusOne(s);
      assert Pow2(0) == 1;
    } else {
      HalfShift(s, n);
    }
  }

  lemma HalfShift(s: Word32, n: nat)
    requires 1 <= n <= 31 && 0 <= s * Pow2(n) <= MAX_32
    ensures LShl(s, n - 1) == s * Pow2(n) / 2
  {
    hide LShl;
    LShlSaturates(s, n - 1);
    Halves(s, Pow2(n - 1));
  }

  lemma Halves(s: int, p: int)
    requires 0 <= s * (2 * p) <= MAX_32
    ensures s * p == s * (2 * p) / 2 && 0 <= s * p <= MAX_32
  {
    ShiftOnce(s, p);
    assert 2 * s * p == 2 * (s * p);
  }

  lemma ShiftByMinusOne(s: Word32)
    ensures LShl(s, -1) == (s as int) / 2
    ensures LShr(s, -1) == LShl(s, 1)
  {
    assert Pow2(1) == 2 by { assert Pow2(0) == 1; }
  }

  /** sqrt(input energy / output energy) in Q12; 0 when there is no input. */
  function RawGain(sOut: Word32, sIn: Word32): Word16
    requires sOut > 0 && sIn >= 0
  {
    if sIn == 0 then 0
    else
      MantissaRanges(sOut, sIn);
      var exp := Sub(Sub(NormL(sOut), 1), NormL(sIn));
      var q := LShl(Quotient(GainOut(sOut), GainIn(sIn)), 7);
      Round(LShl(InvSqrt(LShr(q, exp)), 9))
  }

  lemma RawGainNonNegative(sOut: Word32, sIn: Word32)
    requires sOut > 0 && sIn >= 0
    ensures RawGain(sOut, sIn) >= 0
  {
    hide InvSqrt, Quotient, GainOut, GainIn;
    if sIn > 0 {
      MantissaRanges(sOut, sIn);
      var exp := Sub(Sub(NormL(sOut), 1), NormL(sIn));
      var y := InvSqrt(LShr(LShl(Quotient(GainOut(sOut), GainIn(sIn)), 7), exp));
      InvSqrtRange(LShr(LShl(Quotient(GainOut(sOut), GainIn(sIn)), 7), exp));
      LShlSaturates(y, 9);
      MulMono(0, y, Pow2(9));
    }
  }

  /** The part of the gain that is new in each sample. */
  function G0(sOut: Word32, sIn: Word32, fac: Word16): Word16
    requires sOut > 0 && sIn >= 0
  {
    Mult(RawGain(sOut, sIn), Sub(32767, fac))
  }

  // ----- the smoothed gain -----

  function NextGain(g: Word16, fac: Word16, g0: Word16): Word16 { Add(Mult(g, fac), g0) }

  /** The gain after n samples. */
  function Gain(g: Word16, fac: Word16, g0: Word16, n: nat): Word16 {
    if n == 0 then g else NextGain(Gain(g, fac, g0, n - 1), fac, g0)
  }

  /** One output sample; the gain is in Q12. */
  function Amplify(x: Word16, g: Word16): Word16 { ExtractH(LShl(LMult(x, g), 3)) }

  /** The first n samples amplified by the moving gain, the rest as they were. */
  function Smoothed(x: seq<Word16>, g: Word16, fac: Word16, g0: Word16, n: nat): (y: seq<Word16>)
    requires n <= |x|
    ensures |y| == |x|
  {
    seq(|x|, i requires 0 <= i < |x| => if i < n then Amplify(x[i], Gain(g, fac, g0, i + 1)) else x[i])
  }

  function Amplified(x: seq<Word16>, g: Word16, n: nat): (y: seq<Word16>)
    requires n <= |x|
    ensures |y| == |x|
  {
    seq(|x|, i requires 0 <= i < |x| => if i < n then Amplify(x[i], g) else x[i])
  }

  /** What a whole call of agc2 leaves in the output signal. */
  function Agc2Result(input: seq<Word16>, output: seq<Word16>, n: nat): (y: seq<Word16>)
    requires 1 <= n <= |input| && n <= |output| && n <= MAX_16
    ensures |y| == |output|
  {
    SilentIffTiny(output, n);
    SilentIffTiny(input, n);
    var sOut := SignalEnergy(output, n);
    if sOut == 0 then output else Amplified(output, RawGain(sOut, SignalEnergy(input, n)), n)
  }

  datatype AgcOutcome = AgcOutcome(signal: seq<Word16>, pastGain: Word16)

  /** What a whole call of agc leaves in the output signal and in the state. */
  function AgcResult(past: Word16, input: seq<Word16>, output: seq<Word16>, fac: Word16, n: nat): AgcOutcome
    requires 1 <= n <= |input| && n <= |output| && n <= MAX_16
  {
    SilentIffTiny(output, n);
    SilentIffTiny(input, n);
    var sOut := SignalEnergy(output, n);
    if sOut == 0 then AgcOutcome(output, 0)
    else
      var g0 := G0(sOut, SignalEnergy(input, n), fac);
      AgcOutcome(Smoothed(output, past, fac, g0, n), Gain(past, fac, g0, n))
  }

  /** The gain computation shared by agc and agc2. */
  method ComputeRawGain(sOut: Word32, sIn: Word32) returns (g: Word16)
    requires sOut > 0 && sIn >= 0
    ensures g == RawGain(sOut, sIn)
  {
    hide InvSqrt, LShr, LShl, NormL;
    RootArgumentRange(sOut);
    var exp := Sub(NormL(sOut), 1);
    var gainOut := Round(LShl(sOut, exp));
    if sIn == 0 {
      g := 0;
    } else {
      MantissaRanges(sOut, sIn);
      var i := NormL(sIn);
      var gainIn := Round(LShl(sIn, i));
      exp := Sub(exp, i);
      var q := DivS(gainOut, gainIn);
      var s := LShl(q, 7);
      s := LShr(s, exp);
      s := InvSqrt(s);
      g := Round(LShl(s, 9));
    }
  }

  class AgcState {
    var pastGain: Word16

    /** agc_reset: 1.0 in Q12. */
    constructor ()
      ensures pastGain == 4096
    {
      pastGain := 4096;
    }

    method Agc(sigIn: array<Word16>, sigOut: array<Word16>, fac: Word16, n: nat)
      requires 1 <= n <= sigIn.Length && n <= sigOut.Length && n <= MAX_16
      modifies this, sigOut
      ensures var r := AgcResult(old(pastGain), old(sigIn[..]), old(sigOut[..]), fac, n);
              sigOut[..] == r.signal && pastGain == r.pastGain
    {
      hide SignalEnergy, RawGain, NextGain, Amplify, Sub, Mult;
      SilentIffTiny(sigOut[..], n);
      SilentIffTiny(sigIn[..], n);
      var sOut := EnergyNew(sigOut, n);
      if sOut == 0 {
        pastGain := 0;
        return;
      }
      var sIn := EnergyNew(sigIn, n);
      var i := ComputeRawGain(sOut, sIn);
      var g0 := Mult(i, Sub(32767, fac));
      var gain := pastGain;
      for i := 0 to n
        invariant gain == Gain(pastGain, fac, g0, i)
        invariant pastGain == old(pastGain)
        invariant sigOut[..] == Smoothed(old(sigOut[..]), pastGain, fac, g0, i)
      {
        gain := NextGain(gain, fac, g0);
        sigOut[i] := Amplify(sigOut[i], gain);
      }
      pastGain := gain;
    }
  }

  method Agc2(sigIn: array<Word16>, sigOut: array<Word16>, n: nat)
    requires 1 <= n <= sigIn.Length && n <= sigOut.Length && n <= MAX_16
    modifies sigOut
    ensures sigOut[..] == Agc2Result(old(sigIn[..]), old(sigOut[..]), n)
  {
    hide SignalEnergy, RawGain, Amplify;
    SilentIffTiny(sigOut[..], n);
    SilentIffTiny(sigIn[..], n);
    var sOut := EnergyNew(sigOut, n);
    if sOut == 0 {
      return;
    }
    var sIn := EnergyNew(sigIn, n);
    var g0 := ComputeRawGain(sOut, sIn);
    for i := 0 to n
      invariant sigOut[..] == Amplified(old(sigOut[..]), g0, i)
    {
      sigOut[i] := Amplify(sigOut[i], g0);
    }
  }

  // ----- how the gain moves -----

  predicate Smoothing(g: int, fac: int, g0: int) {
    0 <= g <= 32767 && 0 <= fac <= 32767 && 0 <= g0 <= 32767 - fac
  }

  /** Whatever the energies, g0 leaves room for the smoothed part. */
  lemma SmoothingHolds(sOut: Word32, sIn: Word32, fac: Word16)
    requires sOut > 0 && sIn >= 0 && 0 <= fac
    ensures Smoothing(0, fac, G0(sOut, sIn, fac))
  {
    hide RawGain;
    RawGainNonNegative(sOut, sIn);
    var i := RawGain(sOut, sIn);
    var d: int := 32767 - fac;
    MulMono(i, 32768, d);
    MulMono(0, i, d);
  }

  /** The step never saturates: it is the rounded-down convex combination. */
  lemma GainStep(g: Word16, fac: Word16, g0: Word16)
    requires Smoothing(g, fac, g0)
    ensures NextGain(g, fac, g0) == Autocorrelation.Product(g, fac) / 0x8000 + g0
    ensures Smoothing(NextGain(g, fac, g0), fac, g0)
  {
    MulMono(0, g, fac);
    MulMono(g, 32767, fac);
    assert 32767 * (fac as int) / 0x8000 <= fac;
    DivMono((g as int) * fac, 32767 * (fac as int), 0x8000);
  }

  /** A larger gain stays at least as large. */
  lemma GainStepMonotone(g: Word16, h: Word16, fac: Word16, g0: Word16)
    requires Smoothing(g, fac, g0) && Smoothing(h, fac, g0) && g <= h
    ensures NextGain(g, fac, g0) <= NextGain(h, fac, g0)
  {
    hide NextGain;
    GainStep(g, fac, g0);
    GainStep(h, fac, g0);
    MulMono(g, h, fac);
    DivMono(Autocorrelation.Product(g, fac), Autocorrelation.Product(h, fac), 0x8000);
  }

  /** A gain is a fixed point exactly when it lies within one unit below the ideal
      g0 / (1 - fac); below the band it rises, above it falls. */
  lemma GainTendency(g: Word16, fac: Word16, g0: Word16)
    requires Smoothing(g, fac, g0)
    ensures var d := Autocorrelation.Product(g, 0x8000 - fac);
            && (NextGain(g, fac, g0) >= g <==> d <= g0 * 0x8000)
            && (NextGain(g, fac, g0) <= g <==> (g0 - 1) * 0x8000 < d)
  {
    hide NextGain;
    GainStep(g, fac, g0);
    var p := Autocorrelation.Product(g, fac);
    assert Autocorrelation.Product(g, 0x8000 - fac) == (g as int) * 0x8000 - p;
  }

  /** From any start the gain moves in one direction only. */
  lemma {:induction false} GainMonotone(g: Word16, fac: Word16, g0: Word16, n: nat)
    requires Smoothing(g, fac, g0)
    ensures Smoothing(Gain(g, fac, g0, n), fac, g0)
    ensures NextGain(g, fac, g0) >= g ==> Gain(g, fac, g0, n + 1) >= Gain(g, fac, g0, n)
    ensures NextGain(g, fac, g0) <= g ==> Gain(g, fac, g0, n + 1) <= Gain(g, fac, g0, n)
  {
    hide NextGain, Smoothing;
    if n > 0 {
      GainMonotone(g, fac, g0, n - 1);
      var h := Gain(g, fac, g0, n - 1);
      GainStep(h, fac, g0);
      GainStep(Gain(g, fac, g0, n), fac, g0);
      if NextGain(g, fac, g0) >= g { GainStepMonotone(h, NextGain(h, fac, g0), fac, g0); }
      if NextGain(g, fac, g0) <= g { GainStepMonotone(NextGain(h, fac, g0), h, fac, g0); }
    } else {
      assert Gain(g, fac, g0, 1) == NextGain(Gain(g, fac, g0, 0), fac, g0);
    }
  }

  /** The ideal gain g0 / (1 - fac), rounded up, or the past gain if that is larger,
      is never exceeded. */
  lemma {:induction false} GainBounded(g: Word16, fac: Word16, g0: Word16, n: nat, b: int)
    requires Smoothing(g, fac, g0) && g <= b && g0 * 0x8000 <= Autocorrelation.Product(b, 0x8000 - fac)
    ensures Gain(g, fac, g0, n) <= b
  {
    hide NextGain;
    if n > 0 {
      GainBounded(g, fac, g0, n - 1, b);
      GainMonotone(g, fac, g0, n - 1);
      var h := Gain(g, fac, g0, n - 1);
      GainStep(h, fac, g0);
      MulMono(h, b, fac);
      assert Autocorrelation.Product(b, 0x8000 - fac) == b * 0x8000 - b * fac;
    }
  }

  /** After 2^15 samples at the latest the gain no longer changes. */
  lemma GainSettles(g: Word16, fac: Word16, g0: Word16, n: nat)
    requires Smoothing(g, fac, g0) && n >= 0x8000
    ensures Gain(g, fac, g0, n + 1) == Gain(g, fac, g0, n)
  {
    hide NextGain, Smoothing;
    GainMonotone(g, fac, g0, n);
    if Gain(g, fac, g0, n + 1) != Gain(g, fac, g0, n) {
      Travelled(g, fac, g0, n);
      GainMonotone(g, fac, g0, 0);
      InRange(g, fac, g0, Gain(g, fac, g0, n));
      assert false;
    }
  }

  lemma InRange(g: Word16, fac: Word16, g0: Word16, h: Word16)
    requires Smoothing(g, fac, g0) && Smoothing(h, fac, g0)
    ensures 0 <= g <= 32767 && 0 <= h <= 32767
  {
  }

  /** While the gain still moves it has moved by at least one unit in every sample. */
  lemma {:induction false} Travelled(g: Word16, fac: Word16, g0: Word16, n: nat)
    requires Smoothing(g, fac, g0) && Gain(g, fac, g0, n + 1) != Gain(g, fac, g0, n)
    ensures NextGain(g, fac, g0) >= g ==> Gain(g, fac, g0, n) >= g + n
    ensures NextGain(g, fac, g0) <= g ==> Gain(g, fac, g0, n) <= g - n
  {
    hide NextGain, Smoothing;
    if n > 0 {
      assert Gain(g, fac, g0, n + 1) == NextGain(Gain(g, fac, g0, n), fac, g0);
      assert Gain(g, fac, g0, n) == NextGain(Gain(g, fac, g0, n - 1), fac, g0);
      Travelled(g, fac, g0, n - 1);
      GainMonotone(g, fac, g0, n - 1);
      GainMonotone(g, fac, g0, n);
    }
  }

  /** What agc relies on from frame to frame: the stored gain never becomes negative. */
  lemma PastGainKept(past: Word16, input: seq<Word16>, output: seq<Word16>, fac: Word16, n: nat)
    requires 1 <= n <= |input| && n <= |output| && n <= MAX_16 && 0 <= past && 0 <= fac
    ensures 0 <= AgcResult(past, input, output, fac, n).pastGain
  {
    hide SignalEnergy, G0, Gain;
    SilentIffTiny(output, n);
    SilentIffTiny(input, n);
    var sOut, sIn := SignalEnergy(output, n), SignalEnergy(input, n);
    if sOut != 0 {
      SmoothingHolds(sOut, sIn, fac);
      GainMonotone(past, fac, G0(sOut, sIn, fac), n);
    }
  }

  // ----- what the gain does to the samples -----

  /** With a gain that is not negative, the three operators together multiply by g / 4096
      and clip to 16 bits. */
  lemma AmplifyIs(x: Word16, g: Word16)
    requires 0 <= g
    ensures Amplify(x, g) == Sat16(Autocorrelation.Product(x, g) / 4096)
  {
    var p := (x as int) * g;
    MulBounds(x, g, 32768, 32767);
    assert LMult(x, g) == 2 * p;
    LShlSaturates(2 * p, 3);
    assert Pow2(3) == 8;
    ClipHigh(p);
  }

  lemma ClipHigh(p: int)
    ensures Sat32(16 * p) as int / 0x1_0000 == Sat16(p / 4096)
  {
  }

  // ----- equal energies -----

  /** Rounding the mantissa and its half: the quotient is 1/2 up to one unit. */
  lemma HalfQuotient(s: Word32)
    requires s > 0
    ensures DivSDefined(GainOut(s), GainIn(s))
    ensures 16383 <= Quotient(GainOut(s), GainIn(s)) <= 16384
  {
    hide LShl, Quotient, NormL;
    MantissaRanges(s, s);
    HalfMantissa(s);
    var a, b := GainOut(s), GainIn(s);
    var q := Quotient(a, b);
    assert b - 1 <= 2 * (a as int) <= b + 1;
    assert b == 16384 ==> a == 8192;
    QuotientRange(a, b, q);
  }

  lemma QuotientRange(a: Word16, b: Word16, q: Word16)
    requires DivSDefined(a, b) && q == Quotient(a, b)
    requires 16384 <= b && 8192 <= a <= 16384 && b - 1 <= 2 * (a as int) <= b + 1 && (b == 16384 ==> a == 8192)
    ensures 16383 <= q <= 16384
  {
    assert (q as int) * b <= (a as int) * 0x8000 < (q + 1) * (b as int);
    if q <= 16382 { MulMono(q + 1, 16383, b); }
    if q >= 16385 { MulMono(16385, q, b); }
  }

  lemma RootNearUnity(q: Word16)
    requires 16383 <= q <= 16384
    ensures Round(LShl(InvSqrt(LShr(LShl(q, 7), -1)), 9)) == 4096
  {
    hide InvSqrt, LShl, LShr, Round;
    ShiftedQuotient(q);
    if q == 16384 { RootOfUnity(); } else { RootBelowUnity(); }
  }

  lemma ShiftedQuotient(q: Word16)
    requires 16383 <= q <= 16384
    ensures LShr(LShl(q, 7), -1) == (q as int) * 256
  {
    hide LShl, Pow2;
    SmallPowers();
    LShlSaturates(q, 7);
    ShiftByMinusOne((q as int) * 128);
    LShlSaturates((q as int) * 128, 1);
  }

  lemma RootOfUnity()
    ensures Round(LShl(InvSqrt(16384 * 256), 9)) == 4096
  {
    hide LShl, Interpolated, Pow2;
    SmallPowers();
    NormAt(16384 * 256, 8);
    EntryAt(0x2000_0000);
    LShlSaturates(32767 * 16, 9);
  }

  lemma RootBelowUnity()
    ensures Round(LShl(InvSqrt(16383 * 256), 9)) == 4096
  {
    hide LShl, Interpolated, Pow2;
    SmallPowers();
    NormAt(16383 * 256, 9);
    EntryAt(16383 * 256 * 512);
    LShlSaturates(524304, 9);
  }

  lemma NormAt(x: Word32, n: nat)
    requires x > 0 && n <= 31 && Normalized(x * Pow2(n))
    ensures NormL(x) == n && LShl(x, n) == x * Pow2(n)
  {
    NormUnique(x, n);
    LShlSaturates(x, n);
  }

  lemma SmallPowers()
    ensures Pow2(1) == 2 && Pow2(7) == 128 && Pow2(8) == 256 && Pow2(9) == 512 && Pow2(11) == 2048 && Pow2(12) == 4096
  {
    assert Pow2(4) == 16;
    assert Pow2(8) == 256;
  }

  lemma EntryAt(m: Word32)
    requires m == 0x2000_0000 || m == 2147352576
    ensures Interpolated(m) == if m == 0x2000_0000 then 32767 * 0x1_0000 else 1073775104
  {
    hide Root, LMsu, Sub, LDepositH;
    LastEntries();
    EntriesCombined(Root(1));
    if m == 0x2000_0000 {
      assert (m as int) / 0x200_0000 - 16 == 0 && (m as int) / 0x400 % 0x8000 == 0;
    } else {
      assert (m as int) / 0x200_0000 - 16 == 47 && (m as int) / 0x400 % 0x8000 == 32640;
    }
  }

  lemma EntriesCombined(r: Word16)
    ensures LMsu(LDepositH(32767), Sub(32767, r), 0) == 32767 * 0x1_0000
    ensures LMsu(LDepositH(16514), Sub(16514, 16384), 32640) == 1073775104
  {
  }

  lemma LastEntries()
    ensures Root(0) == 32767 && Root(47) == 16514 && Root(48) == 16384
  {
  }

  /** Equal energies give exactly 1.0. */
  lemma UnityGain(s: Word32)
    requires s > 0
    ensures RawGain(s, s) == 4096
  {
    hide Quotient, GainOut, GainIn, LShl, LShr, InvSqrt;
    MantissaRanges(s, s);
    HalfQuotient(s);
    RootNearUnity(Quotient(GainOut(s), GainIn(s)));
  }

  /** agc2 is transparent: a signal matched against itself, or against any signal of the
      same energy, comes out unchanged. */
  lemma Agc2Transparent(input: seq<Word16>, output: seq<Word16>, n: nat)
    requires 1 <= n <= |input| && n <= |output| && n <= MAX_16
    requires SignalEnergy(input, n) == SignalEnergy(output, n)
    ensures Agc2Result(input, output, n) == output
  {
    hide SignalEnergy, RawGain, Amplify;
    SilentIffTiny(output, n);
    var s := SignalEnergy(output, n);
    if s != 0 {
      UnityGain(s);
      forall i | 0 <= i < n
        ensures Amplify(output[i], 4096) == output[i]
      {
        AmplifyIs(output[i], 4096);
      }
    }
  }

  /** agc is not, for any factor: the two parts of a unit gain are rounded down
      separately and always lose one unit, so equal energies never leave it at 1.0. */
  lemma UnityDrifts(s: Word32, fac: Word16)
    requires s > 0 && 0 <= fac
    ensures NextGain(4096, fac, G0(s, s, fac)) == 4095
  {
    hide RawGain;
    UnityGain(s);
    EighthsLoseOne(fac);
  }

  lemma EighthsLoseOne(fac: Word16)
    requires 0 <= fac
    ensures Mult(4096, fac) == (fac as int) / 8
    ensures Mult(4096, 32767 - fac) == (32767 - fac as int) / 8
    ensures (fac as int) / 8 + (32767 - fac as int) / 8 == 4095
  {
  }

  /** And from there it never comes back. */
  lemma UnityIsLost(s: Word32, fac: Word16, n: nat)
    requires s > 0 && 0 <= fac && n >= 1
    ensures Gain(4096, fac, G0(s, s, fac), n) <= 4095
  {
    hide RawGain, NextGain, G0;
    SmoothingHolds(s, s, fac);
    UnityDrifts(s, fac);
    NeverAbove(fac, G0(s, s, fac), n);
  }

  lemma {:induction false} NeverAbove(fac: Word16, g0: Word16, n: nat)
    requires Smoothing(4096, fac, g0) && NextGain(4096, fac, g0) == 4095 && n >= 1
    ensures Gain(4096, fac, g0, n) <= 4095
  {
    hide NextGain;
    assert Gain(4096, fac, g0, 0) == 4096;
    if n > 1 {
      NeverAbove(fac, g0, n - 1);
      GainMonotone(4096, fac, g0, n - 1);
    }
  }

  /** With the factor in use, 0.9, it slides to 4089 / 4096 in seven samples. */
  lemma DriftSettles(s: Word32, n: nat)
    requires s > 0 && n >= 7
    ensures Gain(4096, AGC_FAC, G0(s, s, AGC_FAC), n) == 4089
  {
    hide RawGain, Gain;
    UnityGain(s);
    StayAt4089(n);
  }

  lemma Slide(g: Word16, h: Word16)
    requires 4089 <= g <= 4096 && h == (if g > 4089 then g as int - 1 else 4089)
    ensures NextGain(g, AGC_FAC, 409) == h
  {
  }

  lemma FirstSeven()
    ensures Gain(4096, AGC_FAC, 409, 7) == 4089
  {
    hide NextGain;
    assert Gain(4096, AGC_FAC, 409, 1) == 4095 by { Slide(4096, 4095); }
    assert Gain(4096, AGC_FAC, 409, 2) == 4094 by { Slide(4095, 4094); }
    assert Gain(4096, AGC_FAC, 409, 3) == 4093 by { Slide(4094, 4093); }
    assert Gain(4096, AGC_FAC, 409, 4) == 4092 by { Slide(4093, 4092); }
    assert Gain(4096, AGC_FAC, 409, 5) == 4091 by { Slide(4092, 4091); }
    assert Gain(4096, AGC_FAC, 409, 6) == 4090 by { Slide(4091, 4090); }
    Slide(4090, 4089);
  }

  lemma {:induction false} StayAt4089(n: nat)
    requires n >= 7
    ensures Gain(4096, AGC_FAC, 409, n) == 4089
  {
    hide NextGain;
    if n == 7 {
      FirstSeven();
    } else {
      StayAt4089(n - 1);
      Slide(4089, 4089);
    }
  }
}
