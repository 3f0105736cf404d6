/** Pitch sharpening around the codebook searches (code_2i40_11bits and its siblings): the
    impulse response is sharpened in place before the search, the code vector after it.
    Why the two belong together, and how far 16-bit arithmetic follows. */
module PitchSharpening {
  import opened FixedPoint
  import opened Kernel

  const L_CODE := 40

  // ----- the loop as it runs -----

  /** h[i] after the loop: a feedback comb filter, as earlier samples are already done. */
  function Sharpened(h: seq<Word16>, t: nat, sharp: Word16, i: nat): Word16
    requires t >= 1 && i < |h|
    decreases i
  {
    if i < t then h[i] else Add(h[i], Mult(Sharpened(h, t, sharp, i - t), sharp))
  }

  function SharpenedAll(h: seq<Word16>, t: nat, sharp: Word16): seq<Word16>
    requires t >= 1
  {
    seq(|h|, i requires 0 <= i < |h| => Sharpened(h, t, sharp, i))
  }

  /** The sharpening loop, for h[] before and for code[] after the search. */
  method Sharpen(h: array<Word16>, t: nat, sharp: Word16)
    requires h.Length == L_CODE && t >= 1
    modifies h
    ensures h[..] == SharpenedAll(old(h[..]), t, sharp)
  {
    hide Add, Mult;
    if t < L_CODE {
      for i := t to L_CODE
        invariant forall j :: 0 <= j < i ==> h[j] == Sharpened(old(h[..]), t, sharp, j)
        invariant forall j :: i <= j < L_CODE ==> h[j] == old(h[j])
      {
        h[i] := Add(h[i], Mult(h[i - t], sharp));
      }
    }
    assert h[..] == SharpenedAll(old(h[..]), t, sharp);
  }

  /** c2_9pf.c doubles the gain with a plain shift, the others with a saturating one. */
  function SharpPlain(pitchSharp: Word16): Word16 { Wrap16(2 * (pitchSharp as int)) }

  function SharpSaturating(pitchSharp: Word16): Word16 { Shl(pitchSharp, 1) }

  lemma SameSharpness(pitchSharp: Word16)
    ensures SharpPlain(pitchSharp) == SharpSaturating(pitchSharp) <==> -16384 <= pitchSharp <= 16383
  {
    ShlSaturates(pitchSharp, 1);
    assert Pow2(1) == 2 by { assert Pow2(0) == 1; }
  }

  // ----- the same filter in exact arithmetic -----

  /** a / (1 - g z^-t), sample i. */
  function Comb(a: seq<real>, t: nat, g: real, i: nat): real
    requires t >= 1 && i < |a|
    decreases i
  {
    if i < t then a[i] else a[i] + Times(g, Comb(a, t, g, i - t))
  }

  function Times(x: real, y: real): real { x * y }

  function CombAll(a: seq<real>, t: nat, g: real): (c: seq<real>)
    requires t >= 1
    ensures |c| == |a|
  {
    seq(|a|, i requires 0 <= i < |a| => Comb(a, t, g, i))
  }

  /** The first k terms of sample n of the convolution. */
  function Partial(a: seq<real>, b: seq<real>, n: nat, k: nat): real
    requires k <= n + 1 && n < |a| && n < |b|
  {
    if k == 0 then 0.0 else Partial(a, b, n, k - 1) + Times(a[k - 1], b[n - (k - 1)])
  }

  function Conv(a: seq<real>, b: seq<real>, n: nat): real
    requires n < |a| && n < |b|
  {
    Partial(a, b, n, n + 1)
  }

  lemma Distribute(x: real, y: real, z: real)
    ensures Times(x + y, z) == Times(x, z) + Times(y, z)
    ensures Times(x, y + z) == Times(x, y) + Times(x, z)
    ensures Times(x, y) == Times(y, x)
  {
  }

  lemma Reassociate(g: real, x: real, z: real)
    ensures Times(Times(g, x), z) == Times(g, Times(x, z))
  {
  }

  lemma {:induction false} PartialReversed(a: seq<real>, b: seq<real>, n: nat, k: nat)
    requires k <= n + 1 && n < |a| && n < |b|
    ensures Partial(a, b, n, k) + Partial(b, a, n, n + 1 - k) == Conv(b, a, n)
  {
    hide Times;
    if k > 0 {
      PartialReversed(a, b, n, k - 1);
      Distribute(a[k - 1], b[n - (k - 1)], 0.0);
    }
  }

  lemma ConvCommutes(a: seq<real>, b: seq<real>, n: nat)
    requires n < |a| && n < |b|
    ensures Conv(a, b, n) == Conv(b, a, n)
  {
    PartialReversed(a, b, n, n + 1);
  }

  /** Filtering one factor first adds the delayed, scaled product. */
  lemma {:induction false} PartialOfComb(a: seq<real>, b: seq<real>, t: nat, g: real, n: nat, k: nat)
    requires t >= 1 && k <= n + 1 && n < |a| && n < |b|
    ensures Partial(CombAll(a, t, g), b, n, k)
         == Partial(a, b, n, k) + if k > t then Times(g, Partial(CombAll(a, t, g), b, n - t, k - t)) else 0.0
  {
    hide Times, CombAll;
    var c := CombAll(a, t, g);
    if k > 0 {
      PartialOfComb(a, b, t, g, n, k - 1);
      var j := k - 1;
      assert c[j] == Comb(a, t, g, j) by { CombAt(a, t, g, j); }
      if k > t {
        assert c[j - t] == Comb(a, t, g, j - t) by { CombAt(a, t, g, j - t); }
        Distribute(a[j], Times(g, c[j - t]), b[n - j]);
        Reassociate(g, c[j - t], b[n - j]);
        Distribute(g, Partial(c, b, n - t, k - 1 - t), Times(c[j - t], b[n - j]));
        NoTerms(g);
      }
    }
  }

  lemma NoTerms(g: real)
    ensures Times(g, 0.0) == 0.0
  {
  }

  lemma CombAt(a: seq<real>, t: nat, g: real, i: nat)
    requires t >= 1 && i < |a|
    ensures CombAll(a, t, g)[i] == Comb(a, t, g, i)
  {
  }

  function ConvAll(a: seq<real>, b: seq<real>): (c: seq<real>)
    requires |a| == |b|
    ensures |c| == |a|
  {
    seq(|a|, n requires 0 <= n < |a| => Conv(a, b, n))
  }

  /** The comb filter may be applied to a factor or to the product. */
  lemma {:induction false} CombOfConv(a: seq<real>, b: seq<real>, t: nat, g: real, n: nat)
    requires t >= 1 && |a| == |b| && n < |a|
    ensures Conv(CombAll(a, t, g), b, n) == Comb(ConvAll(a, b), t, g, n)
    decreases n
  {
    hide Times, CombAll, Partial;
    PartialOfComb(a, b, t, g, n, n + 1);
    if n >= t { CombOfConv(a, b, t, g, n - t); }
  }

  /** Sharpening the impulse response before the search and sharpening the code after it
      are the same thing, for every lag, gain, code and impulse response. */
  lemma SharpenEitherSide(code: seq<real>, h: seq<real>, t: nat, g: real, n: nat)
    requires t >= 1 && |code| == |h| && n < |h|
    ensures Conv(code, CombAll(h, t, g), n) == Conv(CombAll(code, t, g), h, n)
  {
    hide CombAll, Comb, Conv;
    ConvCommutes(code, CombAll(h, t, g), n);
    CombOfConv(h, code, t, g, n);
    CombOfConv(code, h, t, g, n);
    assert ConvAll(h, code) == ConvAll(code, h) by {
      forall i | 0 <= i < |h|
        ensures Conv(h, code, i) == Conv(code, h, i)
      {
        ConvCommutes(h, code, i);
      }
    }
  }

  // ----- the filtered pulses, as build_code adds them up -----

  datatype Pulse = Pulse(position: nat, sign: real)

  /** The code vector with the pulses in it, coincident ones added. */
  function Placed(pulses: seq<Pulse>): (c: seq<real>)
    ensures |c| == L_CODE
  {
    if pulses == [] then seq(L_CODE, _ => 0.0)
    else
      var p := pulses[|pulses| - 1];
      var c := Placed(pulses[..|pulses| - 1]);
      if p.position < L_CODE then c[p.position := c[p.position] + p.sign] else c
  }

  /** Sample n of the sum of the shifted and signed impulse responses; h is zero before its
      start. */
  function PulseResponse(pulses: seq<Pulse>, h: seq<real>, n: nat): real
    requires n < |h|
  {
    if pulses == [] then 0.0
    else
      var p := pulses[|pulses| - 1];
      PulseResponse(pulses[..|pulses| - 1], h, n) + if p.position <= n then Times(p.sign, h[n - p.position]) else 0.0
  }

  lemma {:induction false} PartialOfSum(a: seq<real>, b: seq<real>, i: nat, d: real, n: nat, k: nat)
    requires k <= n + 1 && n < |a| && n < |b| && i < |a|
    ensures Partial(a[i := a[i] + d], b, n, k) == Partial(a, b, n, k) + if i < k then Times(d, b[n - i]) else 0.0
  {
    hide Times;
    if k > 0 {
      PartialOfSum(a, b, i, d, n, k - 1);
      if i == k - 1 { Distribute(a[i], d, b[n - i]); }
    }
  }

  lemma {:induction false} PartialOfZeros(a: seq<real>, b: seq<real>, n: nat, k: nat)
    requires k <= n + 1 && n < |a| && n < |b|
    requires forall i :: 0 <= i < |a| ==> a[i] == 0.0
    ensures Partial(a, b, n, k) == 0.0
  {
    if k > 0 { PartialOfZeros(a, b, n, k - 1); }
  }

  lemma {:induction false} ResponseIsConv(pulses: seq<Pulse>, h: seq<real>, n: nat)
    requires |h| == L_CODE && n < L_CODE
    ensures PulseResponse(pulses, h, n) == Conv(Placed(pulses), h, n)
  {
    hide Times, Partial;
    if pulses == [] {
      PartialOfZeros(Placed([]), h, n, n + 1);
    } else {
      var p := pulses[|pulses| - 1];
      var front := pulses[..|pulses| - 1];
      ResponseIsConv(front, h, n);
      if p.position < L_CODE { PartialOfSum(Placed(front), h, p.position, p.sign, n, n + 1); }
    }
  }

  /** What build_code computes from the sharpened response is the sharpened code filtered
      by the original response. */
  lemma SearchedIsTransmitted(pulses: seq<Pulse>, h: seq<real>, t: nat, g: real, n: nat)
    requires |h| == L_CODE && n < L_CODE && t >= 1
    ensures PulseResponse(pulses, CombAll(h, t, g), n) == Conv(CombAll(Placed(pulses), t, g), h, n)
  {
    hide CombAll, Conv, Placed, PulseResponse;
    ResponseIsConv(pulses, CombAll(h, t, g), n);
    SharpenEitherSide(Placed(pulses), h, t, g, n);
  }

  // ----- how far the 16-bit loop follows the exact filter -----

  function AsReals(h: seq<Word16>): (r: seq<real>)
    ensures |r| == |h|
  {
    seq(|h|, i requires 0 <= i < |h| => h[i] as real)
  }

  /** No addition in the loop leaves 16 bits. */
  predicate Unsaturated(h: seq<Word16>, t: nat, sharp: Word16)
    requires t >= 1
  {
    forall i :: t <= i < |h| ==>
      MIN_16 <= h[i] as int + Mult(Sharpened(h, t, sharp, i - t), sharp) as int <= MAX_16
  }

  /** Each pass through the feedback loses less than one unit, always downwards. */
  lemma {:induction false} SharpeningError(h: seq<Word16>, t: nat, sharp: Word16, i: nat)
    requires t >= 1 && i < |h| && 0 <= sharp && Unsaturated(h, t, sharp)
    ensures var exact := Comb(AsReals(h), t, sharp as real / 32768.0, i);
            var fixed := Sharpened(h, t, sharp, i) as real;
            fixed <= exact <= fixed + (i / t) as real
    decreases i
  {
    hide Mult, Times, AsReals, Add;
    AsRealAt(h, i);
    if i >= t {
      var before := Sharpened(h, t, sharp, i - t);
      var exact := Comb(AsReals(h), t, sharp as real / 32768.0, i - t);
      SharpeningError(h, t, sharp, i - t);
      StepError(before, sharp, exact, (i - t) / t);
      OneMore(i, t);
      PlainSum(h[i], Mult(before, sharp));
    }
  }

  lemma PlainSum(a: Word16, b: Word16)
    ensures MIN_16 <= a as int + b as int <= MAX_16 ==> Add(a, b) as real == a as real + b as real
  {
  }

  lemma AsRealAt(h: seq<Word16>, i: nat)
    requires i < |h|
    ensures AsReals(h)[i] == h[i] as real
  {
  }

  lemma OneMore(i: nat, t: nat)
    requires t >= 1 && i >= t
    ensures i / t == (i - t) / t + 1
  {
    var q := (i - t) / t;
    assert i - t == q * t + (i - t) % t;
    assert (q + 1) * t == q * t + t;
    EuclidUnique(i, t, q + 1, (i - t) % t);
  }

  lemma StepError(x: Word16, sharp: Word16, exact: real, q: nat)
    requires 0 <= sharp && x as real <= exact <= x as real + q as real
    ensures var m := Mult(x, sharp) as real;
            m <= Times(sharp as real / 32768.0, exact) <= m + (q + 1) as real
  {
    var g := sharp as real / 32768.0;
    var p := (x as int) * sharp;
    MultExact(x, sharp);
    assert Times(g, x as real) == p as real / 32768.0;
    Monotone(g, x as real, exact);
    Monotone(g, exact, x as real + q as real);
    Distribute(g, x as real, q as real);
    Monotone(q as real, g, 1.0);
    Distribute(q as real, g, 0.0);
  }

  lemma MultExact(x: Word16, sharp: Word16)
    requires 0 <= sharp
    ensures Mult(x, sharp) == (x as int) * sharp / 32768
  {
    MulBounds(x, sharp, 32768, 32767);
  }

  lemma Monotone(k: real, x: real, y: real)
    requires 0.0 <= k && x <= y
    ensures Times(k, x) <= Times(k, y)
  {
  }

  /** Pitch lags are at least 20 in the modes concerned: with a response below one half
      nothing saturates and every sample is within one unit. */
  lemma OneUnitAtPitchLags(h: seq<Word16>, t: nat, sharp: Word16, i: nat)
    requires |h| == L_CODE && 20 <= t && 0 <= sharp && i < L_CODE
    requires forall j :: 0 <= j < |h| ==> -16384 <= h[j] <= 16383
    ensures var exact := Comb(AsReals(h), t, sharp as real / 32768.0, i);
            var fixed := Sharpened(h, t, sharp, i) as real;
            fixed <= exact <= fixed + 1.0
  {
    hide Unsaturated, Comb, Sharpened;
    assert Unsaturated(h, t, sharp) by { SmallIsUnsaturated(h, t, sharp); }
    SharpeningError(h, t, sharp, i);
    AtMostOnce(i, t);
  }

  lemma AtMostOnce(i: nat, t: nat)
    requires i < L_CODE && 20 <= t
    ensures i / t <= 1
  {
    if i >= t { OneMore(i, t); }
  }

  lemma SmallIsUnsaturated(h: seq<Word16>, t: nat, sharp: Word16)
    requires |h| == L_CODE && 20 <= t && 0 <= sharp
    requires forall j :: 0 <= j < |h| ==> -16384 <= h[j] <= 16383
    ensures Unsaturated(h, t, sharp)
  {
    hide Mult;
    forall j | t <= j < |h|
      ensures MIN_16 <= h[j] as int + Mult(Sharpened(h, t, sharp, j - t), sharp) as int <= MAX_16
    {
      assert Sharpened(h, t, sharp, j - t) == h[j - t];
      SmallProduct(h[j - t], sharp);
    }
  }

  lemma SmallProduct(x: Word16, sharp: Word16)
    requires -16384 <= x <= 16383 && 0 <= sharp
    ensures -16384 <= Mult(x, sharp) <= 16383
  {
    if x >= 0 { MulMono(0, sharp, x); MulMono(sharp, 32768, x); }
    else { MulMono(0, sharp, 0 - x); MulMono(sharp, 32768, 0 - x); }
  }
}
