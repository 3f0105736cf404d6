/** A_Refl: direct-form predictor coefficients (Q12) to reflection coefficients (Q15) by
    backward Levinson recursion, giving up on unstable filters. */
module Reflection {
  import opened FixedPoint
  import opened Kernel

  const M := 10

  datatype Option<T> = None | Some(value: T)

  // ----- one step down, as the code computes it -----

  /** 2^31 - 1 - 2 k^2: one minus the squared reflection coefficient. */
  function OneMinusSquare(k: Word16): Word32 { LSub(MAX_32, LMult(k, k)) }

  /** The code's reflection coefficients stay below one. */
  predicate InsideUnit(k: Word16) { -32760 <= k <= 32760 }

  function NormProd(k: Word16): Word16 {
    var acc := OneMinusSquare(k);
    Round(LShl(acc, NormL(acc)))
  }

  /** Everything div_s and the final shift rely on. */
  lemma Divisor(k: Word16)
    requires InsideUnit(k)
    ensures OneMinusSquare(k) >= 1048447
    ensures NormL(OneMinusSquare(k)) <= 11
    ensures 0x4000 <= NormProd(k) && DivSDefined(16384, NormProd(k))
  {
    hide LShl, LMult;
    var acc := OneMinusSquare(k);
    SquareBelow(k);
    NormalizeExact(acc);
    NormOfLarge(acc);
    assert acc * Pow2(NormL(acc)) > 0 by { MulSign(acc, Pow2(NormL(acc))); }
  }

  lemma SquareBelow(k: Word16)
    requires InsideUnit(k)
    ensures LMult(k, k) == 2 * (k * k) <= 2 * 32760 * 32760 && k * k >= 0
  {
    MulBounds(k, k, 32760, 32760);
    if k >= 0 { MulMono(0, k, k); } else { MulMono(0, 0 - k, 0 - k); }
  }

  lemma NormOfLarge(acc: Word32)
    requires acc >= 1048447
    ensures NormL(acc) <= 11
  {
    var n := NormL(acc);
    if n >= 12 {
      assert Pow2(12) == 4096;
      Pow2Mono(12, n);
      MulMono(1048447, acc, Pow2(n));
      MulMono(4096, Pow2(n), 1048447);
    }
  }

  /** Coefficient j of the filter one order lower, before the 16-bit check. */
  function Lowered(k: Word16, aj: Word16, mirror: Word16): Word32
    requires InsideUnit(k)
  {
    hide NormProd, OneMinusSquare, LMsu, Round, LShrR;
    Divisor(k);
    var temp := Round(LMsu(LDepositH(aj), k, mirror));
    LShrR(LMult(Quotient(16384, NormProd(k)), temp), Sub(15, NormL(OneMinusSquare(k))))
  }

  /** L_shr_r: shift right with rounding. */
  function LShrR(x: Word32, n: Word16): Word32
    requires 0 <= n
  {
    if n > 31 then 0
    else if n > 0 then
      RoundedShift(x, n);
      Asr(x, n) + Asr(x, n - 1) % 2
    else x
  }

  lemma RoundedShift(x: Word32, n: nat)
    requires 1 <= n
    ensures MIN_32 <= Asr(x, n) + Asr(x, n - 1) % 2 <= MAX_32
  {
    AsrHalves(x, n);
  }

  lemma AsrHalves(x: Word32, n: nat)
    requires 1 <= n
    ensures -0x4000_0000 <= Asr(x, n) < 0x4000_0000
  {
    var p := Pow2(n - 1);
    var q := x / (2 * p);
    assert x == q * (2 * p) + x % (2 * p);
    if q >= 0x4000_0000 { MulMono(0x4000_0000, q, 2 * p); MulMono(1, p, 0x8000_0000); }
    if q < -0x4000_0000 { MulMono(q, -0x4000_0001, 2 * p); MulMono(1, p, 0x8000_0002); }
  }

  /** The first n lowered coefficients, or None as soon as one does not fit 16 bits. */
  function LowerUpto(st: seq<Word16>, k: Word16, n: nat): (r: Option<seq<Word16>>)
    requires InsideUnit(k) && n < |st|
    ensures r.Some? ==> |r.value| == n
  {
    if n == 0 then Some([])
    else
      var r := LowerUpto(st, k, n - 1);
      if r.None? then None
      else
        var t := Lowered(k, st[n - 1], st[|st| - 1 - n]);
        if LSub(LAbs(t), 32767) > 0 then None else Some(r.value + [ExtractL(t)])
  }

  /** The coefficients of all orders up to |st|, or None when the code gives up. */
  function Refl(st: seq<Word16>): (r: Option<seq<Word16>>)
    ensures r.Some? ==> |r.value| == |st|
    decreases |st|
  {
    if st == [] then Some([])
    else
      var last := st[|st| - 1];
      if AbsS(last) >= 4096 then None
      else
        ShiftedCoefficient(last);
        var k := Shl(last, 3);
        var lower := LowerUpto(st, k, |st| - 1);
        if lower.None? then None
        else
          var r := Refl(lower.value);
          if r.None? then None else Some(r.value + [k])
  }

  lemma ShiftedCoefficient(x: Word16)
    requires AbsS(x) < 4096
    ensures Shl(x, 3) == 8 * x && InsideUnit(Shl(x, 3))
  {
    ShlSaturates(x, 3);
    assert Pow2(3) == 8;
  }

  // ----- the code -----

  /** The inner loop: one step down, or failure. */
  method StepDown(st: seq<Word16>, k: Word16) returns (ok: bool, lower: seq<Word16>)
    requires |st| >= 1 && InsideUnit(k)
    ensures LowerUpto(st, k, |st| - 1) == if ok then Some(lower) else None
  {
    hide Round, LMult, LMsu, LShrR, Quotient, OneMinusSquare, LShl, LAbs;
    Divisor(k);
    var acc := LSub(MAX_32, LMult(k, k));
    assert acc == OneMinusSquare(k) by { OneMinusSquareIs(k); }
    var normShift := NormL(acc);
    var scale := Sub(15, normShift);
    acc := LShl(acc, normShift);
    var normProd := Round(acc);
    var mult := DivS(16384, normProd);
    lower := [];
    ok := true;
    for j := 0 to |st| - 1
      invariant LowerUpto(st, k, j) == Some(lower)
    {
      acc := LDepositH(st[j]);
      acc := LMsu(acc, k, st[|st| - 2 - j]);
      var temp := Round(acc);
      var t := LMult(mult, temp);
      t := LShrR(t, scale);
      if LSub(LAbs(t), 32767) > 0 {
        StaysNone(st, k, j + 1, |st| - 1);
        ok := false;
        return;
      }
      lower := lower + [ExtractL(t)];
    }
  }

  lemma OneMinusSquareIs(k: Word16)
    ensures OneMinusSquare(k) == LSub(MAX_32, LMult(k, k))
  {
  }

  lemma {:induction false} StaysNone(st: seq<Word16>, k: Word16, m: nat, n: nat)
    requires InsideUnit(k) && m <= n < |st| && LowerUpto(st, k, m).None?
    ensures LowerUpto(st, k, n).None?
  {
    hide Lowered;
    if m < n { StaysNone(st, k, m, n - 1); }
  }

  method ARefl(a: seq<Word16>, refl: array<Word16>)
    requires |a| == M && refl.Length == M
    modifies refl
    ensures refl[..] == if Refl(a).Some? then Refl(a).value else seq(M, _ => 0)
  {
    hide LowerUpto, AbsS, Shl;
    var st := a;
    var i := M;
    while i > 0
      invariant 0 <= i <= M && |st| == i
      invariant Refl(a).Some? <==> Refl(st).Some?
      invariant Refl(a).Some? ==> Refl(a).value == Refl(st).value + refl[i..]
    {
      i := i - 1;
      if Sub(AbsS(st[i]), 4096) >= 0 {
        Zero(refl);
        return;
      }
      ShiftedCoefficient(st[i]);
      refl[i] := Shl(st[i], 3);
      var ok, lower := StepDown(st, refl[i]);
      if !ok {
        Zero(refl);
        return;
      }
      st := lower;
    }
    assert refl[0..] == refl[..];
  }

  method Zero(x: array<Word16>)
    modifies x
    ensures x[..] == seq(x.Length, _ => 0)
  {
    for i := 0 to x.Length
      invariant forall j :: 0 <= j < i ==> x[j] == 0
    {
      x[i] := 0;
    }
  }

  /** Unless the code gives up, every coefficient is below one in magnitude. */
  lemma {:induction false} ReflInsideUnit(st: seq<Word16>)
    ensures Refl(st).Some? ==> forall i :: 0 <= i < |st| ==> InsideUnit(Refl(st).value[i])
    decreases |st|
  {
    hide LowerUpto;
    if st != [] && AbsS(st[|st| - 1]) < 4096 {
      ShiftedCoefficient(st[|st| - 1]);
      var lower := LowerUpto(st, Shl(st[|st| - 1], 3), |st| - 1);
      if lower.Some? { ReflInsideUnit(lower.value); }
    }
  }

  /** A filter with its last coefficient only: that one in Q15 comes last, zeros before it. */
  lemma {:induction false} LastOnly(st: seq<Word16>)
    requires st != [] && AbsS(st[|st| - 1]) < 4096 && forall j :: 0 <= j < |st| - 1 ==> st[j] == 0
    ensures var r := Refl(st);
      && r.Some? && r.value[|st| - 1] == 8 * st[|st| - 1]
      && forall j :: 0 <= j < |st| - 1 ==> r.value[j] == 0
    decreases |st|
  {
    hide LowerUpto;
    ShiftedCoefficient(st[|st| - 1]);
    var k := Shl(st[|st| - 1], 3);
    LoweredZeros(st, k, |st| - 1);
    var lower := LowerUpto(st, k, |st| - 1).value;
    assert lower == seq(|st| - 1, _ => 0);
    if lower != [] { LastOnly(lower); } else { assert Refl(lower) == Some([]); }
    assert Refl(st) == Some(Refl(lower).value + [k]);
  }

  lemma {:induction false} LoweredZeros(st: seq<Word16>, k: Word16, n: nat)
    requires InsideUnit(k) && n < |st| && forall j :: 0 <= j < |st| - 1 ==> st[j] == 0
    ensures LowerUpto(st, k, n) == Some(seq(n, _ => 0))
  {
    hide Lowered;
    if n > 0 {
      LoweredZeros(st, k, n - 1);
      ZeroLowered(k);
      Fits16(0);
      assert st[n - 1] == 0 && st[|st| - 1 - n] == 0;
      var zeros: seq<Word16> := seq(n - 1, _ => 0);
      assert zeros + [0] == seq(n, _ => 0);
    } else {
      assert seq(0, _ => 0) == [];
    }
  }

  lemma ZeroLowered(k: Word16)
    requires InsideUnit(k)
    ensures Lowered(k, 0, 0) == 0
  {
    hide LShrR, Quotient, OneMinusSquare, NormProd, LMult, NormL, Lowered, Rounded;
    Divisor(k);
    LoweredIs(k, 0, 0);
    ZeroRounded(k);
    TimesNone(Quotient(16384, NormProd(k)));
    ShiftedZero(15 - NormL(OneMinusSquare(k)));
  }

  lemma ZeroRounded(k: Word16)
    requires InsideUnit(k)
    ensures Rounded(k, 0, 0) == 0
  {
    hide LMult;
    TimesNone(k);
  }

  lemma TimesNone(a: Word16)
    ensures LMult(a, 0) == 0
  {
  }

  lemma ShiftedZero(n: Word16)
    requires 0 <= n
    ensures LShrR(0, n) == 0
  {
    if n > 0 { DivZero(Pow2(n)); DivZero(Pow2(n - 1)); }
  }

  // ----- exact arithmetic: step-down inverts the Levinson step-up -----

  /** One Levinson step: the filter of the next order from reflection coefficient k. */
  function Up(b: seq<real>, k: real): (a: seq<real>)
    ensures |a| == |b| + 1
  {
    seq(|b| + 1, j requires 0 <= j < |b| + 1 => UpAt(b, k, j))
  }

  function UpAt(b: seq<real>, k: real, j: nat): real
    requires j <= |b|
  {
    if j < |b| then Plus(b[j], k, b[|b| - 1 - j]) else k
  }

  /** The same step backwards. */
  function Down(a: seq<real>): (b: seq<real>)
    requires |a| >= 1 && Stable(a[|a| - 1])
    ensures |b| == |a| - 1
  {
    seq(|a| - 1, j requires 0 <= j < |a| - 1 => DownAt(a, j))
  }

  function DownAt(a: seq<real>, j: nat): real
    requires j < |a| - 1 && Stable(a[|a| - 1])
  {
    Solved(a[j], a[|a| - 1], a[|a| - 2 - j])
  }

  predicate Stable(k: real) { -1.0 < k < 1.0 }

  function Plus(p: real, k: real, q: real): real { p + k * q }

  /** (p - k q) / (1 - k^2). */
  function Solved(p: real, k: real, q: real): real
    requires Stable(k)
  {
    UnitGap(k);
    (p - k * q) / (1.0 - k * k)
  }

  /** The filter with the given reflection coefficients. */
  function Filter(ks: seq<real>): (a: seq<real>)
    ensures |a| == |ks|
  {
    if ks == [] then [] else Up(Filter(ks[..|ks| - 1]), ks[|ks| - 1])
  }

  ghost predicate AllStable(ks: seq<real>) { forall i :: 0 <= i < |ks| ==> Stable(ks[i]) }

  /** The reflection coefficients of a filter, or None if one is not below one. */
  function Coefficients(a: seq<real>): (r: Option<seq<real>>)
    ensures r.Some? ==> |r.value| == |a|
    decreases |a|
  {
    if a == [] then Some([])
    else if !Stable(a[|a| - 1]) then None
    else
      var r := Coefficients(Down(a));
      if r.None? then None else Some(r.value + [a[|a| - 1]])
  }

  lemma UnitGap(k: real)
    requires Stable(k)
    ensures 1.0 - k * k != 0.0
  {
    assert (1.0 - k) * (1.0 + k) == 1.0 - k * k;
  }

  lemma DownUndoesUp(b: seq<real>, k: real)
    requires Stable(k)
    ensures Down(Up(b, k)) == b
  {
    hide Plus, Solved;
    var a := Up(b, k);
    assert a[|b|] == UpAt(b, k, |b|);
    forall j | 0 <= j < |b| ensures Down(a)[j] == b[j] {
      var i := |b| - 1 - j;
      assert a[j] == UpAt(b, k, j) && a[i] == UpAt(b, k, i) && Down(a)[j] == DownAt(a, j);
      Eliminate(b[j], b[i], k);
    }
  }

  lemma UpUndoesDown(a: seq<real>)
    requires |a| >= 1 && Stable(a[|a| - 1])
    ensures Up(Down(a), a[|a| - 1]) == a
  {
    hide Plus, Solved;
    var k, n := a[|a| - 1], |a| - 1;
    var b := Down(a);
    assert Up(b, k)[n] == UpAt(b, k, n);
    forall j | 0 <= j < n ensures Up(b, k)[j] == a[j] {
      var i := n - 1 - j;
      assert b[j] == DownAt(a, j) && b[i] == DownAt(a, i) && Up(b, k)[j] == UpAt(b, k, j);
      Recombine(a[j], a[i], k);
    }
  }

  /** (p + k q) - k (q + k p) = (1 - k^2) p. */
  lemma Eliminate(p: real, q: real, k: real)
    requires Stable(k)
    ensures Solved(Plus(p, k, q), k, Plus(q, k, p)) == p
  {
    UnitGap(k);
    assert k * (q + k * p) == k * q + k * k * p;
    assert (p + k * q) - k * (q + k * p) == p * (1.0 - k * k);
    DivideExact(p, 1.0 - k * k);
  }

  lemma DivideExact(p: real, y: real)
    requires y != 0.0
    ensures p * y / y == p
  {
  }

  lemma Recombine(p: real, q: real, k: real)
    requires Stable(k)
    ensures Plus(Solved(p, k, q), k, Solved(q, k, p)) == p
  {
    UnitGap(k);
    var y := 1.0 - k * k;
    var u, v := Solved(p, k, q), Solved(q, k, p);
    assert u * y == p - k * q && v * y == q - k * p;
    assert (u + k * v) * y == u * y + k * (v * y);
    assert k * (q - k * p) == k * q - k * k * p;
    assert (u + k * v) * y == p * y;
    DivideExact(u + k * v, y);
    DivideExact(p, y);
  }

  // ----- how far one fixed-point step is from the exact one -----

  /** The numerator 2^15 a_j - k m in units of Q27. */
  function Numerator(k: int, aj: int, mirror: int): int { 0x8000 * aj - k * mirror }

  /** 2^30 (1 - k^2). */
  function Gap(k: int): int { 0x4000_0000 - k * k }

  function Times(a: int, b: int): int { a * b }

  function Magnitude(x: int): nat { if x < 0 then 0 - x else x }

  /** The rounded numerator, before it is divided. */
  function Rounded(k: Word16, aj: Word16, mirror: Word16): Word16 {
    Round(LMsu(LDepositH(aj), k, mirror))
  }

  /** Neither the subtraction nor the rounding saturates. */
  predicate InScale(n: int) { -0x4000_0000 <= n < 0x3fff_c000 }

  lemma RoundedNumerator(k: Word16, aj: Word16, mirror: Word16)
    requires InsideUnit(k) && InScale(Numerator(k, aj, mirror))
    ensures Magnitude(0x8000 * (Rounded(k, aj, mirror) as int) - Numerator(k, aj, mirror)) <= 0x4000
  {
    MulBounds(k, mirror, 32760, 32768);
    RoundOfDouble(aj, k * mirror);
  }

  lemma RoundOfDouble(aj: Word16, z: int)
    requires -0x4000_0000 < z < 0x4000_0000 && InScale(0x8000 * (aj as int) - z)
    ensures Magnitude(0x8000 * (Round(LSub(LDepositH(aj), Sat32(2 * z))) as int) - (0x8000 * (aj as int) - z)) <= 0x4000
  {
  }

  /** The rounded divisor, in units of the normalised 1 - k^2. */
  lemma DivisorNear(k: Word16)
    requires InsideUnit(k)
    ensures var n := NormL(OneMinusSquare(k));
            var e := 0x1_0000 * (NormProd(k) as int) - Times(2 * Gap(k) - 1, Pow2(n));
            n <= 11 && 0 < Gap(k) && -0xffff <= e <= 0x8000
  {
    hide LMult, LShl, NormL;
    Divisor(k);
    SquareBelow(k);
    NormalizeExact(OneMinusSquare(k));
    assert OneMinusSquare(k) == 2 * Gap(k) - 1;
    MulSign(OneMinusSquare(k), Pow2(NormL(OneMinusSquare(k))));
  }

  /** The divisor and its quotient multiply to 2^29, up to one divisor. */
  lemma QuotientNear(b: Word16)
    requires DivSDefined(16384, b) && b >= 0x4000
    ensures 0x2000_0000 - b <= Times(Quotient(16384, b), b) <= 0x2000_0000
  {
    var q := Quotient(16384, b);
    assert (q + 1) * b == q * b + b;
    if b == 16384 { assert q == 32767; }
  }

  lemma ShiftNear(x: Word32, n: Word16)
    requires 1 <= n <= 31
    ensures Magnitude(Times(2 * Pow2(n - 1), LShrR(x, n)) - x) <= Pow2(n - 1)
  {
    var p := Pow2(n - 1);
    DivTwice(x, p);
    HalfUp(x, p, Asr(x, n - 1), LShrR(x, n));
  }

  lemma HalfUp(x: int, p: int, u: int, t: int)
    requires p > 0 && u == x / p && t == u / 2 + u % 2
    ensures Magnitude(Times(2 * p, t) - x) <= p
  {
    var r := x % p;
    assert x == u * p + r;
    assert (2 * p) * t == (2 * t) * p;
    assert (u + 1) * p == u * p + p;
    assert 2 * t == u || 2 * t == u + 1;
  }

  lemma TwoHalves(h: int, b: int, p: int)
    requires p > 0 && 0 <= b <= 1
    ensures (2 * h + b) * p == h * (2 * p) + b * p && 0 <= b * p <= p
  {
  }

  lemma DivTwice(x: int, p: int)
    requires p > 0
    ensures x / (2 * p) == x / p / 2
  {
    var u, r := x / p, x % p;
    assert x == u * p + r;
    TwoHalves(u / 2, u % 2, p);
    EuclidUnique(x, 2 * p, u / 2, r + (u % 2) * p);
  }

  /** One fixed-point step differs from the exact quotient 2^15 N / (2^30 - k^2) by half a
      unit, the rounding of N magnified by 1 / (1 - k^2), and 2^-13 of the quotient. */
  lemma LoweredNear(k: Word16, aj: Word16, mirror: Word16)
    requires InsideUnit(k) && InScale(Numerator(k, aj, mirror))
    ensures Gap(k) > 0
    ensures 2 * Magnitude(Times(Gap(k), Lowered(k, aj, mirror)) - 0x8000 * Numerator(k, aj, mirror))
         <= Gap(k) + 0x4000_0000 + 266_238 * Magnitude(Rounded(k, aj, mirror))
  {
    hide NormProd, OneMinusSquare, Rounded, LShrR, Quotient, Times, Numerator, NormL, Pow2, Gap;
    Divisor(k);
    RoundedNumerator(k, aj, mirror);
    DivisorNear(k);
    QuotientNear(NormProd(k));
    var n, temp, q := NormL(OneMinusSquare(k)), Rounded(k, aj, mirror), Quotient(16384, NormProd(k));
    var x := LMult(q, temp);
    LoweredIs(k, aj, mirror);
    ShiftNear(x, 15 - n);
    Pow2Split(n, 14 - n);
    assert Pow2(14) == 0x4000 by { PowerOf14(); }
    Pow2Mono(n, 11);
    PowerOf14();
    LMultOf(q, temp);
    StepError(Gap(k), Lowered(k, aj, mirror), Numerator(k, aj, mirror), temp, q, NormProd(k), Pow2(n), Pow2(14 - n));
  }

  lemma LoweredIs(k: Word16, aj: Word16, mirror: Word16)
    requires InsideUnit(k) && NormL(OneMinusSquare(k)) <= 11 && DivSDefined(16384, NormProd(k))
    ensures Lowered(k, aj, mirror)
         == LShrR(LMult(Quotient(16384, NormProd(k)), Rounded(k, aj, mirror)), 15 - NormL(OneMinusSquare(k)))
  {
    hide NormProd, OneMinusSquare, LMsu, Round, LShrR, LMult, Quotient;
  }

  lemma PowerOf14()
    ensures Pow2(14) == 0x4000 && Pow2(11) == 2048
  {
    assert Pow2(7) == 128;
  }

  lemma LMultOf(q: Word16, t: Word16)
    requires q >= 0
    ensures LMult(q, t) == 2 * Times(q, t)
  {
    MulBounds(q, t, 32767, 32768);
  }

  /** The error terms put together: p h = 2^14 undoes the normalising shift. */
  lemma StepError(g: int, t: int, num: int, temp: int, q: int, b: int, p: int, h: int)
    requires g > 0 && 0 <= q <= 32767 && 0 < b <= 32767 && 1 <= p <= 2048 && h >= 1 && p * h == 0x4000
    requires Magnitude(0x8000 * temp - num) <= 0x4000
    requires 0x2000_0000 - b <= Times(q, b) <= 0x2000_0000
    requires -0xffff <= 0x1_0000 * b - Times(2 * g - 1, p) <= 0x8000
    requires Magnitude(Times(2 * h, t) - 2 * Times(q, temp)) <= h
    ensures 2 * Magnitude(Times(g, t) - 0x8000 * num) <= g + 0x4000_0000 + 266_238 * Magnitude(temp)
  {
    hide Times;
    var e2, e4 := 0x2000_0000 - Times(q, b), Times(2 * h, t) - 2 * Times(q, temp);
    var e5 := Times(2 * g, p) - 0x1_0000 * b;
    var f := Times(q, e5) - 0x1_0000 * e2;
    GapScaled(g, p);
    TimesWithin(q, e5, 32767, 67583);
    Collected(g, t, temp, q, b, p, h, e2, e4, e5);
    TimesWithin(temp, f, Magnitude(temp), 32767 * 133_119);
    TimesWithin(p, e4, p, h);
    TimesWithin(g, Times(p, e4), g, 0x4000);
  }

  lemma GapScaled(g: int, p: int)
    ensures Times(2 * g, p) == Times(2 * g - 1, p) + p
  {
  }

  lemma TimesWithin(a: int, b: int, m: int, n: int)
    requires -m <= a <= m && -n <= b <= n
    ensures -(m * n) <= Times(a, b) <= m * n
  {
    MulBounds(a, b, m, n);
  }

  lemma Collected(g: int, t: int, temp: int, q: int, b: int, p: int, h: int, e2: int, e4: int, e5: int)
    requires p * h == 0x4000
    requires e2 == 0x2000_0000 - Times(q, b) && e4 == Times(2 * h, t) - 2 * Times(q, temp)
    requires e5 == Times(2 * g, p) - 0x1_0000 * b
    ensures 0x8000 * Times(g, t)
         == 0x2000_0000_0000 * temp + Times(temp, Times(q, e5) - 0x1_0000 * e2) + Times(g, Times(p, e4))
  {
    var w := q * temp;
    assert (g * p) * (2 * h * t) == 2 * (p * h) * (g * t);
    assert (g * p) * (2 * w + e4) == 2 * (g * p) * w + g * (p * e4);
    assert 2 * (g * p) * w == (e5 + 0x1_0000 * b) * w by { assert 2 * g * p == 2 * (g * p); }
    assert (e5 + 0x1_0000 * b) * w == temp * (q * e5) + 0x1_0000 * (temp * (q * b)) by { Regrouped(e5, b, q, temp); }
    assert temp * (0x2000_0000 - e2) == 0x2000_0000 * temp - temp * e2;
    assert temp * (q * e5 - 0x1_0000 * e2) == temp * (q * e5) - 0x1_0000 * (temp * e2);
  }

  lemma Regrouped(e: int, b: int, q: int, temp: int)
    ensures (e + 0x1_0000 * b) * (q * temp) == temp * (q * e) + 0x1_0000 * (temp * (q * b))
  {
    var w := q * temp;
    assert (e + 0x1_0000 * b) * w == e * w + 0x1_0000 * (b * w);
    assert e * w == temp * (q * e) && b * w == temp * (q * b);
  }

  /** The exact step on the same numbers is that quotient. */
  lemma SolvedIs(k: Word16, aj: Word16, mirror: Word16)
    requires InsideUnit(k)
    ensures Stable(k as real / 32768.0) && Gap(k) > 0
    ensures Solved(aj as real, k as real / 32768.0, mirror as real) * (Gap(k) as real)
         == 32768.0 * (Numerator(k, aj, mirror) as real)
  {
    hide LMult;
    SquareBelow(k);
    var x: real := k as real / 32768.0;
    UnitGap(x);
    var p, q := aj as real, mirror as real;
    SquareOfQuotient(k);
    assert Solved(p, x, q) * (1.0 - x * x) == p - x * q;
    ProductOfQuotient(k, mirror);
    ScaleUp(Solved(p, x, q), 1.0 - x * x, p - x * q);
  }

  lemma SquareOfQuotient(k: int)
    ensures (1.0 - (k as real / 32768.0) * (k as real / 32768.0)) * 1073741824.0 == Gap(k) as real
  {
    var x := k as real / 32768.0;
    assert k as real == 32768.0 * x;
    assert (k * k) as real == (k as real) * (k as real);
    assert (32768.0 * x) * (32768.0 * x) == 1073741824.0 * (x * x);
  }

  lemma ProductOfQuotient(k: int, m: int)
    ensures 32768.0 * ((k as real / 32768.0) * (m as real)) == (k * m) as real
  {
    assert (k * m) as real == (k as real) * (m as real);
  }

  lemma ScaleUp(s: real, y: real, v: real)
    requires s * y == v
    ensures s * (y * 1073741824.0) == 1073741824.0 * v
  {
  }

  function Absolute(x: real): real { if x < 0.0 then 0.0 - x else x }

  /** The fixed-point step against the exact one on the same numbers. */
  lemma StepNearExact(k: Word16, aj: Word16, mirror: Word16)
    requires InsideUnit(k) && InScale(Numerator(k, aj, mirror))
    ensures Stable(k as real / 32768.0) && Gap(k) > 0
    ensures var g := Gap(k) as real;
      Absolute(Lowered(k, aj, mirror) as real - Solved(aj as real, k as real / 32768.0, mirror as real)) * g
        <= g / 2.0 + 536870912.0 + 133119.0 * (Magnitude(Rounded(k, aj, mirror)) as real)
  {
    hide Lowered, Solved, Rounded, Numerator, Gap;
    LoweredNear(k, aj, mirror);
    SolvedIs(k, aj, mirror);
    var g, t, v := Gap(k), Lowered(k, aj, mirror), Solved(aj as real, k as real / 32768.0, mirror as real);
    Difference(g, t, v, Numerator(k, aj, mirror));
  }

  lemma Difference(g: int, t: int, v: real, n: int)
    requires g > 0 && v * (g as real) == 32768.0 * (n as real)
    ensures Absolute(t as real - v) * (g as real) == Magnitude(Times(g, t) - 0x8000 * n) as real
  {
    assert (g * t) as real == (g as real) * (t as real);
    assert (t as real - v) * (g as real) == (g as real) * (t as real) - v * (g as real);
    var d: real, f: real := t as real - v, g as real;
    if d < 0.0 { NegativeTimes(d, f); } else { PositiveTimes(d, f); }
  }

  lemma NegativeTimes(d: real, f: real)
    requires d < 0.0 && f > 0.0
    ensures d * f < 0.0 && (0.0 - d) * f == 0.0 - d * f
  {
  }

  lemma PositiveTimes(d: real, f: real)
    requires d >= 0.0 && f > 0.0
    ensures d * f >= 0.0
  {
  }

  // ----- the inner loop against the exact step-down -----

  /** The filter a sequence of Q12 coefficients stands for. */
  function Exact(st: seq<Word16>): (a: seq<real>)
    ensures |a| == |st|
  {
    seq(|st|, i requires 0 <= i < |st| => st[i] as real / 4096.0)
  }

  /** Coefficient j is lowered with its mirror image in the filter without its last one. */
  lemma {:induction false} LowerUptoAt(st: seq<Word16>, k: Word16, n: nat, j: nat)
    requires InsideUnit(k) && j < n < |st| && LowerUpto(st, k, n).Some?
    ensures LowerUpto(st, k, n).value[j] as int == Lowered(k, st[j], st[|st| - 2 - j])
  {
    hide Lowered;
    if j < n - 1 {
      LowerUptoAt(st, k, n - 1, j);
    } else {
      Fits16(Lowered(k, st[n - 1], st[|st| - 1 - n]));
    }
  }

  /** The loop gives up exactly when a coefficient does not fit 16 bits. */
  lemma {:induction false} GivesUpExactly(st: seq<Word16>, k: Word16, n: nat)
    requires InsideUnit(k) && n < |st|
    ensures LowerUpto(st, k, n).Some?
       <==> forall j: nat :: j < n ==> -32767 <= Lowered(k, st[j], st[|st| - 2 - j]) <= 32767
  {
    hide Lowered;
    if n > 0 {
      GivesUpExactly(st, k, n - 1);
      CheckIs(Lowered(k, st[n - 1], st[|st| - 1 - n]));
    }
  }

  lemma CheckIs(t: Word32)
    ensures LSub(LAbs(t), 32767) > 0 <==> t < -32767 || t > 32767
  {
  }

  lemma Fits16(t: Word32)
    ensures LSub(LAbs(t), 32767) <= 0 ==> ExtractL(t) as int == t
  {
  }

  lemma SolvedScales(p: real, x: real, q: real)
    requires Stable(x)
    ensures Solved(p / 4096.0, x, q / 4096.0) * 4096.0 == Solved(p, x, q)
  {
    UnitGap(x);
    var y := 1.0 - x * x;
    var u, v := p / 4096.0, q / 4096.0;
    assert p == 4096.0 * u && q == 4096.0 * v;
    assert x * (4096.0 * v) == 4096.0 * (x * v);
    ScaledQuotient(u - x * v, y);
  }

  lemma ScaledQuotient(n: real, y: real)
    requires y != 0.0
    ensures n / y * 4096.0 == (4096.0 * n) / y
  {
  }

  /** Every numerator of the loop is in scale. */
  predicate AllInScale(st: seq<Word16>, k: Word16) {
    forall j :: 0 <= j < |st| - 1 ==> InScale(Numerator(k, st[j], st[|st| - 2 - j]))
  }

  /** The whole inner loop: every coefficient of the lowered filter is within the bound of one
      step of the exact step-down of the same filter. */
  lemma LoweredFilterNear(st: seq<Word16>, j: nat)
    requires |st| >= 1 && AbsS(st[|st| - 1]) < 4096 && j < |st| - 1
    requires InsideUnit(Shl(st[|st| - 1], 3)) && AllInScale(st, Shl(st[|st| - 1], 3))
    requires LowerUpto(st, Shl(st[|st| - 1], 3), |st| - 1).Some?
    ensures Stable(Exact(st)[|st| - 1])
    ensures var k := Shl(st[|st| - 1], 3);
      var b, g := LowerUpto(st, k, |st| - 1).value, Gap(k) as real;
      g > 0.0 && Absolute(b[j] as real - 4096.0 * DownAt(Exact(st), j)) * g
        <= g / 2.0 + 536870912.0 + 133119.0 * (Magnitude(Rounded(k, st[j], st[|st| - 2 - j])) as real)
  {
    hide LowerUpto, Lowered, Solved, Rounded, Numerator, Gap, Shl;
    var last := st[|st| - 1];
    ShiftedCoefficient(last);
    var k := Shl(last, 3);
    LowerUptoAt(st, k, |st| - 1, j);
    assert InScale(Numerator(k, st[j], st[|st| - 2 - j]));
    StepNearExact(k, st[j], st[|st| - 2 - j]);
    assert k as real / 32768.0 == last as real / 4096.0;
    SolvedScales(st[j] as real, k as real / 32768.0, st[|st| - 2 - j] as real);
  }

  /** And with the exact filter the list is Down itself. */
  lemma LoweredListNear(st: seq<Word16>)
    requires |st| >= 1 && AbsS(st[|st| - 1]) < 4096
    requires InsideUnit(Shl(st[|st| - 1], 3)) && AllInScale(st, Shl(st[|st| - 1], 3))
    requires LowerUpto(st, Shl(st[|st| - 1], 3), |st| - 1).Some?
    ensures Stable(Exact(st)[|st| - 1])
    ensures var k := Shl(st[|st| - 1], 3);
      var b, g := LowerUpto(st, k, |st| - 1).value, Gap(k) as real;
      forall j: nat :: j < |b| ==>
        Absolute(b[j] as real - 4096.0 * Down(Exact(st))[j]) * g
          <= g / 2.0 + 536870912.0 + 133119.0 * (Magnitude(Rounded(k, st[j], st[|st| - 2 - j])) as real)
  {
    hide LowerUpto, Lowered, DownAt, Rounded, Gap, Shl, Magnitude, Absolute, Exact;
    ShiftedCoefficient(st[|st| - 1]);
    assert Stable(Exact(st)[|st| - 1]) by { LastStable(st); }
    var b := LowerUpto(st, Shl(st[|st| - 1], 3), |st| - 1).value;
    forall j: nat | j < |b|
      ensures var k := Shl(st[|st| - 1], 3);
        Absolute(b[j] as real - 4096.0 * Down(Exact(st))[j]) * (Gap(k) as real)
          <= (Gap(k) as real) / 2.0 + 536870912.0
           + 133119.0 * (Magnitude(Rounded(k, st[j], st[|st| - 2 - j])) as real)
    {
      LoweredFilterNear(st, j);
      assert Down(Exact(st))[j] == DownAt(Exact(st), j);
    }
  }

  lemma LastStable(st: seq<Word16>)
    requires |st| >= 1 && AbsS(st[|st| - 1]) < 4096
    ensures Stable(Exact(st)[|st| - 1])
  {
    var x := st[|st| - 1];
    assert -4096 < x < 4096;
  }

  /** Step-down recovers the reflection coefficients a filter was built from. */
  lemma {:induction false} CoefficientsOfFilter(ks: seq<real>)
    requires AllStable(ks)
    ensures Coefficients(Filter(ks)) == Some(ks)
    decreases |ks|
  {
    if ks != [] {
      var rest, k := ks[..|ks| - 1], ks[|ks| - 1];
      CoefficientsOfFilter(rest);
      DownUndoesUp(Filter(rest), k);
      assert Filter(ks)[|ks| - 1] == UpAt(Filter(rest), k, |rest|);
      assert rest + [k] == ks;
    }
  }

  /** ... and conversely the recovered coefficients rebuild the filter: step-up and
      step-down are a bijection between stable coefficient lists and the filters accepted. */
  lemma {:induction false} FilterOfCoefficients(a: seq<real>)
    requires Coefficients(a).Some?
    ensures AllStable(Coefficients(a).value) && Filter(Coefficients(a).value) == a
    decreases |a|
  {
    if a != [] {
      var k := a[|a| - 1];
      FilterOfCoefficients(Down(a));
      var ks := Coefficients(Down(a)).value;
      assert Coefficients(a).value == ks + [k] && (ks + [k])[..|ks|] == ks;
      UpUndoesDown(a);
    }
  }
}
