/** The 16- and 32-bit fixed-point operators every other module is written with.
    The ARM instructions behind them are given their architectural meaning:
    qadd/qsub/qdadd/qdsub saturate to 32 bits, qadd16/qsub16 to 16 bits, while plain
    C arithmetic and narrowing assignments wrap in two's complement. */
module FixedPoint {

  const MAX_16 := 32767
  const MIN_16 := -32768
  const MAX_32 := 0x7fff_ffff
  const MIN_32 := -0x8000_0000

  type Word16 = x: int | -32768 <= x <= 32767
  type Word32 = x: int | -0x8000_0000 <= x <= 0x7fff_ffff

  function Pow2(n: nat): (r: int)
    ensures r >= 1
  {
    if n == 0 then 1 else 2 * Pow2(n - 1)
  }

  // ----- conversions -----

  function Sat16(x: int): Word16 {
    if x > MAX_16 then MAX_16 else if x < MIN_16 then MIN_16 else x
  }

  function Sat32(x: int): Word32 {
    if x > MAX_32 then MAX_32 else if x < MIN_32 then MIN_32 else x
  }

  /** A narrowing assignment to Word16. */
  function Wrap16(x: int): Word16 {
    (x + 0x8000) % 0x1_0000 - 0x8000
  }

  /** Plain C arithmetic on Word32. */
  function Wrap32(x: int): Word32 {
    (x + 0x8000_0000) % 0x1_0000_0000 - 0x8000_0000
  }

  /** An arithmetic right shift: division rounding towards minus infinity. */
  function Asr(x: int, n: nat): int {
    x / Pow2(n)
  }

  // ----- 16-bit operators -----

  function Add(a: Word16, b: Word16): Word16 { Sat16(a + b) }

  function Sub(a: Word16, b: Word16): Word16 { Sat16(a - b) }

  function Negate(a: Word16): Word16 { if a == MIN_16 then MAX_16 else -a }

  function AbsS(a: Word16): Word16 {
    if a == MIN_16 then MAX_16 else if a < 0 then -a else a
  }

  /** The product shifted right by 15, clamped from above. */
  function Mult(a: Word16, b: Word16): Word16 {
    ProductRange(a, b);
    var p := a * b / 32768;
    if p >= MAX_16 then MAX_16 else p
  }

  // ----- 32-bit operators -----

  function LAdd(a: Word32, b: Word32): Word32 { Sat32(a + b) }

  function LSub(a: Word32, b: Word32): Word32 { Sat32(a - b) }

  function LAbs(a: Word32): Word32 {
    if a == MIN_32 then MAX_32 else if a < 0 then -a else a
  }

  function LMult(a: Word16, b: Word16): Word32 { Sat32(2 * (a * b)) }

  /** qdadd: the doubling saturates first, then the addition does. */
  function LMac(acc: Word32, a: Word16, b: Word16): Word32 { LAdd(acc, LMult(a, b)) }

  function LMsu(acc: Word32, a: Word16, b: Word16): Word32 { LSub(acc, LMult(a, b)) }

  function ExtractH(x: Word32): Word16 { x / 0x1_0000 }

  function ExtractL(x: Word32): Word16 { Wrap16(x) }

  function LDepositH(x: Word16): Word32 { x * 0x1_0000 }

  function Round(x: Word32): Word16 { LAdd(x, 0x8000) / 0x1_0000 }

  // ----- shifts: written as the C code does them -----

  /** shl: shift, narrow, shift back and compare. */
  function Shl(x: Word16, n: int): Word16
    requires -31 <= n <= 31
  {
    if n < 0 then AsrWord16(x, -n); Asr(x, -n)
    else
      var t := Wrap16(x * Pow2(n));
      if Asr(t, n) != x then (if x < 0 then MIN_16 else MAX_16) else t
  }

  function Shr(x: Word16, n: int): Word16
    requires -31 <= n <= 31
  {
    if n < 0 then Shl(x, -n) else AsrWord16(x, n); Asr(x, n)
  }

  function LShl(x: Word32, n: int): Word32
    requires -31 <= n <= 31
  {
    if n < 0 then AsrWord32(x, -n); Asr(x, -n)
    else
      var t := Wrap32(x * Pow2(n));
      if Asr(t, n) != x then (if x < 0 then MIN_32 else MAX_32) else t
  }

  function LShr(x: Word32, n: int): Word32
    requires -31 <= n <= 31
  {
    if n < 0 then LShl(x, -n) else AsrWord32(x, n); Asr(x, n)
  }

  /** What norm_l's caller relies on: the top two bits differ. */
  predicate Normalized(x: int) {
    0x4000_0000 <= x <= MAX_32 || MIN_32 <= x < -0x4000_0000
  }

  /** norm_l: the number of redundant sign bits, 0 for 0 (clz of x ^ (x << 1)). */
  function NormL(x: Word32): (n: nat)
    ensures n <= 31
    ensures x != 0 ==> Normalized(x * Pow2(n))
    decreases MAX_32 + 1 - (if x < 0 then 0 - x else x)
  {
    if x == 0 || Normalized(x) then 0
    else
      var n := 1 + NormL(2 * x);
      assert x * Pow2(n) == 2 * x * Pow2(n - 1) by { ShiftOnce(x, Pow2(n - 1)); }
      ShiftCount(x, n);
      n
  }

  function NormS(x: Word16): (n: nat)
    ensures n <= 31
  {
    NormL(x * 0x1_0000)
  }

  // ----- facts about the operators -----

  lemma ProductRange(a: Word16, b: Word16)
    ensures -0x4000_0000 <= a * b <= 0x4000_0000
  {
    MulBounds(a, b, 32768, 32768);
  }

  lemma MulBounds(a: int, b: int, m: int, n: int)
    requires -m <= a <= m && -n <= b <= n
    ensures -(m * n) <= a * b <= m * n
  {
    if a >= 0 {
      MulMono(b, n, a);
      MulMono(-n, b, a);
      MulMono(a, m, n);
    } else {
      MulMono(b, n, -a);
      MulMono(-n, b, -a);
      MulMono(-a, m, n);
    }
  }

  lemma MulMono(x: int, y: int, k: int)
    requires x <= y && 0 <= k
    ensures x * k <= y * k
  {
  }

  lemma DivMono(x: int, y: int, d: int)
    requires x <= y && 0 < d
    ensures x / d <= y / d
  {
    var p, q := x / d, y / d;
    assert x == p * d + x % d && y == q * d + y % d;
    if q < p { MulMono(q + 1, p, d); }
  }

  /** Quotient and remainder are determined by the division equation. */
  lemma EuclidUnique(x: int, d: int, q: int, r: int)
    requires 0 <= r < d && x == q * d + r
    ensures x / d == q && x % d == r
  {
    var p := x / d;
    assert x == p * d + x % d;
    if q < p { MulMono(q + 1, p, d); }
    if q > p { MulMono(p + 1, q, d); }
  }

  lemma AsrWord16(x: Word16, n: nat)
    ensures -32768 <= Asr(x, n) <= 32767
  {
    AsrBounds(x, n);
  }

  lemma AsrWord32(x: Word32, n: nat)
    ensures -0x8000_0000 <= Asr(x, n) <= 0x7fff_ffff
  {
    AsrBounds(x, n);
  }

  lemma AsrBounds(x: int, n: nat)
    ensures x >= 0 ==> 0 <= Asr(x, n) <= x
    ensures x < 0 ==> x <= Asr(x, n) < 0
  {
    var p, q := Pow2(n), Asr(x, n);
    assert x == q * p + x % p;
    if x >= 0 {
      if q < 0 { MulMono(q, -1, p); }
      if q >= 0 { MulMono(1, p, q); }
    } else {
      if q >= 0 { MulMono(0, q, p); }
      if q < x { MulMono(q + 1, x, p); MulMono(1, p, -x); }
    }
  }

  lemma ShiftOnce(x: int, p: int)
    ensures x * (2 * p) == 2 * x * p
  {
  }

  lemma ShiftCount(x: int, n: nat)
    requires x != 0 && MIN_32 <= x * Pow2(n) <= MAX_32
    ensures n <= 31
  {
    var p := Pow2(n);
    Pow2Values();
    if n > 31 {
      Pow2Mono(32, n);
      if x > 0 { MulMono(1, x, p); } else { MulMono(x, -1, p); }
    }
  }

  lemma Pow2Values()
    ensures Pow2(5) == 32 && Pow2(8) == 256 && Pow2(15) == 0x8000 && Pow2(16) == 0x1_0000
    ensures Pow2(30) == 0x4000_0000 && Pow2(31) == 0x8000_0000 && Pow2(32) == 0x1_0000_0000
  {
    assert Pow2(5) == 32;
    assert Pow2(10) == 1024;
    assert Pow2(20) == 0x10_0000;
    assert Pow2(25) == 0x200_0000;
  }

  lemma Pow2Mono(m: nat, n: nat)
    requires m <= n
    ensures Pow2(m) <= Pow2(n)
  {
  }

  lemma MulDiv(x: int, p: int)
    requires p > 0
    ensures x * p / p == x
  {
    var q := x * p / p;
    assert x * p == q * p + (x * p) % p;
    if q < x { MulMono(q + 1, x, p); }
    if q > x { MulMono(x + 1, q, p); }
  }

  /** A shift result that wrapped around does not shift back to its argument. */
  lemma WrappedShift(x: int, p: int, t: int, m: int, d: int)
    requires 0 < p < d && m != 0 && t == x * p + m * d
    ensures t / p != x
  {
    assert t == (t / p) * p + t % p;
    if m > 0 { MulMono(1, m, d); } else { MulMono(m, -1, d); }
  }

  /** Wrapping adds a multiple of 2^32, which is zero exactly when nothing overflows. */
  lemma Wrapped32(v: int) returns (m: int)
    ensures Wrap32(v) == v + m * 0x1_0000_0000
    ensures m == 0 <==> MIN_32 <= v <= MAX_32
  {
    m := -((v + 0x8000_0000) / 0x1_0000_0000);
  }

  lemma Wrapped16(v: int) returns (m: int)
    ensures Wrap16(v) == v + m * 0x1_0000
    ensures m == 0 <==> MIN_16 <= v <= MAX_16
  {
    m := -((v + 0x8000) / 0x1_0000);
  }

  /** The shift-compare idiom of L_shl is a saturating multiplication by 2^n. */
  lemma LShlSaturates(x: Word32, n: nat)
    requires n <= 31
    ensures LShl(x, n) == Sat32(x * Pow2(n))
  {
    var p := Pow2(n);
    var v := x * p;
    var m := Wrapped32(v);
    assert p <= 0x8000_0000 by { Pow2Values(); Pow2Mono(n, 31); }
    assert v / p == x by { MulDiv(x, p); }
    MulSign(x, p);
    if m != 0 {
      WrappedShift(x, p, Wrap32(v), m, 0x1_0000_0000);
    }
  }

  /** The shift-compare idiom of shl is a saturating multiplication by 2^n. */
  lemma ShlSaturates(x: Word16, n: nat)
    requires n <= 31
    ensures Shl(x, n) == Sat16(x * Pow2(n))
  {
    var p := Pow2(n);
    var v := x * p;
    var m := Wrapped16(v);
    assert v / p == x by { MulDiv(x, p); }
    MulSign(x, p);
    if m != 0 { ShiftedBackDiffers(x, n, p, v, m); }
  }

  lemma ShiftedBackDiffers(x: Word16, n: nat, p: int, v: int, m: int)
    requires p == Pow2(n) && v == x * p && m != 0 && x != 0
    requires Wrap16(v) == v + m * 0x1_0000
    ensures Wrap16(v) / p != x
  {
    if n <= 15 {
      assert p <= 0x8000 by { Pow2Values(); Pow2Mono(n, 15); }
      WrappedShift(x, p, Wrap16(v), m, 0x1_0000);
    } else {
      assert Wrap16(v) == 0 by { WideShift(x, n); }
      DivZero(p);
    }
  }

  /** Shifting a 16-bit value by 16 or more leaves nothing in the low half. */
  lemma WideShift(x: int, n: nat)
    requires n >= 16
    ensures Wrap16(x * Pow2(n)) == 0
  {
    var q := Pow2(n - 16);
    Pow2Values();
    Pow2Split(16, n - 16);
    Regroup(x, q);
    Aligned(x * q);
  }

  lemma Aligned(k: int)
    ensures Wrap16(k * 0x1_0000) == 0
  {
  }

  lemma DivZero(p: int)
    requires p > 0
    ensures 0 / p == 0
  {
  }

  lemma Regroup(x: int, q: int)
    ensures x * (0x1_0000 * q) == (x * q) * 0x1_0000
  {
  }

  lemma MulMod(k: int, d: int)
    requires d > 0
    ensures (k * d) % d == 0
  {
    MulDiv(k, d);
    assert k * d == (k * d / d) * d + (k * d) % d;
  }

  lemma MulSign(x: int, p: int)
    requires p >= 1
    ensures x >= 0 ==> x * p >= x
    ensures x <= 0 ==> x * p <= x
  {
    if x >= 0 { MulMono(1, p, x); } else { MulMono(1, p, -x); }
  }

  lemma {:induction false} Pow2Split(m: nat, n: nat)
    ensures Pow2(m + n) == Pow2(m) * Pow2(n)
  {
    if m > 0 { Pow2Split(m - 1, n); }
  }
}
