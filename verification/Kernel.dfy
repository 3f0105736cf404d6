/** The larger kernel routines: the 15-step division, the double-precision format
    (hi, lo) and the 32 x 32 bit multiplication on it. */
module Kernel {
  import opened FixedPoint

  // ----- div_s -----

  /** div_s prints an error and aborts outside this range. */
  predicate DivSDefined(a: Word16, b: Word16) {
    0 <= a <= b && b != 0
  }

  /** What div_s promises: the Q15 quotient, rounded down, with 1.0 clipped. */
  function Quotient(a: Word16, b: Word16): (q: Word16)
    requires DivSDefined(a, b)
    ensures 0 <= q
    ensures a < b ==> q * b <= a * 0x8000 < (q + 1) * b
    ensures a == b ==> q == MAX_16
  {
    if a == b then MAX_16
    else
      QuotientBounds(a, b);
      a * 0x8000 / b
  }

  lemma QuotientBounds(a: int, b: int)
    requires 0 <= a < b
    ensures 0 <= a * 0x8000 / b < 0x8000
    ensures (a * 0x8000 / b) * b <= a * 0x8000 < (a * 0x8000 / b + 1) * b
  {
    var q := a * 0x8000 / b;
    assert a * 0x8000 == q * b + (a * 0x8000) % b;
    if q >= 0x8000 { MulMono(0x8000, q, b); }
    if q < 0 { MulMono(q, -1, b); }
  }

  /** After k steps: r is the quotient of a * 2^k by b and num the remainder. */
  predicate DivState(a: int, b: int, k: nat, r: int, num: int) {
    0 <= num < b && 0 <= r < Pow2(k) && a * Pow2(k) == r * b + num
  }

  lemma DivStart(a: int, b: int)
    requires 0 <= a < b
    ensures DivState(a, b, 0, 0, a)
  {
  }

  lemma DivStep(a: int, b: int, k: nat, r: int, num: int)
    requires DivState(a, b, k, r, num) && k < 15 && b <= MAX_16
    ensures 0 <= num < b && 0 <= r < 0x4000
    ensures if 2 * num >= b then DivState(a, b, k + 1, 2 * r + 1, 2 * num - b)
            else DivState(a, b, k + 1, 2 * r, 2 * num)
  {
    assert Pow2(k) <= 0x4000 by { assert Pow2(7) == 128; assert Pow2(14) == 0x4000; Pow2Mono(k, 14); }
    Doubled(a, Pow2(k), r, b, num);
  }

  lemma Doubled(a: int, p: int, r: int, b: int, num: int)
    requires a * p == r * b + num
    ensures a * (2 * p) == (2 * r) * b + 2 * num
    ensures a * (2 * p) == (2 * r + 1) * b + (2 * num - b)
  {
  }

  lemma DivEnd(a: Word16, b: Word16, r: int, num: int)
    requires 0 <= a < b && DivState(a, b, 15, r, num)
    ensures r == Quotient(a, b)
  {
    Pow2Values();
    EuclidUnique(a * 0x8000, b, r, num);
  }

  lemma ZeroQuotient(b: Word16)
    requires b > 0
    ensures Quotient(0, b) == 0
  {
  }

  /** Shift-and-subtract division, one quotient bit a step. */
  method DivS(a: Word16, b: Word16) returns (r: Word16)
    requires DivSDefined(a, b)
    ensures r == Quotient(a, b)
  {
    hide Quotient;
    if a == 0 {
      ZeroQuotient(b);
      return 0;
    }
    if a == b {
      return MAX_16;
    }
    r := 0;
    var num: Word32 := a;
    DivStart(a, b);
    hide DivState;
    for k := 0 to 15
      invariant DivState(a, b, k, r, num)
    {
      DivStep(a, b, k, r, num);
      r := Wrap16(2 * r);
      num := Wrap32(2 * num);
      if num >= b {
        num := num - b;
        r := r + 1;
      }
    }
    DivEnd(a, b, r, num);
  }

  // ----- norm_l and L_shl -----

  /** Shifting by norm_l never saturates and puts x into the top octave. */
  lemma NormalizeExact(x: Word32)
    requires x != 0
    ensures LShl(x, NormL(x)) == x * Pow2(NormL(x))
    ensures Normalized(LShl(x, NormL(x)))
  {
    LShlSaturates(x, NormL(x));
  }

  /** norm_l is the only such shift count. */
  lemma NormUnique(x: Word32, n: nat)
    requires x != 0 && Normalized(x * Pow2(n))
    ensures n == NormL(x)
  {
    var m := NormL(x);
    if m < n { OctaveGap(x, m, n); }
    if n < m { OctaveGap(x, n, m); }
  }

  lemma OctaveGap(x: int, m: nat, n: nat)
    requires m < n && Normalized(x * Pow2(m))
    ensures !Normalized(x * Pow2(n))
  {
    Pow2Split(m, n - m);
    MulAssoc(x, Pow2(m), Pow2(n - m));
    BeyondOctave(x * Pow2(m), Pow2(n - m));
  }

  lemma BeyondOctave(v: int, d: int)
    requires Normalized(v) && d >= 2
    ensures !Normalized(v * d)
  {
    if v > 0 { MulMono(2, d, v); } else { MulMono(2, d, -v); }
  }

  lemma MulAssoc(x: int, p: int, d: int)
    ensures x * (p * d) == (x * p) * d
  {
  }

  /** norm_s counts the shifts that bring a 16-bit value into its top octave. */
  lemma NormalizeShort(x: Word16)
    requires x != 0
    ensures NormS(x) <= 15
    ensures Shl(x, NormS(x)) == x * Pow2(NormS(x))
    ensures 0x4000 <= Shl(x, NormS(x)) || Shl(x, NormS(x)) < -0x4000
  {
    var n := NormS(x);
    var v := x * Pow2(n);
    assert (x * 0x1_0000) * Pow2(n) == v * 0x1_0000 by { Swap(x, 0x1_0000, Pow2(n)); }
    ShlSaturates(x, n);
    if n > 15 { TooFar(x, n); }
  }

  lemma Swap(x: int, k: int, p: int)
    ensures (x * k) * p == (x * p) * k
  {
  }

  lemma TooFar(x: int, n: nat)
    requires x != 0 && n > 15
    ensures !(MIN_16 <= x * Pow2(n) <= MAX_16)
  {
    Pow2Values();
    Pow2Mono(16, n);
    if x > 0 { MulMono(1, x, Pow2(n)); } else { MulMono(x, -1, Pow2(n)); }
  }

  // ----- double-precision format -----

  function LComp(hi: Word16, lo: Word16): int { hi * 0x1_0000 + 2 * lo }

  function ExtractHi(x: Word32): Word16 { x / 0x1_0000 }

  function ExtractLo(x: Word32): Word16 { Wrap16(x / 2 - ExtractHi(x) * 0x8000) }

  /** A pair as L_Extract makes it: the low part carries no sign. */
  predicate ValidDpf(hi: Word16, lo: Word16) { 0 <= lo }

  lemma ExtractThenCompose(x: Word32)
    ensures ValidDpf(ExtractHi(x), ExtractLo(x))
    ensures LComp(ExtractHi(x), ExtractLo(x)) == x - x % 2
  {
    var hi := ExtractHi(x);
    assert x == hi * 0x1_0000 + x % 0x1_0000;
    assert 0 <= x / 2 - hi * 0x8000 < 0x8000;
  }

  lemma ComposeThenExtract(hi: Word16, lo: Word16)
    requires ValidDpf(hi, lo)
    ensures MIN_32 <= LComp(hi, lo) <= MAX_32
    ensures ExtractHi(LComp(hi, lo)) == hi && ExtractLo(LComp(hi, lo)) == lo
  {
  }

  /** The upper half of the register built by (hi << 16 | lo): a negative lo is
      sign-extended and overwrites hi. */
  function TopHalf(hi: Word16, lo: Word16): Word16 {
    if lo < 0 then -1 else hi
  }

  /** The accumulation of the three partial products, each doubling and each addition
      saturating. */
  function SumPartials(high: int, cross1: int, cross2: int): Word32 {
    LAdd(LAdd(Sat32(2 * high), Sat32(2 * (cross1 / 0x8000))), Sat32(2 * (cross2 / 0x8000)))
  }

  function Mpy32(hi1: Word16, lo1: Word16, hi2: Word16, lo2: Word16): Word32 {
    var t1, t2 := TopHalf(hi1, lo1), TopHalf(hi2, lo2);
    SumPartials(t1 * t2, t1 * lo2, lo1 * t2)
  }

  /** Mpy_32 truncates each partial product and drops lo * lo: scaled by 2^31, its
      result is at most the exact product and less than 6 units below it. */
  lemma Mpy32Error(hi1: Word16, lo1: Word16, hi2: Word16, lo2: Word16)
    requires ValidDpf(hi1, lo1) && ValidDpf(hi2, lo2)
    requires !(hi1 == MIN_16 && hi2 == MIN_16)
    ensures var exact := LComp(hi1, lo1) * LComp(hi2, lo2);
            var scaled := Mpy32(hi1, lo1, hi2, lo2) * 0x8000_0000;
            scaled <= exact < scaled + 6 * 0x8000_0000
  {
    hide SumPartials;
    CrossTerms(hi1, lo1, hi2, lo2);
    PartialProduct(hi1, lo2);
    PartialProduct(hi2, lo1);
    HighProduct(hi1, hi2);
    NoSaturation(hi1, hi2, hi1 * hi2, hi1 * lo2, lo1 * hi2);
    TruncationGap(hi1 * hi2, hi1 * lo2, lo1 * hi2, lo1 * lo2);
  }

  lemma TruncationGap(a: int, b: int, c: int, d: int)
    requires 0 <= d <= 32767 * 32767
    ensures var exact := 0x1_0000_0000 * a + 0x2_0000 * b + 0x2_0000 * c + 4 * d;
            var scaled := (2 * a + 2 * (b / 0x8000) + 2 * (c / 0x8000)) * 0x8000_0000;
            scaled <= exact < scaled + 6 * 0x8000_0000
  {
  }

  /** A truncated cross term lies between 0 and the high part. */
  predicate Between(hi: Word16, q: int) { if hi >= 0 then 0 <= q <= hi else hi <= q <= 0 }

  predicate HighRange(x: Word16, y: Word16, a: int) {
    if x >= 0 && y >= 0 then 0 <= a <= 32767 * 32767
    else if x < 0 && y < 0 then 0 <= a <= 32767 * 32768
    else -32768 * 32767 <= a <= 0
  }

  lemma NoSaturation(hi1: Word16, hi2: Word16, a: int, b: int, c: int)
    requires HighRange(hi1, hi2, a) && Between(hi1, b / 0x8000) && Between(hi2, c / 0x8000)
    ensures SumPartials(a, b, c) == 2 * a + 2 * (b / 0x8000) + 2 * (c / 0x8000)
  {
  }

  lemma CrossTerms(hi1: Word16, lo1: Word16, hi2: Word16, lo2: Word16)
    requires 0 <= lo1 && 0 <= lo2
    ensures 0 <= lo1 * lo2 <= 32767 * 32767
    ensures (hi1 * 0x1_0000 + 2 * lo1) * (hi2 * 0x1_0000 + 2 * lo2)
         == 0x1_0000_0000 * (hi1 * hi2) + 0x2_0000 * (hi1 * lo2) + 0x2_0000 * (lo1 * hi2) + 4 * (lo1 * lo2)
  {
    MulMono(lo2, 32767, lo1);
    MulMono(lo1, 32767, 32767);
    var a, b, c, d := hi1 * 0x1_0000, 2 * lo1, hi2 * 0x1_0000, 2 * lo2;
    assert (a + b) * (c + d) == a * c + a * d + b * c + b * d;
    assert a * c == 0x1_0000_0000 * (hi1 * hi2);
    assert a * d == 0x2_0000 * (hi1 * lo2);
    assert b * c == 0x2_0000 * (lo1 * hi2);
  }

  lemma PartialProduct(hi: Word16, lo: Word16)
    requires 0 <= lo
    ensures Between(hi, hi * lo / 0x8000)
  {
    if hi >= 0 { MulMono(lo, 0x8000, hi); MulMono(0, lo, hi); }
    else { MulMono(lo, 0x8000, 0 - hi); MulMono(0, lo, 0 - hi); }
  }

  lemma HighProduct(x: Word16, y: Word16)
    requires !(x == MIN_16 && y == MIN_16)
    ensures HighRange(x, y, x * y)
  {
    if x >= 0 && y >= 0 { MulBounds(x, y, 32767, 32767); MulMono(0, y, x); }
    else if x < 0 && y < 0 {
      MulMono(0, 0 - y, 0 - x);
      if x == MIN_16 { MulMono(0 - y, 32767, 32768); } else { MulBounds(x, y, 32767, 32768); }
    } else if x >= 0 {
      MulMono(y, 0, x); MulBounds(x, y, 32767, 32768);
    } else {
      MulMono(x, 0, y); MulBounds(x, y, 32768, 32767);
    }
  }
}
