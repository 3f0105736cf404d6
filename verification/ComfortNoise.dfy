/** The comfort noise generator: a feedback shift register (pseudonoise) and the ten-pulse
    code vector drawn from it (build_CN_code). */
module ComfortNoise {
  import opened FixedPoint

  // ----- one step of the register -----

  /** Bit i of the two's complement representation. */
  predicate Bit(x: Word32, i: nat) { (x as int) / Pow2(i) % 2 == 1 }

  /** The two stages the feedback reads, 31 and 3: bits 0 and 28. */
  predicate Feedback(x: Word32) {
    ((x as int) % 2 == 1) != ((x as int) / 0x1000_0000 % 2 == 1)
  }

  function SetBit30(x: Word32): Word32
    requires -0x4000_0000 <= x < 0x4000_0000
  {
    if (x as int) / 0x4000_0000 % 2 == 1 then x else x + 0x4000_0000
  }

  /** L_shr by one keeps the sign bit; the feedback enters at bit 30. */
  function Step(x: Word32): Word32 {
    var shifted: Word32 := (x as int) / 2;
    if Feedback(x) then SetBit30(shifted) else shifted
  }

  function After(x: Word32, n: nat): Word32
    decreases n
  {
    if n == 0 then x else After(Step(x), n - 1)
  }

  /** The n-th output bit. */
  function Tap(x: Word32, n: nat): (b: nat)
    ensures b <= 1
  {
    (After(x, n) as int) % 2
  }

  /** The first n output bits read as a binary number, the first one most significant. */
  function Drawn(x: Word32, n: nat): nat
    decreases n
  {
    if n == 0 then 0 else 2 * Drawn(x, n - 1) + Tap(x, n - 1)
  }

  lemma {:induction false} AfterAdds(x: Word32, m: nat, n: nat)
    ensures After(x, m + n) == After(After(x, m), n)
    decreases m
  {
    hide Step;
    if m > 0 { AfterAdds(Step(x), m - 1, n); }
  }

  lemma AfterOne(x: Word32, n: nat)
    ensures After(x, n + 1) == Step(After(x, n))
  {
    AfterAdds(x, n, 1);
    assert After(After(x, n), 1) == After(Step(After(x, n)), 0);
  }

  // ----- drawing bits -----

  lemma ShiftIn(v: nat, b: nat)
    requires b <= 1
    ensures var s := Shl(Sat16(v), 1);
            0 <= s && (if (s as int) % 2 == 0 then (s as int) + b else s) == Sat16(2 * v + b)
  {
    ShlSaturates(Sat16(v), 1);
    assert Pow2(1) == 2 by { assert Pow2(0) == 1; }
  }

  /** The state word, as its callers share it. */
  class ShiftRegister {
    var reg: Word32

    constructor (seed: Word32)
      ensures reg == seed
    {
      reg := seed;
    }

    /** pseudonoise: the register moves n steps and the n bits that fell out are returned
        as a number, which stays at 32767 once it no longer fits 16 bits. */
    method Pseudonoise(n: nat) returns (noiseBits: Word16)
      modifies this
      ensures reg == After(old(reg), n)
      ensures noiseBits == Sat16(Drawn(old(reg), n))
    {
      hide Step, Shl, Feedback, SetBit30;
      noiseBits := 0;
      for i := 0 to n
        invariant reg == After(old(reg), i)
        invariant noiseBits == Sat16(Drawn(old(reg), i))
      {
        ShiftIn(Drawn(old(reg), i), Tap(old(reg), i));
        noiseBits := Shl(noiseBits, 1);
        if (noiseBits as int) % 2 == 0 {
          noiseBits := (noiseBits as int) + (reg as int) % 2;
        }
        AfterOne(old(reg), i);
        Advance();
      }
    }

    /** The shift and the feedback of one iteration. */
    method Advance()
      modifies this
      ensures reg == Step(old(reg))
    {
      var sn := Feedback(reg);
      reg := (reg as int) / 2;
      if sn {
        reg := SetBit30(reg);
      }
    }

    /** build_CN_code: three bits per pulse, two for the position and one for the sign. */
    method BuildCnCode(cod: array<int>)
      requires cod.Length == 40
      modifies this, cod
      ensures reg == After(old(reg), 30)
      ensures cod[..] == CnCode(old(reg))
    {
      hide After, Drawn, CnPulse, Position, Shr, Sat16;
      for i := 0 to 40
        invariant forall j :: 0 <= j < i ==> cod[j] == 0
        invariant reg == old(reg)
      {
        cod[i] := 0;
      }
      AtStart(reg);
      for k := 0 to 10
        invariant reg == After(old(reg), 3 * k)
        invariant forall i :: 0 <= i < 40 ==> cod[i] == (if i % 10 < k then CnPulse(old(reg), i) else 0)
      {
        PulseDraws(old(reg), k);
        var i := Pseudonoise(2);
        var j := Pseudonoise(1);
        i := Add(Shr(ExtractL(LMult(i, 10)), 1), k);
        cod[i] := if j > 0 then 4096 else -4096;
      }
    }
  }

  // ----- the code vector a register state stands for -----

  /** Where the k-th pulse goes: two bits choose one of k, k + 10, k + 20, k + 30. */
  function Position(x: Word32, k: nat): nat { 10 * Drawn(After(x, 3 * k), 2) + k }

  /** Sample i of the vector: column i % 10 holds exactly one pulse. */
  function CnPulse(x: Word32, i: nat): int {
    if Position(x, i % 10) != i then 0
    else if Tap(x, 3 * (i % 10) + 2) == 1 then 4096 else -4096
  }

  function CnCode(x: Word32): seq<int> { seq(40, i requires 0 <= i < 40 => CnPulse(x, i)) }

  lemma AtStart(x: Word32)
    ensures After(x, 0) == x
  {
  }

  lemma DrawnSmall(x: Word32)
    ensures Drawn(x, 1) == Tap(x, 0)
    ensures Drawn(x, 2) == 2 * Tap(x, 0) + Tap(x, 1)
  {
    assert Drawn(x, 0) == 0;
    assert Drawn(x, 1) == 2 * Drawn(x, 0) + Tap(x, 0);
  }

  /** The three draws of pulse k, as the loop body makes them. */
  lemma PulseDraws(x: Word32, k: nat)
    requires k < 10
    ensures var at := After(x, 3 * k);
            var i := Sat16(Drawn(at, 2));
            var j := Sat16(Drawn(After(at, 2), 1));
            && After(After(at, 2), 1) == After(x, 3 * (k + 1))
            && Add(Shr(ExtractL(LMult(i, 10)), 1), k) == Position(x, k)
            && Position(x, k) < 40 && Position(x, k) % 10 == k
            && CnPulse(x, Position(x, k)) == (if j > 0 then 4096 else -4096)
            && forall i :: 0 <= i < 40 && i % 10 == k && i != Position(x, k) ==> CnPulse(x, i) == 0
  {
    hide After, Drawn, Tap, Shr, LMult, ExtractL;
    var at := After(x, 3 * k);
    DrawnSmall(at);
    DrawnSmall(After(at, 2));
    AfterAdds(x, 3 * k, 2);
    AfterAdds(x, 3 * k + 2, 1);
    AtStart(After(at, 2));
    TapLater(x, 3 * k + 2);
    TenTimes(Drawn(at, 2));
  }

  lemma TenTimes(v: nat)
    requires v <= 3
    ensures Shr(ExtractL(LMult(v, 10)), 1) == 10 * v
  {
    assert Pow2(1) == 2 by { assert Pow2(0) == 1; }
  }

  lemma TapLater(x: Word32, n: nat)
    ensures Tap(x, n) == Tap(After(x, n), 0)
  {
    AfterAdds(x, n, 0);
  }

  /** Whatever the seed, the vector has exactly ten non-zero samples, each 4096 in
      magnitude, one for every residue modulo 10. */
  lemma TenPulses(x: Word32)
    ensures |CnCode(x)| == 40
    ensures forall i :: 0 <= i < 40 ==> CnCode(x)[i] in {-4096, 0, 4096}
    ensures forall k :: 0 <= k < 10 ==>
      Position(x, k) < 40 && Position(x, k) % 10 == k && CnCode(x)[Position(x, k)] != 0
    ensures forall i :: 0 <= i < 40 && CnCode(x)[i] != 0 ==> i == Position(x, i % 10)
  {
    hide After, Drawn, Tap, Position;
    forall k | 0 <= k < 10
      ensures Position(x, k) < 40 && Position(x, k) % 10 == k && CnCode(x)[Position(x, k)] != 0
    {
      PulseDraws(x, k);
    }
  }

  // ----- the shift register as a map on 31-bit states -----

  /** The step undone: the lost bit is the xor of bits 30 and 27. */
  function Back(y: Word32): Word32
    requires y >= 0
  {
    var low := (y as int) % 0x4000_0000;
    var lost := ((y as int) / 0x4000_0000 + (y as int) / 0x800_0000 % 2) % 2;
    2 * low + lost
  }

  /** On states with a clear sign bit the step is a permutation. */
  lemma StepIsPermutation(x: Word32)
    requires x >= 0
    ensures Step(x) >= 0 && Back(Step(x)) == x
    ensures Back(x) >= 0 && Step(Back(x)) == x
  {
    StepThenBack(x);
    BackThenStep(x);
  }

  lemma StepThenBack(x: Word32)
    requires x >= 0
    ensures Step(x) >= 0 && Back(Step(x)) == x
  {
    var q := (x as int) / 2;
    assert q / 0x800_0000 == (x as int) / 0x1000_0000;
    assert (q + 0x4000_0000) / 0x800_0000 == q / 0x800_0000 + 8;
    assert q / 0x4000_0000 == 0;
  }

  lemma BackThenStep(y: Word32)
    requires y >= 0
    ensures Back(y) >= 0 && Step(Back(y)) == y
  {
    var low := (y as int) % 0x4000_0000;
    var x := Back(y);
    assert (x as int) / 2 == low;
    assert (x as int) / 0x1000_0000 == low / 0x800_0000;
    assert (y as int) == low + 0x4000_0000 * ((y as int) / 0x4000_0000);
    assert (y as int) / 0x800_0000 == low / 0x800_0000 + 8 * ((y as int) / 0x4000_0000);
  }

  /** Bit by bit: everything moves down one place and the feedback enters on top. */
  lemma StepMovesBits(x: Word32, i: nat)
    requires x >= 0 && i <= 30
    ensures Bit(Step(x), i) <==> if i < 30 then Bit(x, i + 1) else Bit(x, 0) != Bit(x, 28)
  {
    if i < 30 {
      MovedDown((x as int) / 2, x, i, Step(x));
    } else {
      StageBits();
    }
  }

  lemma StageBits()
    ensures Pow2(0) == 1 && Pow2(28) == 0x1000_0000 && Pow2(30) == 0x4000_0000
  {
    Pow2Values();
    assert Pow2(29) == 2 * Pow2(28);
  }

  /** Adding 2^30 does not change the bits below. */
  lemma MovedDown(q: int, x: int, i: nat, y: int)
    requires i < 30 && q == x / 2 && (y == q || y == q + 0x4000_0000)
    ensures y / Pow2(i) % 2 == x / Pow2(i + 1) % 2
  {
    HalfThenShift(x, Pow2(i));
    Pow2Values();
    Pow2Split(i, 30 - i);
    var half := Pow2(29 - i);
    if y != q { AddedAbove(q, Pow2(i), half); }
  }

  lemma HalfThenShift(x: int, p: int)
    requires p > 0
    ensures x / 2 / p == x / (2 * p)
  {
    var q := x / 2;
    var r := q / p;
    assert q == r * p + q % p;
    assert r * (2 * p) == 2 * (r * p);
    EuclidUnique(x, 2 * p, r, 2 * (q % p) + x % 2);
  }

  lemma Regrouped(r: int, half: int, p: int)
    ensures (r + 2 * half) * p == r * p + p * (2 * half)
  {
  }

  lemma SameParity(r: int, half: int)
    ensures (r + 2 * half) % 2 == r % 2
  {
  }

  lemma AddedAbove(q: int, p: int, half: int)
    requires p > 0 && 0x4000_0000 == p * (2 * half)
    ensures (q + 0x4000_0000) / p % 2 == q / p % 2
  {
    var r := q / p;
    assert q == r * p + q % p;
    Regrouped(r, half, p);
    EuclidUnique(q + 0x4000_0000, p, r + 2 * half, q % p);
    SameParity(r, half);
  }

  ghost predicate IsXor(x: Word32, y: Word32, z: Word32) {
    forall i :: 0 <= i <= 30 ==> (Bit(z, i) <==> Bit(x, i) != Bit(y, i))
  }

  lemma StepIsLinear(x: Word32, y: Word32, z: Word32)
    requires x >= 0 && y >= 0 && z >= 0 && IsXor(x, y, z)
    ensures IsXor(Step(x), Step(y), Step(z))
  {
    hide Step, Bit;
    forall i | 0 <= i <= 30
      ensures Bit(Step(z), i) <==> Bit(Step(x), i) != Bit(Step(y), i)
    {
      BitOfXor(x, y, z, i);
    }
  }

  lemma BitOfXor(x: Word32, y: Word32, z: Word32, i: nat)
    requires x >= 0 && y >= 0 && z >= 0 && IsXor(x, y, z) && i <= 30
    ensures Bit(Step(z), i) <==> Bit(Step(x), i) != Bit(Step(y), i)
  {
    hide Step, Bit;
    StepMovesBits(x, i);
    StepMovesBits(y, i);
    StepMovesBits(z, i);
  }

  /** The step, and so any number of steps, distributes over exclusive or. */
  lemma {:induction false} StepsAreLinear(x: Word32, y: Word32, z: Word32, n: nat)
    requires x >= 0 && y >= 0 && z >= 0 && IsXor(x, y, z)
    ensures After(x, n) >= 0 && After(y, n) >= 0 && After(z, n) >= 0
    ensures IsXor(After(x, n), After(y, n), After(z, n))
    decreases n
  {
    hide Step, Back, IsXor;
    if n > 0 {
      StepIsPermutation(x);
      StepIsPermutation(y);
      StepIsPermutation(z);
      StepIsLinear(x, y, z);
      StepsAreLinear(Step(x), Step(y), Step(z), n - 1);
    }
  }

  /** Zero is the only state the register stays in, and the only one that leads to zero. */
  lemma {:induction false} NeverDies(x: Word32, n: nat)
    requires x >= 0
    ensures Step(x) == x <==> x == 0
    ensures After(x, n) >= 0 && (After(x, n) == 0 <==> x == 0)
    decreases n
  {
    hide Step, Back;
    StepIsPermutation(x);
    ZeroStays();
    if Step(x) == x { FixedPointIsZero(x); }
    if n > 0 { NeverDies(Step(x), n - 1); }
  }

  lemma ZeroStays()
    ensures Step(0) == 0 && Back(0) == 0
  {
  }

  lemma FixedPointIsZero(x: Word32)
    requires x >= 0 && Step(x) == x
    ensures x == 0
  {
    var q := (x as int) / 2;
    assert x == q || x == q + 0x4000_0000;
    assert x == 0x7fff_ffff || x == 0;
  }

  // ----- the output as a linear recurrence -----

  /** Bit i of the state is the output i steps later. */
  lemma {:induction false} BitsAreTheFuture(x: Word32, i: nat)
    requires x >= 0 && i <= 30
    ensures Bit(x, i) <==> Tap(x, i) == 1
    decreases i
  {
    hide Step, Bit;
    if i == 0 {
      LowestBit(x);
    } else {
      StepIsPermutation(x);
      StepMovesBits(x, i - 1);
      BitsAreTheFuture(Step(x), i - 1);
    }
  }

  lemma LowestBit(x: Word32)
    ensures Bit(x, 0) <==> Tap(x, 0) == 1
  {
    assert Pow2(0) == 1;
  }

  /** The characteristic equation 1 + t^28 + t^31. */
  lemma Recurrence(x: Word32, n: nat)
    requires x >= 0
    ensures Tap(x, n + 31) == (Tap(x, n) + Tap(x, n + 28)) % 2
  {
    hide Tap, After;
    NeverDies(x, n);
    FirstRecurrence(After(x, n));
    TapShift(x, n, 0);
    TapShift(x, n, 28);
    TapShift(x, n, 31);
  }

  lemma FirstRecurrence(y: Word32)
    requires y >= 0
    ensures Tap(y, 31) == (Tap(y, 0) + Tap(y, 28)) % 2
  {
    hide Step, Back, Bit, Tap;
    StepIsPermutation(y);
    StepMovesBits(y, 30);
    BitsAreTheFuture(y, 0);
    BitsAreTheFuture(y, 28);
    BitsAreTheFuture(Step(y), 30);
    TapStep(y, 30);
    SumOfBits(Tap(y, 0), Tap(y, 28), Tap(y, 31));
  }

  lemma SumOfBits(a: nat, b: nat, c: nat)
    requires a <= 1 && b <= 1 && c <= 1
    ensures (c == 1 <==> (a == 1) != (b == 1)) ==> c == (a + b) % 2
  {
  }

  lemma TapStep(y: Word32, n: nat)
    ensures Tap(y, n + 1) == Tap(Step(y), n)
  {
  }

  lemma TapShift(x: Word32, n: nat, m: nat)
    ensures Tap(x, n + m) == Tap(After(x, n), m)
  {
    AfterAdds(x, n, m);
  }

  // ----- what the arithmetic shift does to other seeds -----

  /** L_shr copies the sign bit and the feedback only sets bits, so a seed with the sign
      bit set loses its contents: after 31 steps every bit is one, for good. */
  lemma NegativeSeedSaturates(x: Word32, n: nat)
    requires x < 0
    ensures After(x, n) < 0
    ensures n >= 31 ==> After(x, n) == -1 && Tap(x, n) == 1
  {
    NegativeHalves(x, n);
    if n >= 31 {
      Pow2Values();
      Pow2Mono(31, n);
      EuclidUnique(x, Pow2(n), -1, x + Pow2(n));
    }
  }

  lemma {:induction false} NegativeHalves(x: Word32, n: nat)
    requires x < 0
    ensures After(x, n) < 0 && (After(x, n) as int) == (x as int) / Pow2(n)
    decreases n
  {
    if n > 0 {
      assert Step(x) == (x as int) / 2 by { assert (x as int) / 2 / 0x4000_0000 == -1; }
      NegativeHalves(Step(x), n - 1);
      HalfThenShift(x, Pow2(n - 1));
    } else {
      assert Pow2(0) == 1;
    }
  }

  // ----- the code vector from the bits of the seed -----

  function BitValue(x: Word32, i: nat): nat { if Bit(x, i) then 1 else 0 }

  /** For a seed without the sign bit: pulse k goes to 10 (2 a + b) + k and is positive
      exactly if c is set, where a, b, c are bits 3 k, 3 k + 1 and 3 k + 2 of the seed. */
  lemma CodeFromSeed(x: Word32, k: nat)
    requires x >= 0 && k < 10
    ensures var p := 10 * (2 * BitValue(x, 3 * k) + BitValue(x, 3 * k + 1)) + k;
            p < 40 && CnCode(x)[p] == if Bit(x, 3 * k + 2) then 4096 else -4096
  {
    hide After, Drawn, Tap, Bit;
    var at := After(x, 3 * k);
    DrawnSmall(at);
    TapLater(x, 3 * k);
    AfterAdds(x, 3 * k, 1);
    TapLater(x, 3 * k + 1);
    TapLater(at, 1);
    BitsAreTheFuture(x, 3 * k);
    BitsAreTheFuture(x, 3 * k + 1);
    BitsAreTheFuture(x, 3 * k + 2);
    PulseDraws(x, k);
  }
}
