/** The period of the comfort noise generator: every state but zero returns after exactly
    2^31 - 1 steps. The shift operator E acts on the output as a root of 1 + t^28 + t^31;
    squaring it 31 times gives E back, and 2^31 - 1 is prime. */
module NoisePeriod {
  import opened FixedPoint
  import opened ComfortNoise
  import opened Mersenne

  /** A polynomial over GF(2); bit i is the coefficient of t^i. */
  type Poly = bv64

  predicate Out(x: Word32, n: nat) { Tap(x, n) == 1 }

  predicate Low(p: Poly) { p & 1 == 1 }

  function Down(p: Poly): Poly { p >> 1 }

  /** The number of coefficients up to the highest nonzero one. */
  function Length(p: Poly): nat
    decreases p
  {
    if p == 0 then 0
    else
      Smaller(p);
      1 + Length(Down(p))
  }

  lemma Smaller(p: Poly)
    requires p != 0
    ensures Down(p) < p
  {
  }

  lemma Halves(p: Poly)
    requires p != 0
    ensures Length(Down(p)) < Length(p)
  {
  }

  /** The polynomial in E applied to the output, at time n. */
  predicate Apply(p: Poly, x: Word32, n: nat)
    decreases Length(p)
  {
    hide Length, Down, Low, Out;
    if p == 0 then false
    else
      Halves(p);
      (Low(p) && Out(x, n)) != Apply(Down(p), x, n + 1)
  }

  lemma Unfold(p: Poly, x: Word32, n: nat)
    ensures Apply(p, x, n) == ((Low(p) && Out(x, n)) != Apply(Down(p), x, n + 1))
  {
    if p == 0 { assert Down(p) == 0; }
  }

  // ----- addition and multiplication by t -----

  function Plus(p: Poly, q: Poly): Poly { p ^ q }

  lemma PlusBits(p: Poly, q: Poly)
    ensures Low(Plus(p, q)) == (Low(p) != Low(q))
    ensures Down(Plus(p, q)) == Plus(Down(p), Down(q))
    ensures Plus(0, q) == q
  {
  }

  lemma {:induction false} ApplyPlus(p: Poly, q: Poly, x: Word32, n: nat)
    ensures Apply(Plus(p, q), x, n) == (Apply(p, x, n) != Apply(q, x, n))
    decreases Length(p)
  {
    hide Low, Length, Down, Out, Apply, Plus;
    PlusBits(p, q);
    if p == 0 {
      ApplyZero(x, n);
    } else {
      Halves(p);
      ApplyPlus(Down(p), Down(q), x, n + 1);
      PlusStep(p, q, x, n);
    }
  }

  lemma PlusStep(p: Poly, q: Poly, x: Word32, n: nat)
    requires Apply(Plus(Down(p), Down(q)), x, n + 1) == (Apply(Down(p), x, n + 1) != Apply(Down(q), x, n + 1))
    ensures Apply(Plus(p, q), x, n) == (Apply(p, x, n) != Apply(q, x, n))
  {
    hide Low, Length, Down, Out, Apply, Plus;
    PlusBits(p, q);
    Unfold(p, x, n);
    Unfold(q, x, n);
    Unfold(Plus(p, q), x, n);
  }

  lemma ApplyZero(x: Word32, n: nat)
    ensures !Apply(0, x, n)
  {
  }

  function Up1(p: Poly): Poly { p << 1 }

  function Up2(p: Poly): Poly { p << 2 }

  function Up4(p: Poly): Poly { p << 4 }

  function Up8(p: Poly): Poly { p << 8 }

  function Up28(p: Poly): Poly { p << 28 }

  function Up31(p: Poly): Poly { p << 31 }

  /** Room for the shift: the top one, two, four or eight coefficients are zero. */
  predicate Room1(p: Poly) { p & 0x8000_0000_0000_0000 == 0 }

  predicate Room2(p: Poly) { p & 0xc000_0000_0000_0000 == 0 }

  predicate Room4(p: Poly) { p & 0xf000_0000_0000_0000 == 0 }

  predicate Room8(p: Poly) { p & 0xff00_0000_0000_0000 == 0 }

  /** Degree at most 30. */
  predicate Short(p: Poly) { p & 0xffff_ffff_8000_0000 == 0 }

  lemma Up1Bits(p: Poly)
    requires Room1(p)
    ensures !Low(Up1(p)) && Down(Up1(p)) == p
  {
  }

  lemma Up2Bits(p: Poly)
    requires Room2(p)
    ensures Room1(p) && Room1(Up1(p)) && Up1(Up1(p)) == Up2(p)
  {
  }

  lemma Up4Bits(p: Poly)
    requires Room4(p)
    ensures Room2(p) && Room2(Up2(p)) && Up2(Up2(p)) == Up4(p)
  {
  }

  lemma Up8Bits(p: Poly)
    requires Room8(p)
    ensures Room4(p) && Room4(Up4(p)) && Up4(Up4(p)) == Up8(p)
  {
  }

  lemma Up28Bits(p: Poly)
    requires Short(p)
    ensures Room8(p) && Room8(Up8(p)) && Room8(Up8(Up8(p))) && Room4(Up8(Up8(Up8(p))))
    ensures Up4(Up8(Up8(Up8(p)))) == Up28(p)
  {
  }

  lemma Up31Bits(p: Poly)
    requires Short(p)
    ensures Room2(Up28(p)) && Room1(Up2(Up28(p))) && Up1(Up2(Up28(p))) == Up31(p)
  {
  }

  lemma ApplyUp1(p: Poly, x: Word32, n: nat)
    requires Room1(p)
    ensures Apply(Up1(p), x, n) == Apply(p, x, n + 1)
  {
    hide Low, Length, Down, Out, Apply, Up1, Room1;
    Up1Bits(p);
    Unfold(Up1(p), x, n);
  }

  lemma ApplyUp2(p: Poly, x: Word32, n: nat)
    requires Room2(p)
    ensures Apply(Up2(p), x, n) == Apply(p, x, n + 2)
  {
    hide Apply, Up1, Up2, Room1, Room2;
    Up2Bits(p);
    ApplyUp1(p, x, n + 1);
    ApplyUp1(Up1(p), x, n);
  }

  lemma ApplyUp4(p: Poly, x: Word32, n: nat)
    requires Room4(p)
    ensures Apply(Up4(p), x, n) == Apply(p, x, n + 4)
  {
    hide Apply, Up2, Up4, Room2, Room4;
    Up4Bits(p);
    ApplyUp2(p, x, n + 2);
    ApplyUp2(Up2(p), x, n);
  }

  lemma ApplyUp8(p: Poly, x: Word32, n: nat)
    requires Room8(p)
    ensures Apply(Up8(p), x, n) == Apply(p, x, n + 8)
  {
    hide Apply, Up4, Up8, Room4, Room8;
    Up8Bits(p);
    ApplyUp4(p, x, n + 4);
    ApplyUp4(Up4(p), x, n);
  }

  lemma ApplyUp28(p: Poly, x: Word32, n: nat)
    requires Short(p)
    ensures Apply(Up28(p), x, n) == Apply(p, x, n + 28)
  {
    hide Apply, Short, Up4, Up8, Up28, Room4, Room8;
    Up28Bits(p);
    ApplyUp8(p, x, n + 20);
    ApplyUp8(Up8(p), x, n + 12);
    ApplyUp8(Up8(Up8(p)), x, n + 4);
    ApplyUp4(Up8(Up8(Up8(p))), x, n);
  }

  lemma ApplyUp31(p: Poly, x: Word32, n: nat)
    requires Short(p)
    ensures Apply(Up31(p), x, n) == Apply(p, x, n + 31)
  {
    hide Apply, Short, Up1, Up2, Up28, Up31, Room1, Room2;
    Up31Bits(p);
    ApplyUp28(p, x, n + 3);
    ApplyUp2(Up28(p), x, n + 1);
    ApplyUp1(Up2(Up28(p)), x, n);
  }

  /** Multiples of the characteristic polynomial act as zero. */
  lemma {:induction false} Characteristic(r: Poly, x: Word32, n: nat)
    requires x >= 0
    ensures (Apply(r, x, n) != Apply(r, x, n + 28)) == Apply(r, x, n + 31)
    decreases Length(r)
  {
    hide Apply, Tap, Low, Length, Down;
    if r == 0 {
      ApplyZero(x, n);
      ApplyZero(x, n + 28);
      ApplyZero(x, n + 31);
    } else {
      Halves(r);
      Recurrence(x, n);
      Unfold(r, x, n);
      Unfold(r, x, n + 28);
      Unfold(r, x, n + 31);
      Characteristic(Down(r), x, n + 1);
    }
  }

  // ----- squaring -----

  /** The square of a polynomial over GF(2): every bit i moves to 2 i. */
  function Spread(p: Poly): Poly {
    var a := (p | (p << 16)) & 0x0000_ffff_0000_ffff;
    var b := (a | (a << 8)) & 0x00ff_00ff_00ff_00ff;
    var c := (b | (b << 4)) & 0x0f0f_0f0f_0f0f_0f0f;
    var d := (c | (c << 2)) & 0x3333_3333_3333_3333;
    (d | (d << 1)) & 0x5555_5555_5555_5555
  }

  lemma SpreadBits(p: Poly)
    requires Short(p)
    ensures Low(Spread(p)) == Low(p) && !Low(Down(Spread(p)))
    ensures Down(Down(Spread(p))) == Spread(Down(p)) && Short(Down(p))
  {
  }

  /** p(E) applied to q(E) applied to the output. */
  predicate Twice(p: Poly, q: Poly, x: Word32, n: nat)
    decreases Length(p)
  {
    hide Length, Down, Low, Apply;
    if p == 0 then false
    else
      Halves(p);
      (Low(p) && Apply(q, x, n)) != Twice(Down(p), q, x, n + 1)
  }

  lemma UnfoldTwice(p: Poly, q: Poly, x: Word32, n: nat)
    ensures Twice(p, q, x, n) == ((Low(p) && Apply(q, x, n)) != Twice(Down(p), q, x, n + 1))
  {
    hide Apply, Low;
    if p == 0 { assert Down(p) == 0; ZeroLow(); }
  }

  lemma ZeroLow()
    ensures !Low(0)
  {
  }

  /** The lowest term of the second factor taken out. */
  lemma {:induction false} TwiceRight(p: Poly, q: Poly, x: Word32, n: nat)
    ensures Twice(p, q, x, n) == ((Low(q) && Apply(p, x, n)) != Twice(p, Down(q), x, n + 1))
    decreases Length(p)
  {
    hide Apply, Low, Length, Down, Out, Twice;
    if p == 0 {
      ApplyZero(x, n);
      TwiceZero(q, x, n);
      TwiceZero(Down(q), x, n + 1);
    } else {
      Halves(p);
      UnfoldTwice(p, q, x, n);
      UnfoldTwice(p, Down(q), x, n + 1);
      Unfold(p, x, n);
      Unfold(q, x, n);
      TwiceRight(Down(p), q, x, n + 1);
    }
  }

  lemma TwiceZero(q: Poly, x: Word32, n: nat)
    ensures !Twice(0, q, x, n)
  {
  }

  /** The mixed terms of a square cancel. */
  lemma {:induction false} SquareSpreads(p: Poly, x: Word32, n: nat)
    requires Short(p)
    ensures Twice(p, p, x, n) == Apply(Spread(p), x, n)
    decreases Length(p)
  {
    hide Apply, Low, Length, Down, Out, Twice, Spread, Short;
    if p == 0 {
      SpreadZero();
      ApplyZero(x, n);
      TwiceZero(p, x, n);
    } else {
      Halves(p);
      SpreadBits(p);
      UnfoldTwice(p, p, x, n);
      Unfold(p, x, n);
      TwiceRight(Down(p), p, x, n + 1);
      Unfold(Spread(p), x, n);
      Unfold(Down(Spread(p)), x, n + 1);
      SquareSpreads(Down(p), x, n + 2);
    }
  }

  lemma SpreadZero()
    ensures Spread(0) == 0
  {
  }

  // ----- powers of the shift operator -----

  /** m steps act on the output as the polynomial p does. */
  ghost predicate Acts(x: Word32, m: nat, p: Poly) {
    forall n: nat :: Out(x, n + m) == Apply(p, x, n)
  }

  lemma ActsAt(x: Word32, m: nat, p: Poly, n: nat)
    requires Acts(x, m, p)
    ensures Out(x, m + n) == Apply(p, x, n)
  {
    assert m + n == n + m;
  }

  lemma {:induction false} ActsAfter(x: Word32, m: nat, p: Poly, q: Poly, n: nat)
    requires Acts(x, m, p)
    ensures Apply(q, x, n + m) == Twice(q, p, x, n)
    decreases Length(q)
  {
    hide Apply, Low, Length, Down, Out, Twice;
    if q == 0 {
      ApplyZero(x, n + m);
      TwiceZero(p, x, n);
    } else {
      Halves(q);
      Unfold(q, x, n + m);
      UnfoldTwice(q, p, x, n);
      ActsAfter(x, m, p, Down(q), n + 1);
      assert n + m + 1 == (n + 1) + m;
      assert Out(x, n + m) == Apply(p, x, n);
    }
  }

  /** Twice as many steps act as the square, reduced by the multiple r of the
      characteristic polynomial. */
  lemma Squared(x: Word32, k: nat, p: Poly, r: Poly, q: Poly)
    requires x >= 0 && Acts(x, Pow2(k), p) && Short(p) && Short(r)
    requires Spread(p) == Plus(q, Plus(r, Plus(Up28(r), Up31(r))))
    ensures Acts(x, Pow2(k + 1), q)
  {
    hide Apply, Out, Twice, Spread, Plus, Up28, Up31, Short;
    var m := Pow2(k);
    forall n: nat
      ensures Out(x, n + Pow2(k + 1)) == Apply(q, x, n)
    {
      assert n + Pow2(k + 1) == (n + m) + m;
      assert Out(x, (n + m) + m) == Apply(p, x, n + m);
      ActsAfter(x, m, p, p, n);
      SquareSpreads(p, x, n);
      ReducedSquare(q, r, x, n);
    }
  }

  lemma ReducedSquare(q: Poly, r: Poly, x: Word32, n: nat)
    requires x >= 0 && Short(r)
    ensures Apply(Plus(q, Plus(r, Plus(Up28(r), Up31(r)))), x, n) == Apply(q, x, n)
  {
    hide Apply, Short, Plus, Up28, Up31;
    ApplyPlus(q, Plus(r, Plus(Up28(r), Up31(r))), x, n);
    ApplyPlus(r, Plus(Up28(r), Up31(r)), x, n);
    ApplyPlus(Up28(r), Up31(r), x, n);
    ApplyUp28(r, x, n);
    ApplyUp31(r, x, n);
    Characteristic(r, x, n);
  }

  /** One step is multiplication by t. */
  lemma OneStepActs(x: Word32)
    ensures Acts(x, Pow2(0), 2)
  {
    hide Tap;
    forall n: nat
      ensures Out(x, n + Pow2(0)) == Apply(2, x, n)
    {
      assert Down(2) == 1 && Down(1) == 0;
      Unfold(2, x, n);
      Unfold(1, x, n + 1);
      ApplyZero(x, n + 2);
    }
  }

  /** t^(2^k) modulo the characteristic polynomial, for k up to 16. */
  lemma FirstSquares(x: Word32)
    requires x >= 0
    ensures Acts(x, Pow2(16), 0x9001c1)
  {
    hide Acts, Pow2;
    OneStepActs(x);
    Squared(x, 0, 0x2, 0x0, 0x4);
    Squared(x, 1, 0x4, 0x0, 0x10);
    Squared(x, 2, 0x10, 0x0, 0x100);
    Squared(x, 3, 0x100, 0x0, 0x10000);
    Squared(x, 4, 0x10000, 0x2, 0x20000002);
    Squared(x, 5, 0x20000002, 0x9249249, 0x1924924d);
    Squared(x, 6, 0x1924924d, 0x2d92d92, 0x63dd3dc3);
    Squared(x, 7, 0x63dd3dc3, 0x2dbd02fd, 0x78ec52f8);
    Squared(x, 8, 0x78ec52f8, 0x2f6d0992, 0x1e695cd2);
    Squared(x, 9, 0x1e695cd2, 0x2f6f64b, 0x23a6a74f);
    Squared(x, 10, 0x23a6a74f, 0x92f64bf, 0x3d3a74ea);
    Squared(x, 11, 0x3d3a74ea, 0xbd92f64, 0x5ec97b20);
    Squared(x, 12, 0x5ec97b20, 0x26642402, 0x13212002);
    Squared(x, 13, 0x13212002, 0x2424002, 0x26424006);
    Squared(x, 14, 0x26424006, 0x9090009, 0x909001d);
    Squared(x, 15, 0x909001d, 0x900090, 0x9001c1);
  }

  /** And from there to t^(2^31), which is t again. */
  lemma AllSquares(x: Word32)
    requires x >= 0
    ensures Acts(x, Pow2(31), 2)
  {
    hide Acts, Pow2;
    FirstSquares(x);
    Squared(x, 16, 0x9001c1, 0x9000, 0x1c001);
    Squared(x, 17, 0x1c001, 0x2, 0x70000003);
    Squared(x, 18, 0x70000003, 0x2fffffff, 0x5ffffffa);
    Squared(x, 19, 0x5ffffffa, 0x26666666, 0x13333322);
    Squared(x, 20, 0x13333322, 0x2424242, 0x27474646);
    Squared(x, 21, 0x27474646, 0x90b490b, 0x291f591f);
    Squared(x, 22, 0x291f591f, 0x9b490bd, 0x48f591e8);
    Squared(x, 23, 0x48f591e8, 0x2400bd90, 0x6501e9d0);
    Squared(x, 24, 0x6501e9d0, 0x2d900002, 0x59d15102);
    Squared(x, 25, 0x59d15102, 0x264bd926, 0x574ad922);
    Squared(x, 26, 0x574ad922, 0x26f4b640, 0x77b5b244);
    Squared(x, 27, 0x77b5b244, 0x2fd09902, 0x4ad48912);
    Squared(x, 28, 0x4ad48912, 0x24099024, 0x24489120);
    Squared(x, 29, 0x24489120, 0x9002400, 0x48012000);
    Squared(x, 30, 0x48012000, 0x24000002, 0x2);
  }

  // ----- the period -----

  lemma {:induction false} SameBits(a: nat, b: nat, k: nat)
    requires a < Pow2(k) && b < Pow2(k)
    requires forall i :: 0 <= i < k ==> a / Pow2(i) % 2 == b / Pow2(i) % 2
    ensures a == b
    decreases k
  {
    if k > 0 {
      assert a / Pow2(0) % 2 == b / Pow2(0) % 2;
      assert Pow2(0) == 1;
      forall i | 0 <= i < k - 1
        ensures a / 2 / Pow2(i) % 2 == b / 2 / Pow2(i) % 2
      {
        HalfThenShift(a, Pow2(i));
        HalfThenShift(b, Pow2(i));
        assert a / Pow2(i + 1) % 2 == b / Pow2(i + 1) % 2;
      }
      SameBits(a / 2, b / 2, k - 1);
    }
  }

  /** A state is determined by its next 31 output bits. */
  lemma StateFromOutput(x: Word32, y: Word32)
    requires x >= 0 && y >= 0 && forall i :: 0 <= i <= 30 ==> Out(x, i) == Out(y, i)
    ensures x == y
  {
    hide Tap;
    forall i | 0 <= i < 31
      ensures (x as int) / Pow2(i) % 2 == (y as int) / Pow2(i) % 2
    {
      BitsAreTheFuture(x, i);
      BitsAreTheFuture(y, i);
      assert Out(x, i) == Out(y, i);
      assert Bit(x, i) == Bit(y, i);
    }
    Pow2Values();
    SameBits(x, y, 31);
  }

  lemma {:induction false} StepsInjective(x: Word32, y: Word32, n: nat)
    requires x >= 0 && y >= 0 && After(x, n) == After(y, n)
    ensures x == y
    decreases n
  {
    hide Step, Back;
    if n > 0 {
      StepIsPermutation(x);
      StepIsPermutation(y);
      StepsInjective(Step(x), Step(y), n - 1);
    }
  }

  /** 2^31 - 1 steps lead every state back to itself. */
  lemma FullCircle(x: Word32)
    requires x >= 0
    ensures After(x, N) == x
  {
    hide After, Acts, Out;
    var y := After(x, Pow2(31));
    AllSquares(x);
    NeverDies(x, Pow2(31));
    NeverDies(x, 1);
    forall i | 0 <= i <= 30
      ensures Out(y, i) == Out(After(x, 1), i)
    {
      SameFuture(x, i);
    }
    StateFromOutput(y, After(x, 1));
    Pow2Values();
    AfterAdds(x, N, 1);
    NeverDies(x, N);
    StepsInjective(After(x, N), x, 1);
  }

  lemma SameFuture(x: Word32, i: nat)
    requires x >= 0 && Acts(x, Pow2(31), 2)
    ensures Out(After(x, Pow2(31)), i) == Out(After(x, 1), i)
  {
    hide Tap, After, Acts, Apply, Pow2;
    TapShift(x, Pow2(31), i);
    TapShift(x, 1, i);
    OneStepActs(x);
    ActsAt(x, Pow2(31), 2, i);
    ActsAt(x, Pow2(0), 2, i);
    StageBits();
  }

  /** Return times are closed under subtraction. */
  lemma ReturnsSubtract(x: Word32, m: nat, n: nat)
    requires x >= 0 && After(x, m) == x && After(x, m + n) == x
    ensures After(x, n) == x
  {
    AfterAdds(x, m, n);
  }

  lemma {:induction false} ReturnsMultiply(x: Word32, m: nat, k: nat)
    requires x >= 0 && After(x, m) == x
    ensures After(x, k * m) == x
    decreases k
  {
    hide After;
    if k == 0 {
      assert 0 * m == 0;
      AtStart(x);
    } else {
      ReturnsMultiply(x, m, k - 1);
      AfterAdds(x, (k - 1) * m, m);
      assert (k - 1) * m + m == k * m;
    }
  }

  /** With a prime return time a smaller one makes the state a fixed point. */
  lemma {:induction false} SmallReturn(x: Word32, m: nat)
    requires x >= 0 && Prime(N) && After(x, N) == x && 0 < m < N && After(x, m) == x
    ensures After(x, 1) == x
    decreases m
  {
    hide After;
    if m > 1 {
      var k, r := N / m, N % m;
      assert r != 0;
      assert N == k * m + r;
      ReturnsMultiply(x, m, k);
      ReturnsSubtract(x, k * m, r);
      SmallReturn(x, r);
    }
  }

  /** Every nonzero 31-bit state has period exactly 2^31 - 1. */
  lemma ExactPeriod(x: Word32, n: nat)
    requires x > 0
    ensures After(x, n) == x <==> n % N == 0
  {
    hide After, Prime;
    FullCircle(x);
    var k, r := n / N, n % N;
    assert n == k * N + r;
    ReturnsMultiply(x, N, k);
    AfterAdds(x, k * N, r);
    AtStart(x);
    if r != 0 && After(x, r) == x {
      MersennePrime();
      SmallReturn(x, r);
      Restless(x);
    }
  }

  lemma Restless(x: Word32)
    requires x > 0
    ensures After(x, 1) != x
  {
    hide Step;
    NeverDies(x, 1);
    AfterOne(x, 0);
    AtStart(x);
  }
}
