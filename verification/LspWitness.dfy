/** A predictor on which the 16-bit slope of Az_lsp wraps: the scan of its sum polynomial up
    to the first root, which comes out 45 below its bracket. */
module LspWitness {
  import opened FixedPoint
  import opened Kernel
  import opened Chebps
  import opened LspSearch

  function A(): Predictor { [4096, -5882, 8508, -598, -853, 6720, -1425, 1717, 3456, -1974, 1972] }

  function F1(): Coefficients { [1024, -2002, 3635, -2921, 3137, -1814] }

  function F2(): Coefficients { [1024, -940, 1680, 666, 23, 2059] }

  lemma Polynomials()
    ensures Poly(A(), 1, NC) == F1() && Poly(A(), -1, NC) == F2()
  {
    hide A, F1, F2;
    SumPolynomial();
    DifferencePolynomial();
  }

  lemma SumPolynomial()
    ensures Poly(A(), 1, NC) == F1()
  {
    hide Poly;
    FirstHalfSum(A(), 1);
    NextCoefficient(A(), 1, 1);
    NextCoefficient(A(), 1, 2);
    NextCoefficient(A(), 1, 3);
    NextCoefficient(A(), 1, 4);
    NextCoefficient(A(), 1, 5);
  }

  lemma DifferencePolynomial()
    ensures Poly(A(), -1, NC) == F2()
  {
    hide Poly;
    FirstHalfSum(A(), -1);
    NextCoefficient(A(), -1, 1);
    NextCoefficient(A(), -1, 2);
    NextCoefficient(A(), -1, 3);
    NextCoefficient(A(), -1, 4);
    NextCoefficient(A(), -1, 5);
  }

  // ----- evaluating the sum polynomial -----

  /** The accumulators of Chebps at x, checked one step at a time. */
  lemma ValueAt(x: Word16, b2: int, b3: int, b4: int, t: int)
    requires var b1 := 1024 * (x as int) - 2002 * 16384;
             && b2 == 4 * (b1 * x / 0x1_0000) - 0x100_0000 + 3635 * 16384
             && b3 == 4 * (b2 * x / 0x1_0000) - b1 - 2921 * 16384
    requires b4 == 4 * (b3 * x / 0x1_0000) - b2 + 3137 * 16384
    requires t == 2 * (b4 * x / 0x1_0000) - b3 - 1814 * 8192
    ensures Value(x, F1()) == Sat16(t / 1024)
  {
    hide Value, FinalT0, Convert;
    var f := F1();
    assert Q(x, f, 0) == 0x100_0000;
    assert Q(x, f, 1) == 1024 * (x as int) - 2002 * 16384;
    assert Q(x, f, 2) == b2;
    assert Q(x, f, 3) == b3;
    assert Q(x, f, 4) == b4;
    FinalIsExact(x, f);
    ValueIsClipped(x, f);
  }

  // ----- the scan up to the first sign change -----

  /** No root after j intervals. */
  predicate Clear(j: nat)
    requires j <= GRID_POINTS
  {
    ScanTo(F1(), F2(), j) == Scan([], [], Grid(j), Value(Grid(j), F1())) && Value(Grid(j), F1()) > 0
  }

  lemma Passed(j: nat, x: Word16, b2: int, b3: int, b4: int, t: int)
    requires j <= GRID_POINTS && Grid(j) == x && (j > 0 ==> Clear(j - 1))
    requires var b1 := 1024 * (x as int) - 2002 * 16384;
             && b2 == 4 * (b1 * x / 0x1_0000) - 0x100_0000 + 3635 * 16384
             && b3 == 4 * (b2 * x / 0x1_0000) - b1 - 2921 * 16384
    requires b4 == 4 * (b3 * x / 0x1_0000) - b2 + 3137 * 16384
    requires t == 2 * (b4 * x / 0x1_0000) - b3 - 1814 * 8192 && t >= 1024
    ensures Clear(j)
  {
    hide Value, Times, Bisect, Interpolate, F1, F2;
    ValueAt(x, b2, b3, b4, t);
    if j > 0 { Signs(Value(Grid(j), F1()), Value(Grid(j - 1), F1())); }
  }

  lemma Intervals5()
    ensures Clear(5)
  {
    hide Clear;
    Passed(0, 32760, 44269204, 39913656, 86935224, 32140054);
    Passed(1, 32723, 44191848, 39697068, 86489864, 31813732);
    Passed(2, 32588, 43911056, 38912680, 84883404, 30644156);
    Passed(3, 32364, 43450176, 37631316, 82281140, 28775082);
    Passed(4, 32051, 42816684, 35882492, 78774608, 26308152);
    Passed(5, 31651, 42024932, 33717240, 74507440, 23390092);
  }

  lemma Intervals11()
    ensures Clear(11)
  {
    hide Clear;
    Intervals5();
    Passed(6, 31164, 41087976, 31184588, 69624824, 20171798);
    Passed(7, 30591, 40023520, 28346892, 64300320, 16821234);
    Passed(8, 29935, 38855268, 25281632, 58733088, 13513322);
    Passed(9, 29196, 37603632, 22055408, 53095324, 10391770);
    Passed(10, 28377, 36296252, 18749968, 47575196, 7589734);
    Passed(11, 27481, 34961996, 15444564, 42339888, 5203644);
  }

  lemma Intervals16()
    ensures Clear(16)
  {
    hide Clear;
    Intervals11();
    Passed(12, 26509, 33628048, 12207428, 37519944, 3285560);
    Passed(13, 25465, 32326832, 9111252, 33231032, 1853296);
    Passed(14, 24351, 31088620, 6213672, 29543164, 880556);
    Passed(15, 23170, 29945340, 3565260, 26493200, 307588);
    Passed(16, 21926, 28929612, 1206128, 24081104, 46934);
  }

  // ----- the first root -----

  const FLAT: Bracket := Bracket(21190, -2, 21273, 0)

  lemma FlatBracket()
    ensures Bisect(F1(), Bracket(20621, -7, 21926, 45), 4) == FLAT
  {
    hide Value, F1;
    ValueAt(21273, 28473860, 130036, 23091584, 742);
    ValueAt(20946, 28265664, -369580, 22658456, -6944);
    ValueAt(21109, 28367772, -123728, 22869424, -4180);
    ValueAt(21190, 28419748, 796, 22977888, -2032);
    var b := Bracket(20621, -7, 21926, 45);
    assert Bisect(F1(), b, 0) == b;
    assert Bisect(F1(), b, 1) == Bracket(20621, -7, 21273, 0);
    assert Bisect(F1(), b, 2) == Bracket(20946, -7, 21273, 0);
    assert Bisect(F1(), b, 3) == Bracket(21109, -5, 21273, 0);
  }

  /** The slope 42493 is narrowed to -23043. */
  lemma FlatSlope()
    ensures SignedSlope(FLAT) == -23043
  {
    hide Slope;
    SlopeOfTwo();
    assert Wrap16(42493) == -23043;
  }

  lemma SlopeOfTwo()
    ensures Slope(83, 2) == 42493
  {
    hide NormS, Shl;
    assert Pow2(13) == 0x2000 by { assert Pow2(7) == 128; }
    Pow2Values();
    NormOfTwo();
    ShlSaturates(2, 13);
    assert Pow2(6) == 64;
  }

  lemma NormOfTwo()
    ensures NormS(2) == 13
  {
    assert Pow2(13) == 0x2000 by { assert Pow2(7) == 128; }
    NormUnique(2 * 0x1_0000, 13);
  }

  lemma FlatRoot()
    ensures Interpolate(FLAT) == 21145 && !Inside(FLAT) && !Lands(FLAT)
  {
    hide SignedSlope;
    FlatSlope();
    assert Times(-2, -23043) == 46086;
  }

  /** The scan finds its first root in interval 17, and the root is below its bracket. */
  lemma FirstRoot()
    ensures ScanTo(F1(), F2(), 17).roots == [21145] && ScanTo(F1(), F2(), 17).brackets == [FLAT]
  {
    hide Value, F1, F2, Bisect, Interpolate, Clear;
    Intervals16();
    ValueAt(21926, 28929612, 1206128, 24081104, 46934);
    ValueAt(20621, 28071984, -841236, 22265836, -7096);
    FlatBracket();
    FlatRoot();
    SeventeenthInterval();
  }

  lemma SeventeenthInterval()
    requires Clear(16) && Value(21926, F1()) == 45 && Value(20621, F1()) == -7
    requires Bisect(F1(), Bracket(20621, -7, 21926, 45), 4) == FLAT && Interpolate(FLAT) == 21145
    ensures ScanTo(F1(), F2(), 17).roots == [21145] && ScanTo(F1(), F2(), 17).brackets == [FLAT]
  {
    hide Value, F1, F2, Bisect, Interpolate;
    assert Grid(16) == 21926 && Grid(17) == 20621;
    assert Times(-7, 45) == -315;
  }

  /** The rest of the scan only appends, so the first of the roots Az_lsp works with lies
      outside its bracket. */
  lemma AzLspFirstRoot(n: nat)
    requires 17 <= n <= GRID_POINTS
    ensures var s := ScanTo(F1(), F2(), n);
            |s.roots| > 0 && |s.brackets| > 0 && s.roots[0] == 21145 && s.brackets[0] == FLAT && !Ordered(s)
  {
    hide Lands, Inside, Interpolate, F1, F2, Ordered, ScanTo;
    FirstRoot();
    FlatRoot();
    Appends(F1(), F2(), 17, n);
    RootsExactly(F1(), F2(), n);
    assert !AllLand(ScanTo(F1(), F2(), n)) by { assert ScanTo(F1(), F2(), n).brackets[0] == FLAT; }
  }

  lemma {:induction false} Appends(f1: Coefficients, f2: Coefficients, i: nat, j: nat)
    requires i <= j <= GRID_POINTS
    ensures |ScanTo(f1, f2, i).roots| == |ScanTo(f1, f2, i).brackets|
    ensures ScanTo(f1, f2, i).roots <= ScanTo(f1, f2, j).roots
    ensures ScanTo(f1, f2, i).brackets <= ScanTo(f1, f2, j).brackets
  {
    hide ScanTo;
    RootsBracketed(f1, f2, i);
    if i < j {
      Appends(f1, f2, i, j - 1);
      EarlierBrackets(f1, f2, j);
    }
  }
}
