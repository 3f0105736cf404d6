/** What build_code's filtered vector is: the code vector convolved with the response, as long
    as no two pulses share a position. */
module FilteredCode {
  import opened FixedPoint
  import opened PulseStages
  import opened PulseCoding
  import Ten = TenPulseCode

  /** The share of the positive pulses, whose filter sign is one 32768th too small. */
  function PlusSum(v: seq<Pos>, dnSign: Corr, h: Corr, i: Pos, n: nat): int
    requires n <= |v|
  {
    if n == 0 then 0
    else PlusSum(v, dnSign, h, i, n - 1) + (if dnSign[v[n - 1]] > 0 then Impulse(h, i - v[n - 1]) else 0)
  }

  /** So small that n pulses cannot saturate the sum. */
  predicate Quiet(h: Corr, n: nat) { forall j :: 0 <= j < 40 ==> -32767 <= n * h[j] <= 32767 }

  // ----- the accumulation is exact -----

  lemma {:induction false} FilterSignAt(v: seq<Pos>, dnSign: Corr, n: nat, k: nat)
    requires k < n <= |v|
    ensures FilterSigns(v, dnSign, n)[k] == if dnSign[v[k]] > 0 then MAX_16 else MIN_16
  {
    if k < n - 1 { FilterSignAt(v, dnSign, n - 1, k); }
  }

  lemma QuietImpulse(h: Corr, n: nat, j: int, m: nat)
    requires Quiet(h, n) && 1 <= n <= 4 && j < 40 && m * n <= 32767 < (m + 1) * n
    ensures -(m as int) <= Impulse(h, j) <= m
  {
    if j >= 0 {
      assert -32767 <= n * h[j] <= 32767;
      if h[j] > m { MulMono(m + 1, h[j], n); }
      if h[j] < -(m as int) { MulMono(h[j], -(m as int) - 1, n); }
    }
  }

  /** How large one response sample may be. */
  function Limit(n: nat): nat
    requires 1 <= n <= 4
  {
    32767 / n
  }

  lemma LimitIs(n: nat)
    requires 1 <= n <= 4
    ensures Limit(n) * n <= 32767 < (Limit(n) + 1) * n
  {
  }

  lemma {:induction false} AccumulateExact(v: seq<Pos>, dnSign: Corr, h: Corr, i: Pos, n: nat)
    requires n <= |v| <= 4 && Quiet(h, |v|) && |v| >= 1
    ensures var m := Limit(|v|);
      && -(m * n as int) <= Ten.PulseSum(v, dnSign, h, i, n) <= m * n
      && -(m * n as int) <= PlusSum(v, dnSign, h, i, n) <= m * n
      && Accumulate(h, v, FilterSigns(v, dnSign, |v|), i, n)
         == 65536 * Ten.PulseSum(v, dnSign, h, i, n) - 2 * PlusSum(v, dnSign, h, i, n)
  {
    hide LMac, Quiet, FilterSigns, Limit, Impulse;
    if n > 0 {
      var m, x := Limit(|v|), Impulse(h, i - v[n - 1]);
      AccumulateExact(v, dnSign, h, i, n - 1);
      FilterSignAt(v, dnSign, |v|, n - 1);
      LimitIs(|v|);
      QuietImpulse(h, |v|, i - v[n - 1], m);
      assert m * n == m * (n - 1) + m;
      MulMono(n, |v|, m);
      ExactMac(Ten.PulseSum(v, dnSign, h, i, n - 1), PlusSum(v, dnSign, h, i, n - 1), x,
               dnSign[v[n - 1]] > 0, m * (n - 1), m);
    }
  }

  lemma ExactMac(p: int, q: int, x: Word16, positive: bool, a: nat, m: nat)
    requires -(a as int) <= p <= a && -(a as int) <= q <= a && -(m as int) <= x <= m && a + m <= 32767
    requires -0x8000_0000 <= 65536 * p - 2 * q <= 0x7fff_ffff
    ensures LMac(65536 * p - 2 * q, x, if positive then MAX_16 else MIN_16)
         == (if positive then 65536 * (p + x) - 2 * (q + x) else 65536 * (p - x) - 2 * q)
  {
  }

  // ----- the convolution -----

  /** The code vector of the first n pulses, later ones added on top. */
  function Ideal(v: seq<Pos>, dnSign: Corr, n: nat): (c: seq<int>)
    requires n <= |v|
    ensures |c| == L_CODE
  {
    if n == 0 then Silence()
    else
      var c := Ideal(v, dnSign, n - 1);
      c[v[n - 1] := c[v[n - 1]] + SignedPulse(dnSign, v[n - 1])]
  }

  lemma {:induction false} IdealConvolution(v: seq<Pos>, dnSign: Corr, h: Corr, i: Pos, n: nat)
    requires n <= |v|
    ensures Ten.Convolution(Ideal(v, dnSign, n), h, i, L_CODE)
         == 8192 * Ten.PulseSum(v, dnSign, h, i, n) - PlusSum(v, dnSign, h, i, n)
  {
    hide Ten.Convolution, Impulse;
    if n == 0 {
      Ten.SilentConvolution(h, i, L_CODE);
    } else {
      IdealConvolution(v, dnSign, h, i, n - 1);
      Ten.ConvolutionBump(Ideal(v, dnSign, n - 1), h, i, L_CODE, v[n - 1], SignedPulse(dnSign, v[n - 1]));
    }
  }

  predicate Distinct(v: seq<Pos>) { forall a, b :: 0 <= a < b < |v| ==> v[a] != v[b] }

  lemma {:induction false} IdealAt(v: seq<Pos>, dnSign: Corr, n: nat, p: Pos)
    requires n <= |v| && Distinct(v)
    ensures Ideal(v, dnSign, n)[p] == if p in v[..n] then SignedPulse(dnSign, p) as int else 0
  {
    hide SignedPulse;
    if n > 0 {
      IdealAt(v, dnSign, n - 1, p);
      assert v[..n] == v[..n - 1] + [v[n - 1]];
      assert v[n - 1] !in v[..n - 1];
    }
  }

  lemma CodeIsIdeal(v: seq<Pos>, dnSign: Corr, cod: seq<Word16>)
    requires Distinct(v) && IsCode(cod, v, dnSign)
    ensures |cod| == L_CODE && cod == Ideal(v, dnSign, |v|)
  {
    hide SignedPulse, Ideal;
    assert v[..|v|] == v;
    forall p: Pos ensures cod[p] as int == Ideal(v, dnSign, |v|)[p] {
      IdealAt(v, dnSign, |v|, p);
    }
  }

  lemma RoundedSum(p: int, q: int)
    requires -32767 <= p <= 32767 && -32767 <= q <= 32767 && -0x8000_0000 <= 65536 * p - 2 * q <= 0x7fff_ffff
    ensures Round(65536 * p - 2 * q) == Sat16((8 * (8192 * p - q) + 6 * q + 0x8000) / 0x1_0000)
    ensures -1 <= Round(65536 * p - 2 * q) - p <= 1
  {
  }

  /** Sample i of the filtered vector is the rounded convolution. */
  predicate LawAt(v: seq<Pos>, dnSign: Corr, h: Corr, cod: seq<Word16>, i: Pos)
    requires |cod| == L_CODE
  {
    Round(Accumulate(h, v, FilterSigns(v, dnSign, |v|), i, |v|))
    == Sat16((8 * Ten.Convolution(cod, h, i, L_CODE) + 6 * PlusSum(v, dnSign, h, i, |v|) + 0x8000) / 0x1_0000)
  }

  /** For pulses at different positions and a response that cannot saturate the sum, sample i
      of the filtered vector is the convolution of the code vector with the response, scaled
      by eight and rounded once; the second term makes up for code samples of 8191 where the
      filter sign is 32767. It is within one unit of the sum of the signed responses. */
  lemma FilteredIsConvolution(v: seq<Pos>, dnSign: Corr, h: Corr, cod: seq<Word16>, i: Pos)
    requires 1 <= |v| <= 4 && Distinct(v) && IsCode(cod, v, dnSign) && Quiet(h, |v|)
    ensures |cod| == L_CODE && LawAt(v, dnSign, h, cod, i)
    ensures var y := Round(Accumulate(h, v, FilterSigns(v, dnSign, |v|), i, |v|));
            -1 <= y as int - Ten.PulseSum(v, dnSign, h, i, |v|) <= 1
  {
    hide Ten.Convolution, Accumulate, Ideal, Ten.PulseSum, PlusSum, Quiet, IsCode, Round, FilterSigns;
    CodeIsIdeal(v, dnSign, cod);
    IdealConvolution(v, dnSign, h, i, |v|);
    AccumulateExact(v, dnSign, h, i, |v|);
    LimitIs(|v|);
    RoundedSum(Ten.PulseSum(v, dnSign, h, i, |v|), PlusSum(v, dnSign, h, i, |v|));
  }

  // ----- two pulses on one position -----

  /** Only the 11-bit codebook admits it: both pulses may lie on track 1. */
  lemma DistinctUnlessBoth(book: Book, v: seq<Pos>)
    requires Legal(book, v)
    ensures book.Bits11? || Distinct(v)
  {
    hide Slot;
    if book.Bits9? { TracksOfNine(book.subNr); }
    if book.Bits14? || book.Bits17? {
      forall a, b | 0 <= a < b < |v| ensures v[a] != v[b] {
        assert Slot(|v|, v[a]) != Slot(|v|, v[b]);
      }
    }
  }

  lemma TracksOfNine(s: nat)
    requires s < 4
    ensures START_POS[2 * s] != START_POS[2 * s + 1] && START_POS[2 * s + 8] != START_POS[2 * s + 9]
  {
  }

  /** Then the code vector holds the pulse once and the filtered vector twice. */
  lemma CoincidentPulses(p: Pos, dnSign: Corr, h: Corr, cod: seq<Word16>, i: Pos)
    requires IsCode(cod, [p, p], dnSign) && Quiet(h, 2)
    ensures |cod| == L_CODE
    ensures var y := Round(Accumulate(h, [p, p], FilterSigns([p, p], dnSign, 2), i, 2));
      && -1 <= y as int - 2 * Ten.PulseSum([p], dnSign, h, i, 1) <= 1
      && Ten.Convolution(cod, h, i, L_CODE)
         == 8192 * Ten.PulseSum([p], dnSign, h, i, 1) - PlusSum([p], dnSign, h, i, 1)
  {
    var v := [p, p];
    hide Ten.Convolution, Accumulate, Quiet, Round, FilterSigns, Impulse;
    AccumulateExact(v, dnSign, h, i, 2);
    assert Limit(2) == 16383;
    Twice(p, dnSign, h, i);
    RoundedSum(Ten.PulseSum(v, dnSign, h, i, 2), PlusSum(v, dnSign, h, i, 2));
    assert IsCode(cod, [p], dnSign) by { assert forall q :: q in [p, p] <==> q in [p]; }
    CodeIsIdeal([p], dnSign, cod);
    IdealConvolution([p], dnSign, h, i, 1);
  }

  lemma Twice(p: Pos, dnSign: Corr, h: Corr, i: Pos)
    ensures Ten.PulseSum([p, p], dnSign, h, i, 2) == 2 * Ten.PulseSum([p], dnSign, h, i, 1)
    ensures PlusSum([p, p], dnSign, h, i, 2) == 2 * PlusSum([p], dnSign, h, i, 1)
  {
    hide Impulse;
    assert Ten.PulseSum([p, p], dnSign, h, i, 0) == 0 && PlusSum([p, p], dnSign, h, i, 0) == 0;
    assert Ten.PulseSum([p], dnSign, h, i, 0) == 0 && PlusSum([p], dnSign, h, i, 0) == 0;
    assert Ten.PulseSum([p, p], dnSign, h, i, 1) == Ten.PulseSum([p], dnSign, h, i, 1);
    assert PlusSum([p, p], dnSign, h, i, 1) == PlusSum([p], dnSign, h, i, 1);
  }

  /** A response of one sample. */
  function OneSample(): Corr { seq(40, i => if i == 0 then 8000 else 0) }

  /** So for two pulses the law holds for every response if and only if they differ. */
  lemma LawExactly(v: seq<Pos>, dnSign: Corr, cod: seq<Word16>)
    requires |v| == 2 && IsCode(cod, v, dnSign)
    ensures |cod| == L_CODE
    ensures Distinct(v) ==> forall h: Corr, i: Pos :: Quiet(h, 2) ==> LawAt(v, dnSign, h, cod, i)
    ensures !Distinct(v) ==> Quiet(OneSample(), 2) && !LawAt(v, dnSign, OneSample(), cod, v[0])
  {
    hide LawAt, Quiet, IsCode;
    assert |cod| == L_CODE by { CodeLength(v, dnSign, cod); }
    if Distinct(v) {
      forall h: Corr, i: Pos | Quiet(h, 2) ensures LawAt(v, dnSign, h, cod, i) {
        FilteredIsConvolution(v, dnSign, h, cod, i);
      }
    } else {
      assert v == [v[0], v[0]];
      LawFails(v[0], dnSign, cod);
    }
  }

  lemma CodeLength(v: seq<Pos>, dnSign: Corr, cod: seq<Word16>)
    requires IsCode(cod, v, dnSign)
    ensures |cod| == L_CODE
  {
  }

  lemma LawFails(p: Pos, dnSign: Corr, cod: seq<Word16>)
    requires IsCode(cod, [p, p], dnSign)
    ensures |cod| == L_CODE && Quiet(OneSample(), 2) && !LawAt([p, p], dnSign, OneSample(), cod, p)
  {
    hide Ten.Convolution, Accumulate, Round, FilterSigns, IsCode;
    CoincidentPulses(p, dnSign, OneSample(), cod, p);
    Twice(p, dnSign, OneSample(), p);
    OnePulse(p, dnSign);
  }

  lemma OnePulse(p: Pos, dnSign: Corr)
    ensures Ten.PulseSum([p], dnSign, OneSample(), p, 1) == if dnSign[p] > 0 then 8000 else -8000
    ensures PlusSum([p], dnSign, OneSample(), p, 1) == if dnSign[p] > 0 then 8000 else 0
  {
    assert Ten.PulseSum([p], dnSign, OneSample(), p, 0) == 0 && PlusSum([p], dnSign, OneSample(), p, 0) == 0;
  }
}
