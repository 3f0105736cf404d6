/** Inputs on which a negative energy misleads the exhaustive search: one that the codec's
    own matrix computation produces, and one that brings the preset back. */
module SearchWitness {
  import opened FixedPoint
  import opened RatioSearch
  import opened ScanClasses
  import opened PulseStages
  import opened TwoPulseSearch
  import opened SearchOutcome
  import opened CorrelationMatrix
  import Autocorrelation
  import InverseRoot

  // ----- a loud response -----

  function LoudMatrix(dn: Corr): Matrix { Correlations(LoudResponse(), Signs(dn)) }

  /** With correlations of at least 327 every pair's squared correlation is 13 or more. */
  predicate LoudTarget(dn: Corr) { forall i :: 0 <= i < 40 ==> dn[i] >= 327 }

  lemma SquareOfTwo(a: Word16, b: Word16)
    requires a >= 327 && b >= 327
    ensures Mult(Add(a, b), Add(a, b)) >= 13
  {
    var s := Add(a, b);
    MulMono(654, s, 654);
    MulMono(654, s, s);
  }

  lemma LoudEntries(dn: Corr, p: Pos, q: Pos)
    requires LoudTarget(dn)
    ensures var rr := LoudMatrix(dn);
      && rr[p][p] == TapValue(Taps(0, 40 - p)) && -12 <= rr[p][q]
      && (p == 38 && q == 39 ==> rr[p][q] == 32764)
  {
    hide Entry, Scaled, LoudResponse, ClippedResponse;
    LoudScaled();
    ClippedDiagonal(Signs(dn), p);
    if p != q { ClippedCross(Signs(dn), p, q); }
  }

  lemma LoudPair(dn: Corr, p: Pos, q: Pos)
    requires LoudTarget(dn)
    ensures Resounds(PairClass(dn, LoudMatrix(dn), (p, q)))
    ensures p == 38 && q == 39 ==>
      PairScore(dn, LoudMatrix(dn), (p, q)).alp == 24573 && PairScore(dn, LoudMatrix(dn), (p, q)).sq >= 13
  {
    hide PulseStages.Energy, Mult, Add, LoudMatrix;
    LoudEntries(dn, p, q);
    LoudEntries(dn, q, p);
    PairEnergyIs(LoudMatrix(dn), p, q);
    SquareOfTwo(dn[p], dn[q]);
  }

  /** Positions 1 and 10 are apart, so their energy is negative. */
  lemma NegativePair(dn: Corr)
    requires LoudTarget(dn)
    ensures PairClass(dn, LoudMatrix(dn), (1, 10)) == Above
  {
    hide PulseStages.Energy, Mult, Add, Correlations;
    LoudResponseFails(dn, Signs(dn), 1, 10);
    SquareOfTwo(dn[1], dn[10]);
  }

  predicate Resounds(c: Class) { c == Loud || c == Above }

  /** Among loud ratios and negative energies above one, one of the latter is enough. */
  lemma {:induction false} LoudOrAbove(cs: seq<Class>)
    requires cs != [] && forall j :: 0 <= j < |cs| ==> Resounds(cs[j])
    ensures Resounds(ClassAfter(cs))
    ensures Above in cs ==> ClassAfter(cs) == Above
  {
    hide Next;
    var n := |cs| - 1;
    if n == 0 {
      assert cs[..0] == [];
      assert ClassAfter(cs[..0]) == Start;
    } else {
      LoudOrAbove(cs[..n]);
    }
    NextAmong(ClassAfter(cs[..n]), cs[n]);
    if Above in cs && cs[n] != Above {
      var j :| 0 <= j < n && cs[j] == Above;
      assert cs[..n][j] == Above;
    }
  }

  lemma NextAmong(kept: Class, c: Class)
    requires (kept == Start || Resounds(kept)) && Resounds(c)
    ensures Next(kept, c) == if kept == Above then Above else c
  {
  }

  lemma CodecTracks(c: nat)
    requires c < 8
    ensures var t := Tracks11()[c];
            (t.0 == 1 || t.0 == 3) && (t.1 == 0 || t.1 == 1 || t.1 == 2 || t.1 == 4)
  {
    Tracks11At(c / 4, c % 4);
    assert c == 4 * (c / 4) + c % 4;
  }

  lemma LoudGroup(dn: Corr, c: nat, u: nat)
    requires LoudTarget(dn) && c < 8 && u < 8
    ensures Resounds(GroupClass(dn, LoudMatrix(dn), Tracks11(), c, u))
    ensures c == 0 && u == 0 ==> GroupClass(dn, LoudMatrix(dn), Tracks11(), c, u) == Above
  {
    hide PairClass, LoudMatrix, ClassAfter;
    var tracks := Tracks11();
    CodecTracks(c);
    var cs := seq(8, v requires 0 <= v < 8 => PairClass(dn, LoudMatrix(dn), PairAt(tracks, c, u, v)));
    forall v: nat | v < 8 ensures Resounds(cs[v]) {
      var p := PairAt(tracks, c, u, v);
      assert p.0 % STEP == tracks[c].0 && p.1 % STEP == tracks[c].1;
      LoudPair(dn, p.0, p.1);
    }
    LoudOrAbove(cs);
    if c == 0 && u == 0 {
      NegativePair(dn);
      assert PairAt(tracks, 0, 0, 2) == (1, 10) && cs[2] == Above;
    }
  }

  /** With the matrix of the loud response the 11-bit search returns a pair with a negative
      energy for every target whose correlations are at least 327, although the pair (38, 39)
      it tries last has a proper ratio. */
  lemma SearchMissesBest(dn: Corr)
    requires LoudTarget(dn)
    ensures Search(dn, LoudMatrix(dn), Tracks11()).score.alp < 0
    ensures PairAt(Tracks11(), 7, 7, 7) == (38, 39)
    ensures PairScore(dn, LoudMatrix(dn), (38, 39)).sq >= 13 && PairScore(dn, LoudMatrix(dn), (38, 39)).alp == 24573
  {
    hide LoudMatrix, GroupClass, Search, ClassAfter, PairScore;
    LoudPair(dn, 38, 39);
    var cs := GroupClasses(dn, LoudMatrix(dn), Tracks11(), 64);
    forall g | 0 <= g < 64
      ensures Resounds(cs[g]) && (g == 0 ==> cs[g] == Above)
    {
      LoudGroup(dn, g / 8, g % 8);
    }
    assert cs[0] in cs;
    LoudOrAbove(cs);
    SearchClass(dn, LoudMatrix(dn), Tracks11());
  }

  // ----- the preset although a pair has a ratio -----

  function SparseDn(): Corr { seq(40, i => if i == 0 || i == 2 || i == 4 then 2000 else 0) }

  predicate FirstTrack(i: nat) { i % 5 == 1 || i % 5 == 3 }

  function SparseEntry(i: nat, j: nat): Word16 {
    if (FirstTrack(i) && (j == 5 || j == 7 || j == 9)) || (FirstTrack(j) && (i == 5 || i == 7 || i == 9))
    then -4 else 0
  }

  function SparseRr(): Matrix {
    seq<Corr>(40, i requires 0 <= i < 40 => seq(40, j requires 0 <= j < 40 => SparseEntry(i, j)))
  }

  lemma SparseScore(p: Pos, q: Pos)
    requires FirstTrack(p) && q % 5 != 3
    ensures PairScore(SparseDn(), SparseRr(), (p, q))
         == Score(if q == 0 || q == 2 || q == 4 then 122 else 0, if q == 5 || q == 7 || q == 9 then -2 else 0)
  {
    hide PulseStages.Energy;
    PairEnergyIs(SparseRr(), p, q);
  }

  lemma SparseGroup(c: nat, u: nat)
    requires c < 8 && u < 8
    ensures GroupClass(SparseDn(), SparseRr(), Tracks11(), c, u) in {Start, Zero}
  {
    hide PairScore, SparseDn, SparseRr, ClassAfter;
    var tracks := Tracks11();
    var t := tracks[c].1;
    CodecTracks(c);
    var cs := seq(8, v requires 0 <= v < 8 => PairClass(SparseDn(), SparseRr(), PairAt(tracks, c, u, v)));
    forall v: nat | v < 8
      ensures cs[v] == if t == 1 || v > 1 then Dead else if v == 0 then Loud else Zero
    {
      var p := PairAt(tracks, c, u, v);
      assert p.0 % STEP == tracks[c].0 && p.1 % STEP == t && p.1 == t + STEP * v;
      SparseScore(p.0, p.1);
    }
    if t == 1 {
      assert ClassAfter(cs[..0]) == Start by { NoneYet(); }
      OnlyDead(cs, 0, Start);
    } else {
      LoudThenZero(cs);
    }
  }

  lemma NoneYet()
    ensures ClassAfter([]) == Start
  {
  }

  lemma LoudThenZero(cs: seq<Class>)
    requires |cs| == 8 && forall v :: 0 <= v < 8 ==> cs[v] == if v > 1 then Dead else if v == 0 then Loud else Zero
    ensures ClassAfter(cs) == Zero
  {
    assert cs[..1][..0] == [] && ClassAfter(cs[..1]) == Loud by { assert ClassAfter(cs[..1][..0]) == Start; }
    assert cs[..2][..1] == cs[..1];
    assert ClassAfter(cs[..2]) == Zero;
    OnlyDead(cs, 2, Zero);
  }

  /** Candidates without a ratio change nothing. */
  lemma {:induction false} OnlyDead(cs: seq<Class>, k: nat, c: Class)
    requires k <= |cs| && ClassAfter(cs[..k]) == c && forall j :: k <= j < |cs| ==> cs[j] == Dead
    ensures ClassAfter(cs) == c
  {
    var n := |cs|;
    if n == k {
      assert cs[..k] == cs;
    } else {
      assert cs[..n - 1][..k] == cs[..k];
      OnlyDead(cs[..n - 1], k, c);
    }
  }

  /** No group's outcome can replace the start value, so the preset comes back, although the
      pair (1, 0) has a ratio. */
  lemma PresetDespiteRatio()
    ensures Search(SparseDn(), SparseRr(), Tracks11()) == Trial((0, 1), START)
    ensures PairScore(SparseDn(), SparseRr(), PairAt(Tracks11(), 0, 0, 0)) == Score(122, 0)
  {
    hide PairScore, SparseDn, SparseRr, GroupClass, Search;
    SparseScore(1, 0);
    forall c: nat, u: nat | c < 8 && u < 8
      ensures !Entering(GroupClass(SparseDn(), SparseRr(), Tracks11(), c, u))
    {
      SparseGroup(c, u);
    }
    var _, _, _ := PresetExactly(SparseDn(), SparseRr(), Tracks11());
  }

  // ----- two pulses on one position -----

  /** A target with one correlation and a response of one sample, 1.0. */
  function PeakDn(): Corr { seq(40, i => if i == 1 then 10000 else 0) }

  function PlainResponse(): Corr { seq(40, i => if i == 0 then 4096 else 0) }

  lemma {:induction false} OnlyFirst(g: seq<Word16>, n: nat)
    requires 1 <= n <= |g| && forall i :: 1 <= i < n ==> g[i] == 0
    ensures Autocorrelation.Energy(g, n) == Autocorrelation.Product(g[0], g[0])
  {
    if n > 1 { OnlyFirst(g, n - 1); } else { assert Autocorrelation.Energy(g, 0) == 0; }
  }

  lemma {:induction false} NoLag(g: seq<Word16>, dec: nat, n: nat)
    requires 1 <= dec && n + dec <= |g| && forall i :: 1 <= i < |g| ==> g[i] == 0
    ensures Autocorrelation.Lag(g, dec, n) == 0
  {
    if n > 0 { NoLag(g, dec, n - 1); }
  }

  /** Its energy is 2^24, and it is scaled to a sample of more than 2^14. */
  lemma PlainScaled()
    ensures WellMeasured(PlainResponse())
    ensures var g := Scaled(PlainResponse());
            g[0] >= 0x4000 && forall i :: 1 <= i < 40 ==> g[i] == 0
  {
    hide Scaling, ScaledSample, Autocorrelation.Energy, LShr;
    var h := PlainResponse();
    OnlyFirst(h, L_CODE);
    assert Autocorrelation.Product(4096, 4096) == 0x100_0000;
    ScaledWhen(h);
    var s := 0x100_0001;
    var k := Scaling(s);
    ScalingBound(s);
    ScalingNotBelow(s);
    if k < 256 { SmallScaling(k); }
    ScaledSampleIs(0, k);
    ScaledSampleIs(4096, k);
    assert InverseRoot.Times(0, k) == 0;
    LargeSample(k);
  }

  lemma SmallScaling(k: int)
    requires 0 <= k < 256
    ensures InverseRoot.Times(InverseRoot.Squared(k + 2), 0x100_0001) < 4_310_177_132_544
  {
    InverseRoot.SquareGrows(k + 2, 258);
    MulMono(InverseRoot.Squared(k + 2), 66564, 0x100_0001);
  }

  lemma LargeSample(k: Word16)
    requires 256 <= k < 32767
    ensures Sat16((InverseRoot.Times(4096, k) + 32) / 64) >= 0x4000
  {
  }

  lemma PlainMatrix() returns (d: int)
    ensures d >= 1
    ensures var rr := Correlations(PlainResponse(), Signs(PeakDn()));
            forall i: Pos, j: Pos :: rr[i][j] as int == if i == j then d else 0
  {
    hide Scaled, Autocorrelation.Energy, Autocorrelation.Lag, Autocorrelation.Product;
    hide Rounded, Wrap32, Signed, Entry, Signs;
    PlainScaled();
    var g, sign := Scaled(PlainResponse()), Signs(PeakDn());
    d := Rounded(Wrap32(Autocorrelation.Product(g[0], g[0])));
    RoundedSquare(g);
    forall i: Pos, j: Pos
      ensures Entry(g, sign, i, j) as int == if i == j then d else 0
    {
      if i == j {
        EntryOnDiagonal(g, sign, i);
        OnlyFirst(g, 40 - i);
      } else {
        var lo, hi := if i < j then i else j, if i < j then j else i;
        EntryOffDiagonal(g, sign, lo, hi);
        NoLag(g, hi - lo, 40 - hi);
        RoundedTaps(0);
        SignedZero(sign[lo], sign[hi]);
      }
    }
  }

  lemma RoundedSquare(g: Corr)
    requires g[0] >= 0x4000 && (forall i :: 1 <= i < 40 ==> g[i] == 0) && g == Scaled(PlainResponse())
    ensures Rounded(Wrap32(Autocorrelation.Product(g[0], g[0]))) >= 1
  {
    hide Scaled, Rounded, Wrap32, Autocorrelation.Energy;
    PlainScaled();
    ScaledEnergy(PlainResponse());
    OnlyFirst(g, L_CODE);
    RoundedNear(Autocorrelation.Product(g[0], g[0]));
    MulMono(0x4000, g[0], 0x4000);
    MulMono(0x4000, g[0], g[0]);
  }

  lemma PeakScore(rr: Matrix, d: int, p: Pos, q: Pos)
    requires d >= 1 && forall i: Pos, j: Pos :: rr[i][j] as int == if i == j then d else 0
    ensures var s := PairScore(PeakDn(), rr, (p, q));
      && s.alp as int == (if p == q then d else (d + 1) / 2)
      && s.sq == (if p == 1 && q == 1 then 12207 else if p == 1 || q == 1 then 3051 else 0)
  {
    hide PulseStages.Energy;
    PairEnergyIs(rr, p, q);
  }

  /** The 11-bit search returns both pulses on position 1. */
  lemma SearchReturnsCoincident()
    ensures Search(PeakDn(), Correlations(PlainResponse(), Signs(PeakDn())), Tracks11()).tag == (1, 1)
  {
    hide PairScore, Search, Correlations, PeakDn;
    var rr := Correlations(PlainResponse(), Signs(PeakDn()));
    var e := PlainMatrix();
    forall c: nat, u: nat, v: nat | c < 8 && u < 8 && v < 8
      ensures PairScore(PeakDn(), rr, PairAt(Tracks11(), c, u, v)).alp >= 0
    {
      var p := PairAt(Tracks11(), c, u, v);
      PeakScore(rr, e, p.0, p.1);
    }
    var d, x, y := SearchIsOptimal(PeakDn(), rr, Tracks11());
    PeakScore(rr, e, 1, 1);
    assert PairAt(Tracks11(), 1, 0, 0) == (1, 1);
    var w := PairAt(Tracks11(), d, x, y);
    PeakScore(rr, e, w.0, w.1);
    assert NotBetter(PairScore(PeakDn(), rr, (1, 1)), PairScore(PeakDn(), rr, w));
  }
}
