/** What the three- and four-pulse searches return when energies may be negative: the same
    analysis as for two pulses, over the admitted chains. */
module GreedyOutcome {
  import opened FixedPoint
  import opened RatioSearch
  import opened ScanClasses
  import opened PulseStages
  import opened GreedySearch
  import Outcome = SearchOutcome

  // ----- the class of a chain -----

  /** The last stage of the chain grown from i0: what it extends and the track it tries. */
  function LastStage(dn: Corr, rr: Matrix, ipos: seq<Pos>, i0: Pos): (s: (Chain, nat))
    requires InTracks(ipos)
    ensures s.1 < STEP
  {
    hide Stage;
    var s1 := Stage(dn, rr, One(i0), ipos[1]);
    var two := Two(i0, s1.tag.pos, s1.tag.ps, s1.score.alp);
    if |ipos| == 3 then (two, ipos[2])
    else
      var s2 := Stage(dn, rr, two, ipos[2]);
      (Three(i0, s1.tag.pos, s2.tag.pos, s2.tag.ps, s2.score.alp), ipos[3])
  }

  /** The class of the chain from first pulse u of pass c, from its last stage's trials. */
  function ChainClass(book: Book, dn: Corr, rr: Matrix, c: nat, u: nat): Class
    requires c < book.Configs() && u < 8
  {
    StartsInTracks(book, c);
    var (ch, start) := LastStage(dn, rr, Starts(book, c), FirstPulse(Starts(book, c), u));
    ClassAfter(Outcome.StageClasses(dn, rr, ch, start))
  }

  lemma GrowEndsWithLastStage(dn: Corr, rr: Matrix, ipos: seq<Pos>, i0: Pos)
    requires InTracks(ipos)
    ensures var s := LastStage(dn, rr, ipos, i0);
            Grow(dn, rr, ipos, i0).score == Stage(dn, rr, s.0, s.1).score
  {
    hide Stage;
  }

  lemma ChainClassIs(book: Book, dn: Corr, rr: Matrix, c: nat, u: nat)
    requires c < book.Configs() && u < 8
    ensures ClassOf(ChainAt(book, dn, rr, c, u).score) == ChainClass(book, dn, rr, c, u)
    ensures Scanned(ChainAt(book, dn, rr, c, u).score)
  {
    hide Grow, LastStage, Stage, Starts, ClassOf, ClassAfter;
    StartsInTracks(book, c);
    var ipos, i0 := Starts(book, c), FirstPulse(Starts(book, c), u);
    GrowEndsWithLastStage(dn, rr, ipos, i0);
    var s := LastStage(dn, rr, ipos, i0);
    Outcome.StageClass(dn, rr, s.0, s.1);
  }

  lemma AllChainsScanned(book: Book, dn: Corr, dn2: Corr, rr: Matrix)
    ensures AllScanned(AllChains(book, dn, dn2, rr, book.Configs()))
  {
    hide AllChains, ChainAt, Place, Admitted;
    var all := AllChains(book, dn, dn2, rr, book.Configs());
    forall j | 0 <= j < |all| ensures Scanned(all[j].score) {
      var c, u := AllChainsFrom(book, dn, dn2, rr, book.Configs(), j);
      AllChainsAt(book, dn, dn2, rr, c, u, book.Configs());
      ChainClassIs(book, dn, rr, c, u);
    }
  }

  /** With any energies: the class of the result follows from the classes of the chains. */
  lemma SearchClass(book: Book, dn: Corr, dn2: Corr, rr: Matrix)
    ensures ClassOf(Search(book, dn, dn2, rr).score)
         == ClassAfter(Classes(AllChains(book, dn, dn2, rr, book.Configs())))
  {
    hide AllChains, Choose;
    AllChainsScanned(book, dn, dn2, rr);
    KeptClass(AllChains(book, dn, dn2, rr, book.Configs()), book.Preset());
  }

  // ----- different chains are different results -----

  lemma GrowOnTracks(dn: Corr, rr: Matrix, ipos: seq<Pos>, i0: Pos)
    requires InTracks(ipos) && i0 % STEP == ipos[0]
    ensures var v := Grow(dn, rr, ipos, i0).tag;
            v[0] == i0 && forall j :: 0 <= j < |ipos| ==> v[j] % STEP == ipos[j]
  {
    hide Stage;
    var s1 := Stage(dn, rr, One(i0), ipos[1]);
    StageStaysOnTrack(dn, rr, One(i0), ipos[1]);
    var two := Two(i0, s1.tag.pos, s1.tag.ps, s1.score.alp);
    var s2 := Stage(dn, rr, two, ipos[2]);
    StageStaysOnTrack(dn, rr, two, ipos[2]);
    if |ipos| == 4 {
      StageStaysOnTrack(dn, rr, Three(i0, s1.tag.pos, s2.tag.pos, s2.tag.ps, s2.score.alp), ipos[3]);
    }
  }

  /** The starting positions of every pass, written out. */
  lemma StartsAre(book: Book, c: nat)
    requires c < book.Configs()
    ensures var n := book.Pulses(); var t := Tracks(book, c / n);
      Starts(book, c) ==
        if c % n == 0 then t else if c % n == 1 then [t[n - 1]] + t[..n - 1]
        else if c % n == 2 then [t[n - 2], t[n - 1]] + t[..n - 2]
        else [t[1], t[2], t[3], t[0]]
  {
    var n, t := book.Pulses(), Tracks(book, c / book.Pulses());
    RotationsAre(t, n);
  }

  lemma RotationsAre(t: seq<Pos>, n: nat)
    requires |t| == n && 3 <= n <= 4
    ensures Rotations(t, 0) == t && Rotations(t, 1) == [t[n - 1]] + t[..n - 1]
    ensures Rotations(t, 2) == [t[n - 2], t[n - 1]] + t[..n - 2]
    ensures n == 4 ==> Rotations(t, 3) == [t[1], t[2], t[3], t[0]]
  {
    FirstRotation(t);
    OneRotation(t, 0);
    OneRotation(t, 1);
    OneRotation(t, 2);
    hide Rotations, Rotate;
    Turned(t, n);
  }

  lemma FirstRotation(t: seq<Pos>)
    requires |t| > 0
    ensures Rotations(t, 0) == t
  {
  }

  lemma Turned(t: seq<Pos>, n: nat)
    requires |t| == n && 3 <= n <= 4
    ensures Rotate(t) == [t[n - 1]] + t[..n - 1]
    ensures Rotate(Rotate(t)) == [t[n - 2], t[n - 1]] + t[..n - 2]
    ensures n == 4 ==> Rotate(Rotate(Rotate(t))) == [t[1], t[2], t[3], t[0]]
  {
    var r := Rotate(t);
    assert r[..n - 1] == [t[n - 1]] + t[..n - 2];
    var s := Rotate(r);
    assert s == [t[n - 2], t[n - 1]] + t[..n - 2];
    if n == 4 { assert s[..3] == [t[2], t[3], t[0]] && s[3] == t[1]; }
  }

  lemma OneRotation(t: seq<Pos>, k: nat)
    requires |t| > 0
    ensures Rotations(t, k + 1) == Rotate(Rotations(t, k))
  {
  }

  lemma StartsOfThree(c: nat)
    requires c < 12
    ensures Starts(ThreePulses, c) == Turned3(c / 3, c % 3)
  {
    hide Starts;
    StartsAre(ThreePulses, c);
  }

  lemma StartsOfFour(c: nat)
    requires c < 8
    ensures Starts(FourPulses, c) == Turned4(c / 4, c % 4)
  {
    hide Starts;
    StartsAre(FourPulses, c);
  }

  lemma StartsDiffer(book: Book, c: nat, e: nat)
    requires c < book.Configs() && e < book.Configs() && Starts(book, c) == Starts(book, e)
    ensures c == e
  {
    hide Starts, Turned3, Turned4;
    if book.ThreePulses? {
      StartsOfThree(c);
      StartsOfThree(e);
      TracksOfThree(c / 3, e / 3, c % 3, e % 3, Starts(book, c));
    } else {
      StartsOfFour(c);
      StartsOfFour(e);
      TracksOfFour(c / 4, e / 4, c % 4, e % 4, Starts(book, c));
    }
  }

  function Turned3(t: nat, i: nat): seq<Pos>
    requires t < 4 && i < 3
  {
    var (a, b, c) := (0, 1 + 2 * (t / 2), 2 + 2 * (t % 2));
    if i == 0 then [a, b, c] else if i == 1 then [c, a, b] else [b, c, a]
  }

  lemma TracksOfThree(t: nat, s: nat, i: nat, j: nat, v: seq<Pos>)
    requires t < 4 && s < 4 && i < 3 && j < 3 && v == Turned3(t, i) == Turned3(s, j)
    ensures t == s && i == j
  {
    assert i == if v[0] == 0 then 0 else if v[1] == 0 then 1 else 2;
    assert j == if v[0] == 0 then 0 else if v[1] == 0 then 1 else 2;
  }

  function Turned4(t: nat, i: nat): seq<Pos>
    requires t < 2 && i < 4
  {
    if i == 0 then [0, 1, 2, 3 + t] else if i == 1 then [3 + t, 0, 1, 2]
    else if i == 2 then [2, 3 + t, 0, 1] else [1, 2, 3 + t, 0]
  }

  lemma TracksOfFour(t: nat, s: nat, i: nat, j: nat, v: seq<Pos>)
    requires t < 2 && s < 2 && i < 4 && j < 4 && v == Turned4(t, i) == Turned4(s, j)
    ensures t == s && i == j
  {
  }

  lemma ChainsDiffer(book: Book, dn: Corr, rr: Matrix, c: nat, u: nat, d: nat, x: nat)
    requires c < book.Configs() && u < 8 && d < book.Configs() && x < 8
    requires ChainAt(book, dn, rr, c, u).tag == ChainAt(book, dn, rr, d, x).tag
    ensures c == d && u == x
  {
    hide Grow, Starts;
    StartsInTracks(book, c);
    StartsInTracks(book, d);
    var p, q := Starts(book, c), Starts(book, d);
    GrowOnTracks(dn, rr, p, FirstPulse(p, u));
    GrowOnTracks(dn, rr, q, FirstPulse(q, x));
    forall j | 0 <= j < |p| ensures p[j] == q[j] {
      assert ChainAt(book, dn, rr, c, u).tag[j] % STEP == p[j];
    }
    assert p == q;
    StartsDiffer(book, c, d);
  }

  // ----- the best chain with a proper energy -----

  predicate Earlier(c: nat, u: nat, d: nat, x: nat) { c < d || (c == d && u < x) }

  /** The admitted chain (d, x) is the first best of those without a negative energy. */
  ghost predicate BestProperChain(book: Book, dn: Corr, dn2: Corr, rr: Matrix, d: nat, x: nat) {
    && d < book.Configs() && x < 8 && Admitted(book, dn2, d, x)
    && var w := ChainAt(book, dn, rr, d, x).score;
    && w.sq >= 0 && w.alp >= 0 && Viable(w)
    && forall c: nat, u: nat :: c < book.Configs() && u < 8 && Admitted(book, dn2, c, u) ==>
         var t := ChainAt(book, dn, rr, c, u).score;
         t.alp >= 0 ==> NotBetter(t, w) && (Viable(t) && Earlier(c, u, d, x) ==> Worse(t, w))
  }

  /** The chains tried before it do not end on a negative energy, and a later one with a
      negative energy has no correlation, and the chain has none either. */
  ghost predicate Undisplaced(book: Book, dn: Corr, dn2: Corr, rr: Matrix, d: nat, x: nat)
    requires d < book.Configs() && x < 8 && Admitted(book, dn2, d, x)
  {
    AllChainsAt(book, dn, dn2, rr, d, x, book.Configs());
    && !Negative(ClassAfter(Classes(AllChains(book, dn, dn2, rr, book.Configs())[..Place(book, dn, dn2, rr, d, x)])))
    && forall c: nat, u: nat ::
         c < book.Configs() && u < 8 && Admitted(book, dn2, c, u) && Earlier(d, x, c, u)
         && Negative(ChainClass(book, dn, rr, c, u)) ==>
           ChainClass(book, dn, rr, c, u) == Zero && ChainAt(book, dn, rr, d, x).score.sq == 0
  }

  lemma PlaceOrder(book: Book, dn: Corr, dn2: Corr, rr: Matrix, c: nat, u: nat, d: nat, x: nat)
    requires c < book.Configs() && u < 8 && d < book.Configs() && x < 8
    requires Admitted(book, dn2, c, u) && Admitted(book, dn2, d, x)
    ensures Place(book, dn, dn2, rr, c, u) < Place(book, dn, dn2, rr, d, x) <==> Earlier(c, u, d, x)
    ensures Place(book, dn, dn2, rr, c, u) == Place(book, dn, dn2, rr, d, x) <==> c == d && u == x
  {
    hide Place, Admitted;
    if Earlier(c, u, d, x) { PlaceFollowsScan(book, dn, dn2, rr, c, u, d, x); }
    if Earlier(d, x, c, u) { PlaceFollowsScan(book, dn, dn2, rr, d, x, c, u); }
  }

  lemma BestOfChains(book: Book, dn: Corr, dn2: Corr, rr: Matrix, d: nat, x: nat)
    requires BestProperChain(book, dn, dn2, rr, d, x)
    ensures var all, g := AllChains(book, dn, dn2, rr, book.Configs()), Place(book, dn, dn2, rr, d, x);
            g < |all| && all[g] == ChainAt(book, dn, rr, d, x) && BestProper(all, g)
  {
    hide AllChains, ChainAt, Place, Admitted;
    var all, g := AllChains(book, dn, dn2, rr, book.Configs()), Place(book, dn, dn2, rr, d, x);
    AllChainsAt(book, dn, dn2, rr, d, x, book.Configs());
    var m := Muted(all);
    assert m[g] == all[g];
    forall h | 0 <= h < |all|
      ensures NotBetter(m[h].score, all[g].score)
      ensures h < g && Viable(m[h].score) ==> Worse(m[h].score, all[g].score)
      ensures h != g ==> all[h] != all[g]
    {
      var c, u := AllChainsFrom(book, dn, dn2, rr, book.Configs(), h);
      AllChainsAt(book, dn, dn2, rr, c, u, book.Configs());
      PlaceOrder(book, dn, dn2, rr, c, u, d, x);
      if h != g && all[h] == all[g] { ChainsDiffer(book, dn, rr, c, u, d, x); }
      if all[h].score.alp < 0 { Outcome.DeadIsWorst(all[g].score); }
    }
  }

  lemma LaterChains(book: Book, dn: Corr, dn2: Corr, rr: Matrix, d: nat, x: nat)
    requires BestProperChain(book, dn, dn2, rr, d, x)
    ensures var all, g := AllChains(book, dn, dn2, rr, book.Configs()), Place(book, dn, dn2, rr, d, x);
      g < |all| && (Undisplaced(book, dn, dn2, rr, d, x) <==>
        !Negative(ClassAfter(Classes(all[..g]))) && Undisturbed(all, g, |all|))
  {
    hide AllChains, ChainAt, Place, Admitted, ChainClass, ClassOf, ClassAfter;
    var all, g := AllChains(book, dn, dn2, rr, book.Configs()), Place(book, dn, dn2, rr, d, x);
    AllChainsAt(book, dn, dn2, rr, d, x, book.Configs());
    forall c: nat, u: nat | c < book.Configs() && u < 8 && Admitted(book, dn2, c, u)
      ensures var h := Place(book, dn, dn2, rr, c, u);
        h < |all| && ClassOf(all[h].score) == ChainClass(book, dn, rr, c, u) && (g < h <==> Earlier(d, x, c, u))
    {
      AllChainsAt(book, dn, dn2, rr, c, u, book.Configs());
      ChainClassIs(book, dn, rr, c, u);
      PlaceOrder(book, dn, dn2, rr, d, x, c, u);
    }
    forall h | g < h < |all| && Undisplaced(book, dn, dn2, rr, d, x) && Negative(ClassOf(all[h].score))
      ensures ClassOf(all[h].score) == Zero && all[g].score.sq == 0
    {
      var c, u := AllChainsFrom(book, dn, dn2, rr, book.Configs(), h);
    }
  }

  /** Some admitted chain is proper. */
  ghost predicate SomeProperChain(book: Book, dn: Corr, dn2: Corr, rr: Matrix) {
    exists c: nat, u: nat :: c < book.Configs() && u < 8 && Admitted(book, dn2, c, u)
      && Proper(ChainClass(book, dn, rr, c, u))
  }

  lemma BestChainExists(book: Book, dn: Corr, dn2: Corr, rr: Matrix) returns (d: nat, x: nat)
    requires SomeProperChain(book, dn, dn2, rr)
    ensures BestProperChain(book, dn, dn2, rr, d, x)
  {
    hide AllChains, ChainAt, Place, Admitted, ChainClass, ClassOf, Choose;
    var all := AllChains(book, dn, dn2, rr, book.Configs());
    AllChainsScanned(book, dn, dn2, rr);
    var m := Muted(all);
    assert AllComparable(m);
    var k := ChooseKeepsFirstBest(m, []);
    var e: nat, z: nat :| e < book.Configs() && z < 8 && Admitted(book, dn2, e, z)
      && Proper(ChainClass(book, dn, rr, e, z));
    AllChainsAt(book, dn, dn2, rr, e, z, book.Configs());
    ChainClassIs(book, dn, rr, e, z);
    ClassFacts(ChainAt(book, dn, rr, e, z).score);
    assert Viable(m[Place(book, dn, dn2, rr, e, z)].score);
    d, x := AllChainsFrom(book, dn, dn2, rr, book.Configs(), k);
    AllChainsAt(book, dn, dn2, rr, d, x, book.Configs());
    assert m[k] == all[k] && Scanned(all[k].score);
    forall c: nat, u: nat | c < book.Configs() && u < 8 && Admitted(book, dn2, c, u)
      ensures var t := ChainAt(book, dn, rr, c, u).score;
        t.alp >= 0 ==> NotBetter(t, all[k].score) && (Viable(t) && Earlier(c, u, d, x) ==> Worse(t, all[k].score))
    {
      AllChainsAt(book, dn, dn2, rr, c, u, book.Configs());
      PlaceOrder(book, dn, dn2, rr, c, u, d, x);
      var h := Place(book, dn, dn2, rr, c, u);
      assert all[h].score.alp >= 0 ==> m[h] == all[h];
    }
  }

  /** With any energies: the search returns the first best of the proper chains if and only if
      nothing displaces it. */
  lemma SearchExactly(book: Book, dn: Corr, dn2: Corr, rr: Matrix) returns (d: nat, x: nat)
    requires SomeProperChain(book, dn, dn2, rr)
    ensures BestProperChain(book, dn, dn2, rr, d, x)
    ensures Search(book, dn, dn2, rr) == ChainAt(book, dn, rr, d, x) <==> Undisplaced(book, dn, dn2, rr, d, x)
  {
    hide AllChains, ChainAt, Place, Admitted, ChainClass, ClassOf, ClassAfter, Choose, BestProper, Undisplaced;
    d, x := BestChainExists(book, dn, dn2, rr);
    BestOfChains(book, dn, dn2, rr, d, x);
    AllChainsScanned(book, dn, dn2, rr);
    BestKeptExactly(AllChains(book, dn, dn2, rr, book.Configs()), book.Preset(), Place(book, dn, dn2, rr, d, x));
    LaterChains(book, dn, dn2, rr, d, x);
  }

  /** Some admitted chain can replace the start value. */
  ghost predicate SomeChainEnters(book: Book, dn: Corr, dn2: Corr, rr: Matrix) {
    exists c: nat, u: nat :: c < book.Configs() && u < 8 && EntersAt(book, dn, dn2, rr, c, u)
  }

  predicate EntersAt(book: Book, dn: Corr, dn2: Corr, rr: Matrix, c: nat, u: nat)
    requires c < book.Configs() && u < 8
  {
    Admitted(book, dn2, c, u) && Entering(ChainClass(book, dn, rr, c, u))
  }

  /** The preset survives exactly when no admitted chain can replace the start value. */
  lemma PresetExactly(book: Book, dn: Corr, dn2: Corr, rr: Matrix)
    ensures if SomeChainEnters(book, dn, dn2, rr)
            then Search(book, dn, dn2, rr) in AllChains(book, dn, dn2, rr, book.Configs())
            else Search(book, dn, dn2, rr) == Trial(book.Preset(), START)
  {
    hide AllChains, ChainAt, Place, Admitted, ChainClass, ClassOf, Choose;
    var all := AllChains(book, dn, dn2, rr, book.Configs());
    AllChainsScanned(book, dn, dn2, rr);
    StartSurvives(all, book.Preset());
    forall j | 0 <= j < |all| && Entering(ClassOf(all[j].score)) ensures SomeChainEnters(book, dn, dn2, rr) {
      var c, u := AllChainsFrom(book, dn, dn2, rr, book.Configs(), j);
      AllChainsAt(book, dn, dn2, rr, c, u, book.Configs());
      ChainClassIs(book, dn, rr, c, u);
      assert EntersAt(book, dn, dn2, rr, c, u);
    }
    if SomeChainEnters(book, dn, dn2, rr) {
      var c: nat, u: nat :| c < book.Configs() && u < 8 && EntersAt(book, dn, dn2, rr, c, u);
      AllChainsAt(book, dn, dn2, rr, c, u, book.Configs());
      ChainClassIs(book, dn, rr, c, u);
      assert Entering(ClassOf(all[Place(book, dn, dn2, rr, c, u)].score));
    }
  }
}
