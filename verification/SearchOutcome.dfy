/** What the exhaustive and the greedy searches return when energies may be negative. Both
    scan the outcomes of inner scans, so an inner scan that kept nothing hands its start
    value to the outer one. */
module SearchOutcome {
  import opened FixedPoint
  import opened RatioSearch
  import opened ScanClasses
  import opened PulseStages
  import opened TwoPulseSearch
  import Greedy = GreedySearch

  // ----- one stage -----

  function StageClasses(dn: Corr, rr: Matrix, ch: Chain, start: nat): (cs: seq<Class>)
    requires start < STEP
    ensures |cs| == 8
  {
    seq(8, v requires 0 <= v < 8 => ClassOf(TrackTrial(dn, rr, ch, start, v).score))
  }

  lemma StageClass(dn: Corr, rr: Matrix, ch: Chain, start: nat)
    requires start < STEP
    ensures ClassOf(Stage(dn, rr, ch, start).score) == ClassAfter(StageClasses(dn, rr, ch, start))
    ensures Scanned(Stage(dn, rr, ch, start).score)
  {
    hide TrialAt, Choose, Upto, Trials, ClassOf, ClassAfter, TrackTrial;
    var ts := Trials(dn, rr, ch, start, 8);
    forall v: nat | v < 8
      ensures ts[v] == TrackTrial(dn, rr, ch, start, v)
    {
      TrialsAt(dn, rr, ch, start, 8, v);
    }
    UptoIsChoose(dn, rr, ch, start, 8);
    KeptClass(ts, Placed(start, 0));
    assert Classes(ts) == StageClasses(dn, rr, ch, start);
  }

  // ----- the exhaustive searches -----

  function PairClass(dn: Corr, rr: Matrix, p: (Pos, Pos)): Class { ClassOf(PairScore(dn, rr, p)) }

  /** What the inner loop makes of first pulse u in track combination c. */
  function GroupClass(dn: Corr, rr: Matrix, tracks: Tracks, c: nat, u: nat): Class
    requires ValidTracks(tracks) && c < |tracks| && u < 8
  {
    ClassAfter(seq(8, v requires 0 <= v < 8 => PairClass(dn, rr, PairAt(tracks, c, u, v))))
  }

  /** The first n groups. */
  function GroupClasses(dn: Corr, rr: Matrix, tracks: Tracks, n: nat): (cs: seq<Class>)
    requires ValidTracks(tracks) && n <= 8 * |tracks|
    ensures |cs| == n
  {
    seq(n, g requires 0 <= g < n => GroupClass(dn, rr, tracks, g / 8, g % 8))
  }

  /** The outcome of that inner loop. */
  function WinnerOf(dn: Corr, rr: Matrix, tracks: Tracks, c: nat, u: nat): Trial<(Pos, Pos)>
    requires ValidTracks(tracks) && c < |tracks| && u < 8
  {
    GroupWinner(dn, rr, tracks[c].0 + STEP * u, tracks[c].1)
  }

  lemma WinnerClass(dn: Corr, rr: Matrix, tracks: Tracks, c: nat, u: nat)
    requires ValidTracks(tracks) && c < |tracks| && u < 8
    ensures var w := WinnerOf(dn, rr, tracks, c, u);
            ClassOf(w.score) == GroupClass(dn, rr, tracks, c, u) && Scanned(w.score)
  {
    hide PairScore, Stage, TrackTrial, ClassOf, ClassAfter;
    var i0, start := tracks[c].0 + STEP * u, tracks[c].1;
    forall v: nat | v < 8
      ensures TrackTrial(dn, rr, One(i0), start, v).score == PairScore(dn, rr, PairAt(tracks, c, u, v))
    {
      TrialOfPair(dn, rr, i0, start, v);
    }
    StageClass(dn, rr, One(i0), start);
    assert StageClasses(dn, rr, One(i0), start)
        == seq(8, v requires 0 <= v < 8 => PairClass(dn, rr, PairAt(tracks, c, u, v)));
  }

  lemma WinnersClasses(dn: Corr, rr: Matrix, tracks: Tracks, n: nat)
    requires ValidTracks(tracks) && n <= 8 * |tracks|
    ensures AllScanned(Winners(dn, rr, tracks, n))
    ensures Classes(Winners(dn, rr, tracks, n)) == GroupClasses(dn, rr, tracks, n)
  {
    hide GroupWinner, GroupClass, ClassOf, Winners, FirstPos, PartnerStart;
    var ws := Winners(dn, rr, tracks, n);
    forall g | 0 <= g < n
      ensures ClassOf(ws[g].score) == GroupClass(dn, rr, tracks, g / 8, g % 8) && Scanned(ws[g].score)
    {
      WinnersAt(dn, rr, tracks, n, g);
      GroupAt(tracks, g / 8, g % 8);
      WinnerClass(dn, rr, tracks, g / 8, g % 8);
    }
  }

  /** With any energies: the class of the result follows from the classes of the tried pairs,
      first within each group, then over the groups. */
  lemma SearchClass(dn: Corr, rr: Matrix, tracks: Tracks)
    requires ValidTracks(tracks)
    ensures ClassOf(Search(dn, rr, tracks).score) == ClassAfter(GroupClasses(dn, rr, tracks, 8 * |tracks|))
  {
    hide Winners, Choose, ClassOf, ClassAfter, GroupClass;
    WinnersClasses(dn, rr, tracks, 8 * |tracks|);
    KeptClass(Winners(dn, rr, tracks, 8 * |tracks|), (0, 1));
  }

  /** Some group's outcome can replace the start value. */
  ghost predicate SomeGroupEnters(dn: Corr, rr: Matrix, tracks: Tracks)
    requires ValidTracks(tracks)
  {
    exists c: nat, u: nat :: c < |tracks| && u < 8 && Entering(GroupClass(dn, rr, tracks, c, u))
  }

  /** The preset comes back exactly when no group's outcome can replace the start value;
      otherwise the result is one of the tried pairs of positions. */
  lemma PresetExactly(dn: Corr, rr: Matrix, tracks: Tracks) returns (c: nat, u: nat, v: nat)
    requires ValidTracks(tracks)
    ensures !SomeGroupEnters(dn, rr, tracks) ==> Search(dn, rr, tracks) == Trial((0, 1), START)
    ensures SomeGroupEnters(dn, rr, tracks) ==>
      c < |tracks| && u < 8 && v < 8 && Search(dn, rr, tracks).tag == PairAt(tracks, c, u, v)
  {
    hide Winners, Choose, ClassOf, GroupClass, GroupWinner, FirstPos, PartnerStart;
    var n := 8 * |tracks|;
    var ws := Winners(dn, rr, tracks, n);
    WinnersClasses(dn, rr, tracks, n);
    forall g | 0 <= g < n
      ensures ClassOf(ws[g].score) == GroupClass(dn, rr, tracks, g / 8, g % 8)
    {
      assert Classes(ws)[g] == GroupClasses(dn, rr, tracks, n)[g];
    }
    StartSurvives(ws, (0, 1));
    c, u, v := 0, 0, 0;
    if SomeGroupEnters(dn, rr, tracks) {
      var e: nat, x: nat :| e < |tracks| && x < 8 && Entering(GroupClass(dn, rr, tracks, e, x));
      GroupAt(tracks, e, x);
      assert Entering(ClassOf(ws[8 * e + x].score)) by { assert (8 * e + x) / 8 == e && (8 * e + x) % 8 == x; }
      var g :| 0 <= g < n && ws[g] == Choose(ws, (0, 1));
      c, u := g / 8, g % 8;
      WinnersAt(dn, rr, tracks, n, g);
      GroupAt(tracks, c, u);
      v := WinnerOnTrack(dn, rr, tracks, c, u);
    }
  }

  lemma WinnerOnTrack(dn: Corr, rr: Matrix, tracks: Tracks, c: nat, u: nat) returns (v: nat)
    requires ValidTracks(tracks) && c < |tracks| && u < 8
    ensures v < 8
    ensures WinnerOf(dn, rr, tracks, c, u).tag == PairAt(tracks, c, u, v)
  {
    hide Stage;
    var i0, start := tracks[c].0 + STEP * u, tracks[c].1;
    StageStaysOnTrack(dn, rr, One(i0), start);
    v := Stage(dn, rr, One(i0), start).tag.pos / STEP;
  }

  // ----- the best pair with a proper energy -----

  /** The pair at (d, x, y) is the first best of the tried pairs without a negative energy. */
  ghost predicate BestProperPair(dn: Corr, rr: Matrix, tracks: Tracks, d: nat, x: nat, y: nat)
    requires ValidTracks(tracks)
  {
    && d < |tracks| && x < 8 && y < 8
    && var w := PairScore(dn, rr, PairAt(tracks, d, x, y));
    && w.alp >= 0 && Viable(w)
    && forall c: nat, u: nat, v: nat :: c < |tracks| && u < 8 && v < 8 ==>
         var p := PairScore(dn, rr, PairAt(tracks, c, u, v));
         p.alp >= 0 ==> NotBetter(p, w) && (Viable(p) && Before(c, u, v, d, x, y) ==> Worse(p, w))
  }

  ghost predicate NoProperPair(dn: Corr, rr: Matrix, tracks: Tracks)
    requires ValidTracks(tracks)
  {
    forall c: nat, u: nat, v: nat :: c < |tracks| && u < 8 && v < 8
      ==> !Proper(PairClass(dn, rr, PairAt(tracks, c, u, v)))
  }

  function PairNumber(tracks: Tracks, k: nat): (Pos, Pos)
    requires ValidTracks(tracks) && k < 64 * |tracks|
  {
    PairAt(tracks, k / 64, k / 8 % 8, k % 8)
  }

  /** All tried pairs in scan order, those with a negative energy muted. */
  function MutedPairs(dn: Corr, rr: Matrix, tracks: Tracks): (ts: seq<Trial<nat>>)
    requires ValidTracks(tracks)
    ensures |ts| == 64 * |tracks|
  {
    seq(64 * |tracks|, k requires 0 <= k < 64 * |tracks| =>
      var s := PairScore(dn, rr, PairNumber(tracks, k));
      Trial(k, if s.alp < 0 then Score(0, 0) else s))
  }

  lemma PairNumberOf(tracks: Tracks, c: nat, u: nat, v: nat)
    requires ValidTracks(tracks) && c < |tracks| && u < 8 && v < 8
    ensures 64 * c + 8 * u + v < 64 * |tracks|
    ensures PairNumber(tracks, 64 * c + 8 * u + v) == PairAt(tracks, c, u, v)
  {
    var k := 64 * c + 8 * u + v;
    assert k / 64 == c && k / 8 == 8 * c + u && k % 8 == v;
  }

  lemma MutedPairAt(dn: Corr, rr: Matrix, tracks: Tracks, c: nat, u: nat, v: nat)
    requires ValidTracks(tracks) && c < |tracks| && u < 8 && v < 8
    ensures 64 * c + 8 * u + v < 64 * |tracks|
    ensures var s := PairScore(dn, rr, PairAt(tracks, c, u, v));
            MutedPairs(dn, rr, tracks)[64 * c + 8 * u + v].score == if s.alp < 0 then Score(0, 0) else s
  {
    hide PairScore, PairNumber;
    PairNumberOf(tracks, c, u, v);
  }

  lemma MutedPairsComparable(dn: Corr, rr: Matrix, tracks: Tracks)
    requires ValidTracks(tracks)
    ensures AllComparable(MutedPairs(dn, rr, tracks))
  {
    hide PairScore, PairNumber;
  }

  lemma BestPairExists(dn: Corr, rr: Matrix, tracks: Tracks) returns (d: nat, x: nat, y: nat)
    requires ValidTracks(tracks)
    ensures if NoProperPair(dn, rr, tracks) then d == x == y == 0 else BestProperPair(dn, rr, tracks, d, x, y)
  {
    hide PairScore, Choose, MutedPairs, PairAt, IsFirstBest, Viable;
    var ts := MutedPairs(dn, rr, tracks);
    MutedPairsComparable(dn, rr, tracks);
    var k := ChooseKeepsFirstBest(ts, 0);
    d, x, y := 0, 0, 0;
    if NoneViable(ts) {
      forall c: nat, u: nat, v: nat | c < |tracks| && u < 8 && v < 8
        ensures !Proper(PairClass(dn, rr, PairAt(tracks, c, u, v)))
      {
        MutedPairAt(dn, rr, tracks, c, u, v);
        ClassFacts(PairScore(dn, rr, PairAt(tracks, c, u, v)));
      }
    } else {
      d, x, y := FirstBestMuted(dn, rr, tracks, k);
      ClassFacts(PairScore(dn, rr, PairAt(tracks, d, x, y)));
      assert Proper(PairClass(dn, rr, PairAt(tracks, d, x, y)));
    }
  }

  lemma FirstBestMuted(dn: Corr, rr: Matrix, tracks: Tracks, k: nat) returns (d: nat, x: nat, y: nat)
    requires ValidTracks(tracks) && IsFirstBest(MutedPairs(dn, rr, tracks), k)
    ensures BestProperPair(dn, rr, tracks, d, x, y)
  {
    hide PairScore, MutedPairs, PairAt, Before;
    var ts := MutedPairs(dn, rr, tracks);
    d, x, y := NumberParts(k, |tracks|);
    MutedPairAt(dn, rr, tracks, d, x, y);
    forall c: nat, u: nat, v: nat | c < |tracks| && u < 8 && v < 8
      ensures var p := PairScore(dn, rr, PairAt(tracks, c, u, v));
        p.alp >= 0 ==>
          NotBetter(p, ts[k].score) && (Viable(p) && Before(c, u, v, d, x, y) ==> Worse(p, ts[k].score))
    {
      MutedPairAt(dn, rr, tracks, c, u, v);
      NumberOrder(c, u, v, d, x, y);
    }
  }

  lemma NumberParts(k: nat, n: nat) returns (d: nat, x: nat, y: nat)
    requires k < 64 * n
    ensures d < n && x < 8 && y < 8 && k == 64 * d + 8 * x + y
  {
    d, x, y := k / 64, k / 8 % 8, k % 8;
  }

  lemma NumberOrder(c: nat, u: nat, v: nat, d: nat, x: nat, y: nat)
    requires u < 8 && v < 8 && x < 8 && y < 8
    ensures 64 * c + 8 * u + v < 64 * d + 8 * x + y <==> Before(c, u, v, d, x, y)
  {
  }

  // ----- what a group without a negative outcome keeps -----

  lemma GroupOutcome(dn: Corr, rr: Matrix, tracks: Tracks, c: nat, u: nat) returns (k: nat)
    requires ValidTracks(tracks) && c < |tracks| && u < 8 && !Negative(GroupClass(dn, rr, tracks, c, u))
    ensures k < 8
    ensures var w := WinnerOf(dn, rr, tracks, c, u);
      if w.score == START then
        forall v: nat :: v < 8 ==> !Proper(PairClass(dn, rr, PairAt(tracks, c, u, v)))
      else
        && w == Trial(PairAt(tracks, c, u, k), PairScore(dn, rr, PairAt(tracks, c, u, k)))
        && w.score.alp >= 0 && Viable(w.score)
        && forall v: nat :: v < 8 ==>
             var p := PairScore(dn, rr, PairAt(tracks, c, u, v));
             p.alp >= 0 ==> NotBetter(p, w.score) && (Viable(p) && v < k ==> Worse(p, w.score))
  {
    hide PairScore, Stage, TrackTrial, ClassOf, GroupClass, AllHarmless, Choose;
    var i0, start := tracks[c].0 + STEP * u, tracks[c].1;
    var ts := seq(8, v requires 0 <= v < 8 => TrackTrial(dn, rr, One(i0), start, v));
    WinnerClass(dn, rr, tracks, c, u);
    k := StageExactly(dn, rr, One(i0), start, ts);
    ClassFacts(Stage(dn, rr, One(i0), start).score);
    var m := Muted(ts);
    forall v: nat | v < 8
      ensures var p := PairScore(dn, rr, PairAt(tracks, c, u, v));
        && ts[v].score == p && m[v].score == (if p.alp < 0 then Score(0, 0) else p)
        && (Proper(ClassOf(p)) <==> p.alp >= 0 && Viable(p))
    {
      TrialOfPair(dn, rr, i0, start, v);
      ClassFacts(ts[v].score);
    }
    if NoneViable(m) { k := 0; }
    else { assert m[k].score == ts[k].score; }
  }

  // ----- the main result -----

  predicate DistinctTracks(tracks: Tracks) {
    forall c, e :: 0 <= c < e < |tracks| ==> tracks[c] != tracks[e]
  }

  lemma CodecTracksDistinct(subNr: nat)
    requires subNr < 4
    ensures DistinctTracks(Tracks11()) && DistinctTracks(Tracks9(subNr))
  {
  }

  lemma PairDeterminesGroup(tracks: Tracks, c: nat, u: nat, v: nat, d: nat, x: nat, y: nat)
    requires ValidTracks(tracks) && DistinctTracks(tracks)
    requires c < |tracks| && u < 8 && v < 8 && d < |tracks| && x < 8 && y < 8
    requires PairAt(tracks, c, u, v) == PairAt(tracks, d, x, y)
    ensures c == d && u == x && v == y
  {
    assert (tracks[c].0 + STEP * u) % STEP == tracks[c].0 && (tracks[d].0 + STEP * x) % STEP == tracks[d].0;
    assert (tracks[c].1 + STEP * v) % STEP == tracks[c].1 && (tracks[d].1 + STEP * y) % STEP == tracks[d].1;
  }

  /** Three conditions on the classes of tried pairs: neither the pair's own group nor the
      groups before it end on a negative energy, and a later group that does has no
      correlation, and the pair has none either. */
  ghost predicate Undisplaced(dn: Corr, rr: Matrix, tracks: Tracks, d: nat, x: nat, y: nat)
    requires ValidTracks(tracks) && d < |tracks| && x < 8 && y < 8
  {
    && !Negative(GroupClass(dn, rr, tracks, d, x))
    && !Negative(ClassAfter(GroupClasses(dn, rr, tracks, 8 * d + x)))
    && forall c: nat, u: nat ::
         c < |tracks| && u < 8 && 8 * d + x < 8 * c + u && Negative(GroupClass(dn, rr, tracks, c, u)) ==>
           GroupClass(dn, rr, tracks, c, u) == Zero && PairScore(dn, rr, PairAt(tracks, d, x, y)).sq == 0
  }

  lemma WinnerAt(dn: Corr, rr: Matrix, tracks: Tracks, c: nat, u: nat)
    requires ValidTracks(tracks) && c < |tracks| && u < 8
    ensures 8 * c + u < 8 * |tracks|
    ensures Winners(dn, rr, tracks, 8 * |tracks|)[8 * c + u]
         == WinnerOf(dn, rr, tracks, c, u)
  {
    hide GroupWinner, Winners, FirstPos, PartnerStart;
    GroupAt(tracks, c, u);
    WinnersAt(dn, rr, tracks, 8 * |tracks|, 8 * c + u);
  }

  /** The winner of the best pair's group is that pair, unless it has a negative energy. */
  lemma BestWinsItsGroup(dn: Corr, rr: Matrix, tracks: Tracks, d: nat, x: nat, y: nat)
    requires ValidTracks(tracks) && BestProperPair(dn, rr, tracks, d, x, y)
    requires !Negative(GroupClass(dn, rr, tracks, d, x))
    ensures WinnerOf(dn, rr, tracks, d, x)
         == Trial(PairAt(tracks, d, x, y), PairScore(dn, rr, PairAt(tracks, d, x, y)))
  {
    hide WinnerOf, PairScore, GroupClass, ClassOf;
    var k := GroupOutcome(dn, rr, tracks, d, x);
    ClassFacts(PairScore(dn, rr, PairAt(tracks, d, x, y)));
    var p, q := PairScore(dn, rr, PairAt(tracks, d, x, k)), PairScore(dn, rr, PairAt(tracks, d, x, y));
    assert Before(d, x, k, d, x, y) <==> k < y;
  }

  /** Against any other group's winner. */
  lemma AgainstOther(dn: Corr, rr: Matrix, tracks: Tracks, d: nat, x: nat, y: nat, c: nat, u: nat)
    requires ValidTracks(tracks) && DistinctTracks(tracks) && BestProperPair(dn, rr, tracks, d, x, y)
    requires c < |tracks| && u < 8
    ensures var w := WinnerOf(dn, rr, tracks, c, u);
            var best := PairScore(dn, rr, PairAt(tracks, d, x, y));
      && (w.score.alp >= 0 ==>
            NotBetter(w.score, best) && (Viable(w.score) && 8 * c + u < 8 * d + x ==> Worse(w.score, best)))
      && ((c, u) != (d, x) ==> w.tag != PairAt(tracks, d, x, y))
  {
    hide WinnerOf, PairScore, GroupClass, ClassOf, PairAt;
    WinnerClass(dn, rr, tracks, c, u);
    var w := WinnerOf(dn, rr, tracks, c, u);
    ClassFacts(w.score);
    if w.score.alp >= 0 {
      var k := GroupOutcome(dn, rr, tracks, c, u);
      if w.score == START {
        StartIsWorst(PairScore(dn, rr, PairAt(tracks, d, x, y)));
      } else if 8 * c + u < 8 * d + x {
        assert Before(c, u, k, d, x, y);
      }
    }
    var v := WinnerOnTrack(dn, rr, tracks, c, u);
    if PairAt(tracks, c, u, v) == PairAt(tracks, d, x, y) { PairDeterminesGroup(tracks, c, u, v, d, x, y); }
  }

  lemma StartIsWorst(s: Score)
    requires s.sq >= 0 && s.alp >= 0
    ensures NotBetter(START, s) && !Viable(START)
  {
  }

  /** So its group's winner is the best proper outcome of the outer scan. */
  lemma BestOfWinners(dn: Corr, rr: Matrix, tracks: Tracks, d: nat, x: nat, y: nat)
    requires ValidTracks(tracks) && DistinctTracks(tracks) && BestProperPair(dn, rr, tracks, d, x, y)
    requires !Negative(GroupClass(dn, rr, tracks, d, x))
    ensures 8 * d + x < 8 * |tracks|
    ensures BestProper(Winners(dn, rr, tracks, 8 * |tracks|), 8 * d + x)
  {
    hide WinnerOf, PairScore, GroupClass, ClassOf, PairAt, Winners;
    var ws, g := Winners(dn, rr, tracks, 8 * |tracks|), 8 * d + x;
    BestWinsItsGroup(dn, rr, tracks, d, x, y);
    WinnerAt(dn, rr, tracks, d, x);
    var m := Muted(ws);
    forall h | 0 <= h < |ws|
      ensures NotBetter(m[h].score, ws[g].score)
      ensures h < g && Viable(m[h].score) ==> Worse(m[h].score, ws[g].score)
      ensures h != g ==> ws[h] != ws[g]
    {
      WinnerAt(dn, rr, tracks, h / 8, h % 8);
      AgainstOther(dn, rr, tracks, d, x, y, h / 8, h % 8);
      if ws[h].score.alp < 0 { DeadIsWorst(ws[g].score); }
    }
    assert m[g] == ws[g];
  }

  lemma DeadIsWorst(s: Score)
    ensures NotBetter(Score(0, 0), s)
  {
  }

  /** With any energies: the search returns the first best of the proper pairs if and only if
      the three conditions hold for it; with no proper pair the result is never proper. */
  lemma SearchExactly(dn: Corr, rr: Matrix, tracks: Tracks) returns (d: nat, x: nat, y: nat)
    requires ValidTracks(tracks) && DistinctTracks(tracks)
    ensures NoProperPair(dn, rr, tracks) ==> !Proper(ClassOf(Search(dn, rr, tracks).score))
    ensures !NoProperPair(dn, rr, tracks) ==>
      && BestProperPair(dn, rr, tracks, d, x, y)
      && (Search(dn, rr, tracks) == Trial(PairAt(tracks, d, x, y), PairScore(dn, rr, PairAt(tracks, d, x, y)))
          <==> Undisplaced(dn, rr, tracks, d, x, y))
  {
    hide PairScore, GroupClass, Search, Undisplaced;
    d, x, y := BestPairExists(dn, rr, tracks);
    if !NoProperPair(dn, rr, tracks) {
      BestPairReturned(dn, rr, tracks, d, x, y);
    } else {
      NothingProper(dn, rr, tracks);
    }
  }

  lemma NothingProper(dn: Corr, rr: Matrix, tracks: Tracks)
    requires ValidTracks(tracks) && NoProperPair(dn, rr, tracks)
    ensures !Proper(ClassOf(Search(dn, rr, tracks).score))
  {
    hide PairClass, Search, ClassOf;
    SearchClass(dn, rr, tracks);
    forall c: nat, u: nat | c < |tracks| && u < 8 ensures !Proper(GroupClass(dn, rr, tracks, c, u)) {
      NoneProper(seq(8, v requires 0 <= v < 8 => PairClass(dn, rr, PairAt(tracks, c, u, v))));
    }
    hide GroupClass;
    NoneProper(GroupClasses(dn, rr, tracks, 8 * |tracks|));
  }

  lemma {:induction false} NoneProper(cs: seq<Class>)
    requires forall j :: 0 <= j < |cs| ==> !Proper(cs[j])
    ensures !Proper(ClassAfter(cs))
  {
    if cs != [] { NoneProper(cs[..|cs| - 1]); }
  }

  lemma BestPairReturned(dn: Corr, rr: Matrix, tracks: Tracks, d: nat, x: nat, y: nat)
    requires ValidTracks(tracks) && DistinctTracks(tracks) && BestProperPair(dn, rr, tracks, d, x, y)
    ensures Search(dn, rr, tracks) == Trial(PairAt(tracks, d, x, y), PairScore(dn, rr, PairAt(tracks, d, x, y)))
       <==> Undisplaced(dn, rr, tracks, d, x, y)
  {
    hide PairScore, GroupClass, WinnerOf, Choose, Winners, PairAt, ClassOf, ClassAfter, BestProper, Undisplaced;
    var ws, g := Winners(dn, rr, tracks, 8 * |tracks|), 8 * d + x;
    WinnerAt(dn, rr, tracks, d, x);
    if Negative(GroupClass(dn, rr, tracks, d, x)) {
      assert !Undisplaced(dn, rr, tracks, d, x, y) by { OwnGroupNegative(dn, rr, tracks, d, x, y); }
      NegativeGroupLoses(dn, rr, tracks, d, x, y);
    } else {
      BestWinsItsGroup(dn, rr, tracks, d, x, y);
      BestOfWinners(dn, rr, tracks, d, x, y);
      WinnersClasses(dn, rr, tracks, 8 * |tracks|);
      BestKeptExactly(ws, (0, 1), g);
      WinnersPrefix(dn, rr, tracks, g);
      UndisturbedByGroups(dn, rr, tracks, d, x, y);
    }
  }

  lemma OwnGroupNegative(dn: Corr, rr: Matrix, tracks: Tracks, d: nat, x: nat, y: nat)
    requires ValidTracks(tracks) && d < |tracks| && x < 8 && y < 8 && Negative(GroupClass(dn, rr, tracks, d, x))
    ensures !Undisplaced(dn, rr, tracks, d, x, y)
  {
  }

  /** Only its own group could hand the pair on. */
  lemma NegativeGroupLoses(dn: Corr, rr: Matrix, tracks: Tracks, d: nat, x: nat, y: nat)
    requires ValidTracks(tracks) && DistinctTracks(tracks) && BestProperPair(dn, rr, tracks, d, x, y)
    requires Negative(GroupClass(dn, rr, tracks, d, x))
    ensures Search(dn, rr, tracks) != Trial(PairAt(tracks, d, x, y), PairScore(dn, rr, PairAt(tracks, d, x, y)))
  {
    hide PairScore, GroupClass, WinnerOf, Choose, Winners, PairAt, ClassOf;
    var ws := Winners(dn, rr, tracks, 8 * |tracks|);
    var w := Search(dn, rr, tracks);
    KeptIsTried(ws, (0, 1));
    if w.score != START {
      var h :| 0 <= h < |ws| && ws[h] == w;
      WinnerAt(dn, rr, tracks, h / 8, h % 8);
      AgainstOther(dn, rr, tracks, d, x, y, h / 8, h % 8);
      WinnerClass(dn, rr, tracks, d, x);
      ClassFacts(WinnerOf(dn, rr, tracks, d, x).score);
    }
  }

  lemma WinnersPrefix(dn: Corr, rr: Matrix, tracks: Tracks, g: nat)
    requires ValidTracks(tracks) && g <= 8 * |tracks|
    ensures Classes(Winners(dn, rr, tracks, 8 * |tracks|)[..g]) == GroupClasses(dn, rr, tracks, g)
  {
    hide GroupClass, ClassOf, Winners;
    WinnersClasses(dn, rr, tracks, 8 * |tracks|);
    var ws := Winners(dn, rr, tracks, 8 * |tracks|);
    forall h | 0 <= h < g
      ensures ClassOf(ws[h].score) == GroupClass(dn, rr, tracks, h / 8, h % 8)
    {
      assert Classes(ws)[h] == GroupClasses(dn, rr, tracks, 8 * |tracks|)[h];
    }
  }

  lemma UndisturbedByGroups(dn: Corr, rr: Matrix, tracks: Tracks, d: nat, x: nat, y: nat)
    requires ValidTracks(tracks) && d < |tracks| && x < 8 && y < 8 && 8 * d + x < 8 * |tracks|
    requires !Negative(GroupClass(dn, rr, tracks, d, x))
    requires Winners(dn, rr, tracks, 8 * |tracks|)[8 * d + x].score == PairScore(dn, rr, PairAt(tracks, d, x, y))
    ensures Undisplaced(dn, rr, tracks, d, x, y) <==>
      && !Negative(ClassAfter(GroupClasses(dn, rr, tracks, 8 * d + x)))
      && Undisturbed(Winners(dn, rr, tracks, 8 * |tracks|), 8 * d + x, 8 * |tracks|)
  {
    hide GroupClass, ClassOf, Winners, PairScore, PairAt, ClassAfter;
    var ws, g := Winners(dn, rr, tracks, 8 * |tracks|), 8 * d + x;
    WinnersClasses(dn, rr, tracks, 8 * |tracks|);
    forall c: nat, u: nat | c < |tracks| && u < 8
      ensures 8 * c + u < |ws| && ClassOf(ws[8 * c + u].score) == GroupClass(dn, rr, tracks, c, u)
    {
      assert (8 * c + u) / 8 == c && (8 * c + u) % 8 == u;
      assert Classes(ws)[8 * c + u] == GroupClasses(dn, rr, tracks, 8 * |tracks|)[8 * c + u];
    }
    forall h | g < h < |ws| && Undisplaced(dn, rr, tracks, d, x, y) && Negative(ClassOf(ws[h].score))
      ensures ClassOf(ws[h].score) == Zero && ws[g].score.sq == 0
    {
      assert h == 8 * (h / 8) + h % 8;
      assert ClassOf(ws[8 * (h / 8) + h % 8].score) == GroupClass(dn, rr, tracks, h / 8, h % 8);
    }
  }
}
