/** The exhaustive two-pulse searches: search_2i40 of the 11-bit codebook (2 x 4 track
    combinations) and of the 9-bit codebook (two track pairs that depend on the subframe). */
module TwoPulseSearch {
  import opened FixedPoint
  import opened RatioSearch
  import opened PulseStages

  /** A list of track combinations: the first positions of the two pulses. */
  type Tracks = seq<(nat, nat)>

  predicate ValidTracks(tracks: Tracks) {
    forall c :: 0 <= c < |tracks| ==> tracks[c].0 < STEP && tracks[c].1 < STEP
  }

  const START_POS1: seq<nat> := [1, 3]
  const START_POS2: seq<nat> := [0, 1, 2, 4]

  function Tracks11(): (tracks: Tracks)
    ensures ValidTracks(tracks) && |tracks| == 8
  {
    [(1, 0), (1, 1), (1, 2), (1, 4), (3, 0), (3, 1), (3, 2), (3, 4)]
  }

  function Tracks9(subNr: nat): (tracks: Tracks)
    requires subNr < 4
    ensures ValidTracks(tracks) && |tracks| == 2
  {
    [(START_POS[2 * subNr], START_POS[2 * subNr + 1]), (START_POS[2 * subNr + 8], START_POS[2 * subNr + 9])]
  }

  // ----- specification of both searches -----

  /** The best partner of the first pulse i0 among the eight positions from `start`. */
  function GroupWinner(dn: Corr, rr: Matrix, i0: Pos, start: nat): Trial<(Pos, Pos)>
    requires start < STEP
  {
    var w := Stage(dn, rr, One(i0), start);
    Trial((i0, w.tag.pos), w.score)
  }

  /** Groups are tried in order: combination g / 8, first pulse g % 8. */
  function FirstPos(tracks: Tracks, g: nat): Pos
    requires ValidTracks(tracks) && g < 8 * |tracks|
  {
    tracks[g / 8].0 + STEP * (g % 8)
  }

  function PartnerStart(tracks: Tracks, g: nat): (s: nat)
    requires ValidTracks(tracks) && g < 8 * |tracks|
    ensures s < STEP
  {
    tracks[g / 8].1
  }

  lemma GroupAt(tracks: Tracks, c: nat, u: nat)
    requires ValidTracks(tracks) && c < |tracks| && u < 8
    ensures FirstPos(tracks, 8 * c + u) == tracks[c].0 + STEP * u
    ensures PartnerStart(tracks, 8 * c + u) == tracks[c].1
  {
    assert (8 * c + u) / 8 == c && (8 * c + u) % 8 == u;
  }

  function Winners(dn: Corr, rr: Matrix, tracks: Tracks, n: nat): (ws: seq<Trial<(Pos, Pos)>>)
    requires ValidTracks(tracks) && n <= 8 * |tracks|
    ensures |ws| == n
  {
    if n == 0 then [] else
      Winners(dn, rr, tracks, n - 1) + [GroupWinner(dn, rr, FirstPos(tracks, n - 1), PartnerStart(tracks, n - 1))]
  }

  /** The pair kept after n groups; (0, 1) is the preset codvec. */
  function Kept(dn: Corr, rr: Matrix, tracks: Tracks, n: nat): Trial<(Pos, Pos)>
    requires ValidTracks(tracks) && n <= 8 * |tracks|
  {
    Choose(Winners(dn, rr, tracks, n), (0, 1))
  }

  function Search(dn: Corr, rr: Matrix, tracks: Tracks): Trial<(Pos, Pos)>
    requires ValidTracks(tracks)
  {
    Kept(dn, rr, tracks, 8 * |tracks|)
  }

  lemma NothingTried(dn: Corr, rr: Matrix, tracks: Tracks)
    requires ValidTracks(tracks)
    ensures Kept(dn, rr, tracks, 0) == Trial((0, 1), START)
  {
  }

  lemma NextWinner(dn: Corr, rr: Matrix, tracks: Tracks, n: nat)
    requires ValidTracks(tracks) && n < 8 * |tracks|
    ensures Winners(dn, rr, tracks, n + 1)
         == Winners(dn, rr, tracks, n) + [GroupWinner(dn, rr, FirstPos(tracks, n), PartnerStart(tracks, n))]
  {
    hide GroupWinner, FirstPos, PartnerStart;
  }

  lemma NextGroup(dn: Corr, rr: Matrix, tracks: Tracks, c: nat, u: nat)
    requires ValidTracks(tracks) && c < |tracks| && u < 8
    ensures 8 * c + u + 1 <= 8 * |tracks|
    ensures Winners(dn, rr, tracks, 8 * c + u + 1)
         == Winners(dn, rr, tracks, 8 * c + u) + [GroupWinner(dn, rr, tracks[c].0 + STEP * u, tracks[c].1)]
  {
    hide GroupWinner, FirstPos, PartnerStart, Winners;
    GroupAt(tracks, c, u);
    NextWinner(dn, rr, tracks, 8 * c + u);
  }

  lemma KeepStep(dn: Corr, rr: Matrix, tracks: Tracks, c: nat, u: nat)
    requires ValidTracks(tracks) && c < |tracks| && u < 8
    ensures 8 * c + u + 1 <= 8 * |tracks|
    ensures var w, kept := GroupWinner(dn, rr, tracks[c].0 + STEP * u, tracks[c].1), Kept(dn, rr, tracks, 8 * c + u);
            Kept(dn, rr, tracks, 8 * c + u + 1) == if Replaces(w.score, kept.score) then w else kept
  {
    hide GroupWinner, Replaces, Winners, Choose;
    NextGroup(dn, rr, tracks, c, u);
    ChooseStep(Winners(dn, rr, tracks, 8 * c + u),
               GroupWinner(dn, rr, tracks[c].0 + STEP * u, tracks[c].1), (0, 1));
  }

  // ----- the two searches -----

  /** The i0 loop: every first pulse of one track combination. */
  method TryTracks(dn: Corr, rr: Matrix, ghost tracks: Tracks, ghost c: nat, ipos0: nat, ipos1: nat,
                   psk0: Word16, alpk0: Word16, codvec: array<Pos>)
    returns (psk: Word16, alpk: Word16)
    requires ValidTracks(tracks) && c < |tracks| && tracks[c] == (ipos0, ipos1) && codvec.Length == 2
    requires Trial((codvec[0], codvec[1]), Score(psk0, alpk0)) == Kept(dn, rr, tracks, 8 * c)
    modifies codvec
    ensures Trial((codvec[0], codvec[1]), Score(psk, alpk)) == Kept(dn, rr, tracks, 8 * (c + 1))
  {
    hide LMult, LMsu, Stage, Kept;
    psk, alpk := psk0, alpk0;
    var i0 := ipos0;
    ghost var n := 0;
    while i0 < L_CODE
      invariant n <= 8 && i0 == ipos0 + STEP * n
      invariant Trial((codvec[0], codvec[1]), Score(psk, alpk)) == Kept(dn, rr, tracks, 8 * c + n)
    {
      var ix, ps, sq, alp := FirstStage(dn, rr, i0, ipos1);
      KeepStep(dn, rr, tracks, c, n);
      var s := LMsu(LMult(alpk, sq), psk, alp);
      if s > 0 {
        psk, alpk := sq, alp;
        codvec[0], codvec[1] := i0, ix;
      }
      i0 := i0 + STEP;
      n := n + 1;
    }
  }

  lemma Tracks11At(track1: nat, track2: nat)
    requires track1 < 2 && track2 < 4
    ensures Tracks11()[4 * track1 + track2] == (START_POS1[track1], START_POS2[track2])
  {
  }

  method Search2i40Of11(dn: Corr, rr: Matrix, codvec: array<Pos>)
    requires codvec.Length == 2
    modifies codvec
    ensures (codvec[0], codvec[1]) == Search(dn, rr, Tracks11()).tag
  {
    NothingTried(dn, rr, Tracks11());
    hide Kept, Tracks11;
    var psk: Word16, alpk: Word16 := -1, 1;
    codvec[0], codvec[1] := 0, 1;
    for track1 := 0 to 2
      invariant Trial((codvec[0], codvec[1]), Score(psk, alpk)) == Kept(dn, rr, Tracks11(), 32 * track1)
    {
      for track2 := 0 to 4
        invariant Trial((codvec[0], codvec[1]), Score(psk, alpk)) == Kept(dn, rr, Tracks11(), 8 * (4 * track1 + track2))
      {
        Tracks11At(track1, track2);
        psk, alpk := TryTracks(dn, rr, Tracks11(), 4 * track1 + track2,
                               START_POS1[track1], START_POS2[track2], psk, alpk, codvec);
      }
    }
  }

  method Search2i40Of9(subNr: nat, dn: Corr, rr: Matrix, codvec: array<Pos>)
    requires subNr < 4 && codvec.Length == 2
    modifies codvec
    ensures (codvec[0], codvec[1]) == Search(dn, rr, Tracks9(subNr)).tag
  {
    NothingTried(dn, rr, Tracks9(subNr));
    hide Kept;
    var psk: Word16, alpk: Word16 := -1, 1;
    codvec[0], codvec[1] := 0, 1;
    for track1 := 0 to 2
      invariant Trial((codvec[0], codvec[1]), Score(psk, alpk)) == Kept(dn, rr, Tracks9(subNr), 8 * track1)
    {
      psk, alpk := TryTracks(dn, rr, Tracks9(subNr), track1, START_POS[subNr * 2 + 8 * track1],
                             START_POS[subNr * 2 + 1 + 8 * track1], psk, alpk, codvec);
    }
  }

  // ----- optimality -----

  /** The v-th partner of the u-th first pulse in track combination c. */
  function PairAt(tracks: Tracks, c: nat, u: nat, v: nat): (Pos, Pos)
    requires ValidTracks(tracks) && c < |tracks| && u < 8 && v < 8
  {
    (tracks[c].0 + STEP * u, tracks[c].1 + STEP * v)
  }

  function PairScore(dn: Corr, rr: Matrix, p: (Pos, Pos)): (s: Score)
    ensures s.sq >= 0
  {
    TrialAt(dn, rr, One(p.0), p.1).score
  }

  /** No tried pair has negative energy. */
  ghost predicate EnergiesNonNegative(dn: Corr, rr: Matrix, tracks: Tracks)
    requires ValidTracks(tracks)
  {
    forall c: nat, u: nat, v: nat :: c < |tracks| && u < 8 && v < 8
      ==> PairScore(dn, rr, PairAt(tracks, c, u, v)).alp >= 0
  }

  /** (c, u, v) is tried before (d, x, y). */
  predicate Before(c: nat, u: nat, v: nat, d: nat, x: nat, y: nat) {
    c < d || (c == d && (u < x || (u == x && v < y)))
  }

  /** The pair at (d, x, y) is viable, no tried pair beats it and it beats every viable
      pair tried before it. */
  ghost predicate FirstBestPair(dn: Corr, rr: Matrix, tracks: Tracks, d: nat, x: nat, y: nat)
    requires ValidTracks(tracks)
  {
    && d < |tracks| && x < 8 && y < 8
    && var w := PairScore(dn, rr, PairAt(tracks, d, x, y));
    && Viable(w)
    && forall c: nat, u: nat, v: nat :: c < |tracks| && u < 8 && v < 8 ==>
         var p := PairScore(dn, rr, PairAt(tracks, c, u, v));
         NotBetter(p, w) && (Viable(p) && Before(c, u, v, d, x, y) ==> Worse(p, w))
  }

  ghost predicate NoViablePair(dn: Corr, rr: Matrix, tracks: Tracks)
    requires ValidTracks(tracks)
  {
    forall c: nat, u: nat, v: nat :: c < |tracks| && u < 8 && v < 8
      ==> !Viable(PairScore(dn, rr, PairAt(tracks, c, u, v)))
  }

  lemma {:induction false} WinnersAt(dn: Corr, rr: Matrix, tracks: Tracks, n: nat, g: nat)
    requires ValidTracks(tracks) && g < n <= 8 * |tracks|
    ensures Winners(dn, rr, tracks, n)[g] == GroupWinner(dn, rr, FirstPos(tracks, g), PartnerStart(tracks, g))
  {
    hide GroupWinner, FirstPos, PartnerStart;
    if g < n - 1 { WinnersAt(dn, rr, tracks, n - 1, g); }
  }

  /** What one group's winner says about the eight pairs of its group. */
  lemma GroupFacts(dn: Corr, rr: Matrix, tracks: Tracks, c: nat, u: nat) returns (y: nat)
    requires ValidTracks(tracks) && c < |tracks| && u < 8
    requires EnergiesNonNegative(dn, rr, tracks)
    ensures y < 8
    ensures var w := GroupWinner(dn, rr, tracks[c].0 + STEP * u, tracks[c].1);
      && Comparable(w.score)
      && (!Viable(w.score) ==> forall v: nat :: v < 8 ==> !Viable(PairScore(dn, rr, PairAt(tracks, c, u, v))))
      && (Viable(w.score) ==> w.tag == PairAt(tracks, c, u, y) && w.score == PairScore(dn, rr, PairAt(tracks, c, u, y)))
      && (Viable(w.score) ==> forall v: nat :: v < 8 ==>
            var p := PairScore(dn, rr, PairAt(tracks, c, u, v));
            NotBetter(p, w.score) && (Viable(p) && v < y ==> Worse(p, w.score)))
  {
    hide TrialAt, Stage, NotBetter, Worse;
    var i0, start := tracks[c].0 + STEP * u, tracks[c].1;
    forall v: nat | v < 8
      ensures TrackTrial(dn, rr, One(i0), start, v).score == PairScore(dn, rr, PairAt(tracks, c, u, v))
      ensures TrackTrial(dn, rr, One(i0), start, v).score.alp >= 0
    {
      assert PairScore(dn, rr, PairAt(tracks, c, u, v)).alp >= 0;
    }
    y := StageIsOptimal(dn, rr, One(i0), start);
  }

  /** The exhaustive search is optimal: when no energy is negative and some pair has a
      ratio, the pair it returns is the first one, in scan order, that maximises
      correlation^2 / energy over all tried pairs; otherwise codvec keeps its preset. */
  lemma SearchIsOptimal(dn: Corr, rr: Matrix, tracks: Tracks) returns (d: nat, x: nat, y: nat)
    requires ValidTracks(tracks) && EnergiesNonNegative(dn, rr, tracks)
    ensures NoViablePair(dn, rr, tracks) ==> Search(dn, rr, tracks) == Trial((0, 1), START)
    ensures !NoViablePair(dn, rr, tracks) ==>
      && FirstBestPair(dn, rr, tracks, d, x, y)
      && Search(dn, rr, tracks) == Trial(PairAt(tracks, d, x, y), PairScore(dn, rr, PairAt(tracks, d, x, y)))
  {
    hide GroupWinner, PairScore, Choose, Winners, FirstPos, PartnerStart;
    var n := 8 * |tracks|;
    var ws := Winners(dn, rr, tracks, n);
    forall g | 0 <= g < n ensures Comparable(ws[g].score) {
      WinnersAt(dn, rr, tracks, n, g);
      var _ := GroupFacts(dn, rr, tracks, g / 8, g % 8);
      GroupAt(tracks, g / 8, g % 8);
    }
    var k := ChooseKeepsFirstBest(ws, (0, 1));
    d, x, y := 0, 0, 0;
    if !NoneViable(ws) {
      d, x := k / 8, k % 8;
      WinnersAt(dn, rr, tracks, n, k);
      GroupAt(tracks, d, x);
      y := GroupFacts(dn, rr, tracks, d, x);
    }
    forall c: nat, u: nat, v: nat | c < |tracks| && u < 8 && v < 8
      ensures NoneViable(ws) ==> !Viable(PairScore(dn, rr, PairAt(tracks, c, u, v)))
      ensures !NoneViable(ws) ==>
        var p := PairScore(dn, rr, PairAt(tracks, c, u, v));
        NotBetter(p, ws[k].score) && (Viable(p) && Before(c, u, v, d, x, y) ==> Worse(p, ws[k].score))
    {
      var g := 8 * c + u;
      GroupAt(tracks, c, u);
      WinnersAt(dn, rr, tracks, n, g);
      var z := GroupFacts(dn, rr, tracks, c, u);
      var p := PairScore(dn, rr, PairAt(tracks, c, u, v));
      if !NoneViable(ws) { PairAgainstWinner(p, ws, g, k); }
    }
  }

  /** A pair that its own group's winner beats or ties is not better than the overall winner. */
  lemma PairAgainstWinner(p: Score, ws: seq<Trial<(Pos, Pos)>>, g: nat, k: nat)
    requires IsFirstBest(ws, k) && AllComparable(ws) && g < |ws| && Comparable(p)
    requires if Viable(ws[g].score) then NotBetter(p, ws[g].score) else !Viable(p)
    ensures NotBetter(p, ws[k].score)
    ensures g < k && Viable(p) ==> Worse(p, ws[k].score)
  {
    var w, best := ws[g].score, ws[k].score;
    if Viable(w) {
      NotBetterTransitive(p, w, best);
      if g < k { WorseTransitive(p, w, best); }
    } else {
      MulMono(0, best.alp, 1);
    }
  }

  lemma TrialOfPair(dn: Corr, rr: Matrix, i0: Pos, start: nat, v: nat)
    requires start < STEP && v < 8
    ensures TrackTrial(dn, rr, One(i0), start, v).score == PairScore(dn, rr, (i0, start + STEP * v))
  {
  }
}
