/** The three- and four-pulse searches (search_3i40, search_4i40): for every rotation of
    the tracks and every admitted first pulse, grow a chain greedily, one stage a pulse,
    and keep the best chain. */
module GreedySearch {
  import opened FixedPoint
  import opened RatioSearch
  import opened PulseStages

  /** The codebook: three pulses (14 bits) or four (17 bits). */
  datatype Book = ThreePulses | FourPulses {
    function Pulses(): (n: nat) ensures 3 <= n <= 4 { if ThreePulses? then 3 else 4 }

    /** Track choices times rotations. */
    function Configs(): (n: nat) ensures n == 12 || n == 8 { if ThreePulses? then 12 else 8 }

    function Preset(): (v: seq<Pos>)
      ensures |v| == Pulses()
    {
      if ThreePulses? then [0, 1, 2] else [0, 1, 2, 3]
    }
  }

  // ----- specification -----

  /** The cyclic permutation applied to ipos after each pass. */
  function Rotate(ipos: seq<Pos>): (r: seq<Pos>)
    requires |ipos| > 0
    ensures |r| == |ipos|
  {
    [ipos[|ipos| - 1]] + ipos[..|ipos| - 1]
  }

  function Rotations(ipos: seq<Pos>, k: nat): (r: seq<Pos>)
    requires |ipos| > 0
    ensures |r| == |ipos|
  {
    if k == 0 then ipos else Rotate(Rotations(ipos, k - 1))
  }

  /** The starting positions before the first pass over track choice t. */
  function Tracks(book: Book, t: nat): (ipos: seq<Pos>)
    requires t < book.Configs() / book.Pulses()
    ensures |ipos| == book.Pulses()
  {
    if book.ThreePulses? then [0, 1 + 2 * (t / 2), 2 + 2 * (t % 2)] else [0, 1, 2, 3 + t]
  }

  /** The starting positions of pass c. */
  function Starts(book: Book, c: nat): (ipos: seq<Pos>)
    requires c < book.Configs()
    ensures |ipos| == book.Pulses()
  {
    Rotations(Tracks(book, c / book.Pulses()), c % book.Pulses())
  }

  predicate InTracks(ipos: seq<Pos>) {
    3 <= |ipos| <= 4 && forall j :: 0 <= j < |ipos| ==> ipos[j] < STEP
  }

  /** The chain grown from first pulse i0: each stage places one more pulse. */
  function Grow(dn: Corr, rr: Matrix, ipos: seq<Pos>, i0: Pos): (t: Trial<seq<Pos>>)
    requires InTracks(ipos)
    ensures |t.tag| == |ipos|
  {
    hide Stage;
    var s1 := Stage(dn, rr, One(i0), ipos[1]);
    var s2 := Stage(dn, rr, Two(i0, s1.tag.pos, s1.tag.ps, s1.score.alp), ipos[2]);
    if |ipos| == 3 then Trial([i0, s1.tag.pos, s2.tag.pos], s2.score)
    else
      var s3 := Stage(dn, rr, Three(i0, s1.tag.pos, s2.tag.pos, s2.tag.ps, s2.score.alp), ipos[3]);
      Trial([i0, s1.tag.pos, s2.tag.pos, s3.tag.pos], s3.score)
  }

  function FirstPulse(ipos: seq<Pos>, u: nat): Pos
    requires InTracks(ipos) && u < 8
  {
    ipos[0] + STEP * u
  }

  /** Which of the first u first pulses of one pass the preselection admits. */
  function Admissions(dn2: Corr, ipos: seq<Pos>, u: nat): seq<nat>
    requires InTracks(ipos) && u <= 8
  {
    if u == 0 then []
    else Admissions(dn2, ipos, u - 1) + (if dn2[FirstPulse(ipos, u - 1)] >= 0 then [u - 1] else [])
  }

  lemma {:induction false} AdmissionsBelow(dn2: Corr, ipos: seq<Pos>, u: nat)
    requires InTracks(ipos) && u <= 8
    ensures forall k :: 0 <= k < |Admissions(dn2, ipos, u)| ==> Admissions(dn2, ipos, u)[k] < u
  {
    if u > 0 { AdmissionsBelow(dn2, ipos, u - 1); }
  }

  /** The chains tried among the first u first pulses of one pass. */
  function Chains(dn: Corr, dn2: Corr, rr: Matrix, ipos: seq<Pos>, u: nat): seq<Trial<seq<Pos>>>
    requires InTracks(ipos) && u <= 8
  {
    AdmissionsBelow(dn2, ipos, u);
    var us := Admissions(dn2, ipos, u);
    seq(|us|, k requires 0 <= k < |us| => Grow(dn, rr, ipos, FirstPulse(ipos, us[k])))
  }

  /** One more first pulse, admitted or not. */
  lemma NextChain(dn: Corr, dn2: Corr, rr: Matrix, ipos: seq<Pos>, u: nat)
    requires InTracks(ipos) && u < 8
    ensures Chains(dn, dn2, rr, ipos, u + 1)
         == Chains(dn, dn2, rr, ipos, u)
          + (if dn2[FirstPulse(ipos, u)] >= 0 then [Grow(dn, rr, ipos, FirstPulse(ipos, u))] else [])
    ensures Chains(dn, dn2, rr, ipos, 0) == []
  {
    hide Grow;
  }

  lemma StartsInTracks(book: Book, c: nat)
    requires c < book.Configs()
    ensures InTracks(Starts(book, c))
  {
    RotationsInTracks(Tracks(book, c / book.Pulses()), c % book.Pulses());
  }

  lemma {:induction false} RotationsInTracks(ipos: seq<Pos>, k: nat)
    requires InTracks(ipos)
    ensures InTracks(Rotations(ipos, k))
  {
    if k > 0 { RotationsInTracks(ipos, k - 1); }
  }

  /** Every chain tried in the first c passes, in scan order. */
  function AllChains(book: Book, dn: Corr, dn2: Corr, rr: Matrix, c: nat): seq<Trial<seq<Pos>>>
    requires c <= book.Configs()
  {
    if c == 0 then []
    else
      StartsInTracks(book, c - 1);
      AllChains(book, dn, dn2, rr, c - 1) + Chains(dn, dn2, rr, Starts(book, c - 1), TrackSize(dn))
  }

  function Search(book: Book, dn: Corr, dn2: Corr, rr: Matrix): Trial<seq<Pos>> {
    Choose(AllChains(book, dn, dn2, rr, book.Configs()), book.Preset())
  }

  // ----- the searches -----

  /** What the next first pulse does to the kept chain. */
  lemma KeepChain(book: Book, dn: Corr, dn2: Corr, rr: Matrix, ipos: seq<Pos>, before: seq<Trial<seq<Pos>>>, u: nat)
    requires InTracks(ipos) && u < 8
    ensures var i0 := FirstPulse(ipos, u);
      var t, kept := Grow(dn, rr, ipos, i0), Choose(before + Chains(dn, dn2, rr, ipos, u), book.Preset());
      Choose(before + Chains(dn, dn2, rr, ipos, u + 1), book.Preset())
      == if dn2[i0] >= 0 && Replaces(t.score, kept.score) then t else kept
  {
    hide Grow, Choose, Chains, Replaces, Admissions;
    NextChain(dn, dn2, rr, ipos, u);
    var i0 := FirstPulse(ipos, u);
    var tried := before + Chains(dn, dn2, rr, ipos, u);
    if dn2[i0] >= 0 {
      ChooseStep(tried, Grow(dn, rr, ipos, i0), book.Preset());
      assert before + Chains(dn, dn2, rr, ipos, u + 1) == tried + [Grow(dn, rr, ipos, i0)];
    } else {
      assert before + Chains(dn, dn2, rr, ipos, u + 1) == tried;
    }
  }

  /** The i0 loop of one pass. */
  method TryPass(book: Book, dn: Corr, dn2: Corr, rr: Matrix, ipos: seq<Pos>, ghost before: seq<Trial<seq<Pos>>>,
                 psk0: Word16, alpk0: Word16, codvec: array<Pos>)
    returns (psk: Word16, alpk: Word16)
    requires InTracks(ipos) && codvec.Length == |ipos| == book.Pulses()
    requires Trial(codvec[..], Score(psk0, alpk0)) == Choose(before, book.Preset())
    modifies codvec
    ensures Trial(codvec[..], Score(psk, alpk))
         == Choose(before + Chains(dn, dn2, rr, ipos, TrackSize(dn)), book.Preset())
  {
    hide LMult, LMsu, Stage, Choose, Chains, Admissions;
    psk, alpk := psk0, alpk0;
    var i0 := ipos[0];
    ghost var u := 0;
    NextChain(dn, dn2, rr, ipos, 0);
    assert before + Chains(dn, dn2, rr, ipos, 0) == before;
    while i0 < L_CODE
      invariant u <= 8 && i0 == ipos[0] + STEP * u
      invariant Trial(codvec[..], Score(psk, alpk)) == Choose(before + Chains(dn, dn2, rr, ipos, u), book.Preset())
    {
      KeepChain(book, dn, dn2, rr, ipos, before, u);
      if dn2[i0] >= 0 {
        var i1, ps, sq, alp := FirstStage(dn, rr, i0, ipos[1]);
        var i2;
        i2, ps, sq, alp := SecondStage(dn, rr, i0, i1, ps, alp, ipos[2]);
        var i3 := 0;
        if book.FourPulses? {
          i3, ps, sq, alp := ThirdStage(dn, rr, i0, i1, i2, ps, alp, ipos[3]);
        }
        ghost var chain := Grow(dn, rr, ipos, i0);
        var s := LMsu(LMult(alpk, sq), psk, alp);
        if s > 0 {
          psk, alpk := sq, alp;
          codvec[0], codvec[1], codvec[2] := i0, i1, i2;
          if book.FourPulses? { codvec[3] := i3; }
          assert codvec[..] == chain.tag;
        }
      }
      i0 := i0 + STEP;
      u := u + 1;
    }
  }

  /** The rotation loop over one choice of tracks. */
  method TryRotations(book: Book, dn: Corr, dn2: Corr, rr: Matrix, tracks: seq<Pos>, ghost t: nat,
                      psk0: Word16, alpk0: Word16, codvec: array<Pos>)
    returns (psk: Word16, alpk: Word16)
    requires t < book.Configs() / book.Pulses() && tracks == Tracks(book, t)
    requires codvec.Length == book.Pulses()
    requires Trial(codvec[..], Score(psk0, alpk0)) == Kept(book, dn, dn2, rr, book.Pulses() * t)
    modifies codvec
    ensures Trial(codvec[..], Score(psk, alpk)) == Kept(book, dn, dn2, rr, book.Pulses() * (t + 1))
  {
    hide Choose, Chains, Tracks, InTracks, AllChains, Starts;
    psk, alpk := psk0, alpk0;
    var ipos := tracks;
    for i := 0 to book.Pulses()
      invariant ipos == Rotations(tracks, i)
      invariant Trial(codvec[..], Score(psk, alpk)) == Kept(book, dn, dn2, rr, book.Pulses() * t + i)
    {
      ghost var c := book.Pulses() * t + i;
      PassIndex(book, t, i);
      NextPass(book, dn, dn2, rr, c);
      psk, alpk := TryPass(book, dn, dn2, rr, ipos, AllChains(book, dn, dn2, rr, c), psk, alpk, codvec);
      var pos := ipos[|ipos| - 1];
      ipos := [pos] + ipos[..|ipos| - 1];
    }
  }

  /** The candidate kept after c passes. */
  function Kept(book: Book, dn: Corr, dn2: Corr, rr: Matrix, c: nat): Trial<seq<Pos>>
    requires c <= book.Configs()
  {
    Choose(AllChains(book, dn, dn2, rr, c), book.Preset())
  }

  lemma NextPass(book: Book, dn: Corr, dn2: Corr, rr: Matrix, c: nat)
    requires c < book.Configs()
    ensures InTracks(Starts(book, c))
    ensures AllChains(book, dn, dn2, rr, c + 1)
         == AllChains(book, dn, dn2, rr, c) + Chains(dn, dn2, rr, Starts(book, c), TrackSize(dn))
  {
    StartsInTracks(book, c);
    hide Chains, Starts;
  }

  lemma PassIndex(book: Book, t: nat, i: nat)
    requires t < book.Configs() / book.Pulses() && i < book.Pulses()
    ensures book.Pulses() * t + i < book.Configs()
    ensures Starts(book, book.Pulses() * t + i) == Rotations(Tracks(book, t), i)
  {
    if book.ThreePulses? { assert (3 * t + i) / 3 == t && (3 * t + i) % 3 == i; }
    else { assert (4 * t + i) / 4 == t && (4 * t + i) % 4 == i; }
  }

  method Search3i40(dn: Corr, dn2: Corr, rr: Matrix, codvec: array<Pos>)
    requires codvec.Length == 3
    modifies codvec
    ensures codvec[..] == Search(ThreePulses, dn, dn2, rr).tag
  {
    hide AllChains, Tracks;
    var psk: Word16, alpk: Word16 := -1, 1;
    codvec[0], codvec[1], codvec[2] := 0, 1, 2;
    NothingTried(ThreePulses, dn, dn2, rr);
    assert codvec[..] == ThreePulses.Preset();
    for t1 := 0 to 2
      invariant Trial(codvec[..], Score(psk, alpk)) == Kept(ThreePulses, dn, dn2, rr, 6 * t1)
    {
      for t2 := 0 to 2
        invariant Trial(codvec[..], Score(psk, alpk)) == Kept(ThreePulses, dn, dn2, rr, 3 * (2 * t1 + t2))
      {
        var track1, track2 := 1 + 2 * t1, 2 + 2 * t2;
        Tracks3At(t1, t2);
        psk, alpk := TryRotations(ThreePulses, dn, dn2, rr, [0, track1, track2], 2 * t1 + t2, psk, alpk, codvec);
      }
    }
  }

  method Search4i40(dn: Corr, dn2: Corr, rr: Matrix, codvec: array<Pos>)
    requires codvec.Length == 4
    modifies codvec
    ensures codvec[..] == Search(FourPulses, dn, dn2, rr).tag
  {
    hide AllChains;
    var psk: Word16, alpk: Word16 := -1, 1;
    codvec[0], codvec[1], codvec[2], codvec[3] := 0, 1, 2, 3;
    NothingTried(FourPulses, dn, dn2, rr);
    assert codvec[..] == FourPulses.Preset();
    for track := 3 to 5
      invariant Trial(codvec[..], Score(psk, alpk)) == Kept(FourPulses, dn, dn2, rr, 4 * (track - 3))
    {
      psk, alpk := TryRotations(FourPulses, dn, dn2, rr, [0, 1, 2, track], track - 3, psk, alpk, codvec);
    }
  }

  lemma NothingTried(book: Book, dn: Corr, dn2: Corr, rr: Matrix)
    ensures Kept(book, dn, dn2, rr, 0) == Trial(book.Preset(), START)
  {
  }

  lemma Tracks3At(t1: nat, t2: nat)
    requires t1 < 2 && t2 < 2
    ensures Tracks(ThreePulses, 2 * t1 + t2) == [0, 1 + 2 * t1, 2 + 2 * t2]
  {
    assert (2 * t1 + t2) / 2 == t1 && (2 * t1 + t2) % 2 == t2;
  }

  // ----- the result always has one pulse in each slot -----

  lemma {:induction false} RotationsKeepSlots(book: Book, ipos: seq<Pos>, k: nat)
    requires OnePerSlot(book.Pulses(), ipos)
    ensures OnePerSlot(book.Pulses(), Rotations(ipos, k))
  {
    if k > 0 { RotationsKeepSlots(book, ipos, k - 1); }
  }

  lemma TracksOnePerSlot(book: Book, t: nat)
    requires t < book.Configs() / book.Pulses()
    ensures OnePerSlot(book.Pulses(), Tracks(book, t))
  {
    if book.ThreePulses? { ThreeTracks(t); } else { FourTracks(t); }
  }

  lemma ThreeTracks(t: nat)
    requires t < 4
    ensures OnePerSlot(3, Tracks(ThreePulses, t))
  {
    hide Slot;
    assert Slot(3, 0) == 0 && Slot(3, 1 + 2 * (t / 2)) == 1 && Slot(3, 2 + 2 * (t % 2)) == 2 by { SlotOf(3, t); }
  }

  lemma FourTracks(t: nat)
    requires t < 2
    ensures OnePerSlot(4, Tracks(FourPulses, t))
  {
    hide Slot;
    assert Slot(4, 0) == 0 && Slot(4, 1) == 1 && Slot(4, 2) == 2 && Slot(4, 3 + t) == 3 by { SlotOf(4, t); }
  }

  lemma SlotOf(n: nat, t: nat)
    requires (n == 3 && t < 4) || (n == 4 && t < 2)
    ensures n == 3 ==> Slot(3, 0) == 0 && Slot(3, 1 + 2 * (t / 2)) == 1 && Slot(3, 2 + 2 * (t % 2)) == 2
    ensures n == 4 ==> Slot(4, 0) == 0 && Slot(4, 1) == 1 && Slot(4, 2) == 2 && Slot(4, 3 + t) == 3
  {
  }

  lemma StartsOnePerSlot(book: Book, c: nat)
    requires c < book.Configs()
    ensures OnePerSlot(book.Pulses(), Starts(book, c))
  {
    hide OnePerSlot, Rotations, Tracks;
    TracksOnePerSlot(book, c / book.Pulses());
    RotationsKeepSlots(book, Tracks(book, c / book.Pulses()), c % book.Pulses());
  }

  lemma GrowKeepsSlots(book: Book, dn: Corr, rr: Matrix, ipos: seq<Pos>, u: nat)
    requires InTracks(ipos) && OnePerSlot(book.Pulses(), ipos) && u < 8
    ensures OnePerSlot(book.Pulses(), Grow(dn, rr, ipos, FirstPulse(ipos, u)).tag)
  {
    hide Stage;
    var i0 := FirstPulse(ipos, u);
    var v := Grow(dn, rr, ipos, i0).tag;
    var s1 := Stage(dn, rr, One(i0), ipos[1]);
    StageStaysOnTrack(dn, rr, One(i0), ipos[1]);
    var two := Two(i0, s1.tag.pos, s1.tag.ps, s1.score.alp);
    var s2 := Stage(dn, rr, two, ipos[2]);
    StageStaysOnTrack(dn, rr, two, ipos[2]);
    if |ipos| == 4 {
      StageStaysOnTrack(dn, rr, Three(i0, s1.tag.pos, s2.tag.pos, s2.tag.ps, s2.score.alp), ipos[3]);
    }
    SameTracksSameSlots(book, ipos, v);
  }

  lemma SameTracksSameSlots(book: Book, ipos: seq<Pos>, v: seq<Pos>)
    requires OnePerSlot(book.Pulses(), ipos) && |v| == |ipos|
    requires forall j :: 0 <= j < |v| ==> ipos[j] < STEP && v[j] % STEP == ipos[j]
    ensures OnePerSlot(book.Pulses(), v)
  {
    assert forall j :: 0 <= j < |v| ==> Slot(book.Pulses(), v[j]) == Slot(book.Pulses(), ipos[j]);
  }

  lemma ChainsKeepSlots(book: Book, dn: Corr, dn2: Corr, rr: Matrix, ipos: seq<Pos>, u: nat)
    requires InTracks(ipos) && OnePerSlot(book.Pulses(), ipos) && u <= 8
    ensures forall t :: t in Chains(dn, dn2, rr, ipos, u) ==> OnePerSlot(book.Pulses(), t.tag)
  {
    hide Grow, OnePerSlot;
    forall t | t in Chains(dn, dn2, rr, ipos, u) ensures OnePerSlot(book.Pulses(), t.tag) {
      var k :| 0 <= k < |Chains(dn, dn2, rr, ipos, u)| && Chains(dn, dn2, rr, ipos, u)[k] == t;
      GrowKeepsSlots(book, dn, rr, ipos, Admissions(dn2, ipos, u)[k]);
    }
  }

  lemma AllChainsKeepSlots(book: Book, dn: Corr, dn2: Corr, rr: Matrix, c: nat)
    requires c <= book.Configs()
    ensures forall t :: t in AllChains(book, dn, dn2, rr, c) ==> OnePerSlot(book.Pulses(), t.tag)
  {
    hide Chains, OnePerSlot, Starts;
    if c > 0 {
      AllChainsKeepSlots(book, dn, dn2, rr, c - 1);
      StartsInTracks(book, c - 1);
      StartsOnePerSlot(book, c - 1);
      ChainsKeepSlots(book, dn, dn2, rr, Starts(book, c - 1), 8);
    }
  }

  lemma {:induction false} ChosenFrom<P>(trials: seq<Trial<P>>, default: P)
    ensures Choose(trials, default) == Trial(default, START) || Choose(trials, default) in trials
  {
    hide Replaces;
    if trials != [] { ChosenFrom(trials[..|trials| - 1], default); }
  }

  /** Whatever the correlations, the searches return one pulse for each index field. */
  lemma SearchFillsEverySlot(book: Book, dn: Corr, dn2: Corr, rr: Matrix)
    ensures OnePerSlot(book.Pulses(), Search(book, dn, dn2, rr).tag)
  {
    hide Choose, AllChains;
    AllChainsKeepSlots(book, dn, dn2, rr, book.Configs());
    ChosenFrom(AllChains(book, dn, dn2, rr, book.Configs()), book.Preset());
    assert OnePerSlot(book.Pulses(), book.Preset());
  }

  // ----- optimality -----

  /** First pulse u of pass c is admitted by the preselection in dn2. */
  predicate Admitted(book: Book, dn2: Corr, c: nat, u: nat)
    requires c < book.Configs() && u < 8
  {
    StartsInTracks(book, c);
    dn2[FirstPulse(Starts(book, c), u)] >= 0
  }

  function ChainAt(book: Book, dn: Corr, rr: Matrix, c: nat, u: nat): Trial<seq<Pos>>
    requires c < book.Configs() && u < 8
  {
    StartsInTracks(book, c);
    Grow(dn, rr, Starts(book, c), FirstPulse(Starts(book, c), u))
  }

  /** No position tried in any stage of the chain has negative energy. */
  ghost predicate ChainNonNegative(book: Book, dn: Corr, rr: Matrix, c: nat, u: nat)
    requires c < book.Configs() && u < 8
  {
    hide Stage, NonNegative;
    StartsInTracks(book, c);
    var ipos := Starts(book, c);
    var i0 := FirstPulse(ipos, u);
    var s1 := Stage(dn, rr, One(i0), ipos[1]);
    var two := Two(i0, s1.tag.pos, s1.tag.ps, s1.score.alp);
    var s2 := Stage(dn, rr, two, ipos[2]);
    && NonNegative(dn, rr, One(i0), ipos[1])
    && NonNegative(dn, rr, two, ipos[2])
    && (book.FourPulses? ==>
          NonNegative(dn, rr, Three(i0, s1.tag.pos, s2.tag.pos, s2.tag.ps, s2.score.alp), ipos[3]))
  }

  // Where an admitted chain stands in the list of all tried chains, and back.

  lemma {:induction false} AdmissionAt(dn2: Corr, ipos: seq<Pos>, u: nat, n: nat)
    requires InTracks(ipos) && u < n <= 8 && dn2[FirstPulse(ipos, u)] >= 0
    ensures |Admissions(dn2, ipos, u)| < |Admissions(dn2, ipos, n)|
    ensures Admissions(dn2, ipos, n)[|Admissions(dn2, ipos, u)|] == u
  {
    if u < n - 1 { AdmissionAt(dn2, ipos, u, n - 1); }
  }

  lemma ChainsAt(dn: Corr, dn2: Corr, rr: Matrix, ipos: seq<Pos>, u: nat, n: nat)
    requires InTracks(ipos) && u < n <= 8 && dn2[FirstPulse(ipos, u)] >= 0
    ensures |Chains(dn, dn2, rr, ipos, u)| < |Chains(dn, dn2, rr, ipos, n)|
    ensures Chains(dn, dn2, rr, ipos, n)[|Chains(dn, dn2, rr, ipos, u)|] == Grow(dn, rr, ipos, FirstPulse(ipos, u))
  {
    hide Grow;
    AdmissionAt(dn2, ipos, u, n);
  }

  lemma {:induction false} AdmissionFrom(dn2: Corr, ipos: seq<Pos>, n: nat, j: nat) returns (u: nat)
    requires InTracks(ipos) && n <= 8 && j < |Admissions(dn2, ipos, n)|
    ensures u < n && dn2[FirstPulse(ipos, u)] >= 0 && j == |Admissions(dn2, ipos, u)|
  {
    if j < |Admissions(dn2, ipos, n - 1)| { u := AdmissionFrom(dn2, ipos, n - 1, j); } else { u := n - 1; }
  }

  function Place(book: Book, dn: Corr, dn2: Corr, rr: Matrix, c: nat, u: nat): nat
    requires c < book.Configs() && u < 8
  {
    StartsInTracks(book, c);
    |AllChains(book, dn, dn2, rr, c)| + |Chains(dn, dn2, rr, Starts(book, c), u)|
  }

  /** Where the chain stands in its own pass. */
  lemma ThisPassAt(book: Book, dn: Corr, dn2: Corr, rr: Matrix, c: nat, u: nat)
    requires c < book.Configs() && u < 8 && Admitted(book, dn2, c, u)
    ensures InTracks(Starts(book, c))
    ensures var k := Place(book, dn, dn2, rr, c, u) - |AllChains(book, dn, dn2, rr, c)|;
      && 0 <= k < |Chains(dn, dn2, rr, Starts(book, c), TrackSize(dn))|
      && Chains(dn, dn2, rr, Starts(book, c), TrackSize(dn))[k] == ChainAt(book, dn, rr, c, u)
  {
    hide Grow, Starts, Chains, Admissions, AllChains;
    StartsInTracks(book, c);
    ChainsAt(dn, dn2, rr, Starts(book, c), u, TrackSize(dn));
  }

  lemma {:induction false} AllChainsAt(book: Book, dn: Corr, dn2: Corr, rr: Matrix, c: nat, u: nat, n: nat)
    requires c < n <= book.Configs() && u < 8 && Admitted(book, dn2, c, u)
    ensures Place(book, dn, dn2, rr, c, u) < |AllChains(book, dn, dn2, rr, n)|
    ensures AllChains(book, dn, dn2, rr, n)[Place(book, dn, dn2, rr, c, u)] == ChainAt(book, dn, rr, c, u)
  {
    hide Starts, Chains, Admissions, AllChains, Place, ChainAt, Admitted, InTracks;
    var k := Place(book, dn, dn2, rr, c, u);
    OnePassMore(book, dn, dn2, rr, n - 1, k);
    if c < n - 1 {
      AllChainsAt(book, dn, dn2, rr, c, u, n - 1);
    } else {
      ThisPassAt(book, dn, dn2, rr, c, u);
    }
  }

  /** Element k of the chains of n + 1 passes. */
  lemma OnePassMore(book: Book, dn: Corr, dn2: Corr, rr: Matrix, n: nat, k: nat)
    requires n < book.Configs()
    ensures InTracks(Starts(book, n))
    ensures var front, last, all :=
        AllChains(book, dn, dn2, rr, n), Chains(dn, dn2, rr, Starts(book, n), TrackSize(dn)),
        AllChains(book, dn, dn2, rr, n + 1);
      && |all| == |front| + |last|
      && (k < |front| ==> all[k] == front[k]) && (|front| <= k < |all| ==> all[k] == last[k - |front|])
  {
    NextPass(book, dn, dn2, rr, n);
    hide Starts, Chains, Admissions, AllChains, InTracks;
  }

  lemma NoPass(book: Book, dn: Corr, dn2: Corr, rr: Matrix)
    ensures AllChains(book, dn, dn2, rr, 0) == []
  {
  }

  lemma InThisPass(book: Book, dn: Corr, dn2: Corr, rr: Matrix, c: nat, k: nat) returns (u: nat)
    requires c < book.Configs() && InTracks(Starts(book, c))
    requires k < |Chains(dn, dn2, rr, Starts(book, c), TrackSize(dn))|
    ensures u < 8 && Admitted(book, dn2, c, u)
    ensures Place(book, dn, dn2, rr, c, u) == |AllChains(book, dn, dn2, rr, c)| + k
  {
    hide Grow, Starts, Admissions, AllChains;
    u := AdmissionFrom(dn2, Starts(book, c), TrackSize(dn), k);
  }

  lemma {:induction false} AllChainsFrom(book: Book, dn: Corr, dn2: Corr, rr: Matrix, n: nat, j: nat)
    returns (c: nat, u: nat)
    requires n <= book.Configs() && j < |AllChains(book, dn, dn2, rr, n)|
    ensures c < n && u < 8 && Admitted(book, dn2, c, u) && j == Place(book, dn, dn2, rr, c, u)
  {
    hide Starts, Chains, Admissions, AllChains, Place, Admitted, InTracks;
    if n > 0 { OnePassMore(book, dn, dn2, rr, n - 1, j); } else { NoPass(book, dn, dn2, rr); }
    var before := |AllChains(book, dn, dn2, rr, n - 1)|;
    if j < before {
      c, u := AllChainsFrom(book, dn, dn2, rr, n - 1, j);
    } else {
      c := n - 1;
      u := InThisPass(book, dn, dn2, rr, c, j - before);
    }
  }

  lemma {:induction false} AllChainsGrow(book: Book, dn: Corr, dn2: Corr, rr: Matrix, c: nat, n: nat)
    requires c <= n <= book.Configs()
    ensures |AllChains(book, dn, dn2, rr, c)| <= |AllChains(book, dn, dn2, rr, n)|
  {
    hide Chains, Starts, Admissions, Rotations;
    if c < n {
      AllChainsGrow(book, dn, dn2, rr, c, n - 1);
      NextPass(book, dn, dn2, rr, n - 1);
      hide AllChains;
    }
  }

  lemma PlaceFollowsScan(book: Book, dn: Corr, dn2: Corr, rr: Matrix, c: nat, u: nat, d: nat, x: nat)
    requires c < book.Configs() && u < 8 && d < book.Configs() && x < 8
    requires Admitted(book, dn2, c, u)
    requires c < d || (c == d && u < x)
    ensures Place(book, dn, dn2, rr, c, u) < Place(book, dn, dn2, rr, d, x)
  {
    hide Grow, Starts, Chains, AllChains;
    StartsInTracks(book, c);
    if c < d {
      AllChainsAt(book, dn, dn2, rr, c, u, c + 1);
      AllChainsGrow(book, dn, dn2, rr, c + 1, d);
    } else {
      ChainsAt(dn, dn2, rr, Starts(book, c), u, x);
    }
  }

  ghost predicate EnergiesNonNegative(book: Book, dn: Corr, dn2: Corr, rr: Matrix) {
    forall c: nat, u: nat :: c < book.Configs() && u < 8 && Admitted(book, dn2, c, u)
      ==> ChainNonNegative(book, dn, rr, c, u)
  }

  lemma ChainComparable(book: Book, dn: Corr, rr: Matrix, c: nat, u: nat)
    requires c < book.Configs() && u < 8 && ChainNonNegative(book, dn, rr, c, u)
    ensures Comparable(ChainAt(book, dn, rr, c, u).score)
  {
    hide Stage, Starts, NonNegative, Comparable;
    StartsInTracks(book, c);
    var ipos := Starts(book, c);
    var i0 := FirstPulse(ipos, u);
    var s1 := Stage(dn, rr, One(i0), ipos[1]);
    var two := Two(i0, s1.tag.pos, s1.tag.ps, s1.score.alp);
    var s2 := Stage(dn, rr, two, ipos[2]);
    if book.ThreePulses? {
      var _ := StageIsOptimal(dn, rr, two, ipos[2]);
    } else {
      var _ := StageIsOptimal(dn, rr, Three(i0, s1.tag.pos, s2.tag.pos, s2.tag.ps, s2.score.alp), ipos[3]);
    }
  }

  /** With non-negative energies the searches return the first chain, in scan order,
      whose ratio no tried chain exceeds; the preset survives only when none has a ratio. */
  lemma SearchKeepsBestChain(book: Book, dn: Corr, dn2: Corr, rr: Matrix) returns (d: nat, x: nat)
    requires EnergiesNonNegative(book, dn, dn2, rr)
    ensures var w := Search(book, dn, dn2, rr);
      if Viable(w.score) then
        && d < book.Configs() && x < 8 && Admitted(book, dn2, d, x)
        && w == ChainAt(book, dn, rr, d, x)
        && forall c: nat, u: nat :: c < book.Configs() && u < 8 && Admitted(book, dn2, c, u) ==>
             var t := ChainAt(book, dn, rr, c, u).score;
             NotBetter(t, w.score) && (Viable(t) && (c < d || (c == d && u < x)) ==> Worse(t, w.score))
      else
        && w == Trial(book.Preset(), START)
        && forall c: nat, u: nat :: c < book.Configs() && u < 8 && Admitted(book, dn2, c, u) ==>
             !Viable(ChainAt(book, dn, rr, c, u).score)
  {
    hide Choose, AllChains, Place, Admitted, ChainAt, ChainNonNegative;
    var all := AllChains(book, dn, dn2, rr, book.Configs());
    forall j | 0 <= j < |all| ensures Comparable(all[j].score) {
      var c, u := AllChainsFrom(book, dn, dn2, rr, book.Configs(), j);
      AllChainsAt(book, dn, dn2, rr, c, u, book.Configs());
      ChainComparable(book, dn, rr, c, u);
    }
    var k := ChooseKeepsFirstBest(all, book.Preset());
    d, x := 0, 0;
    var w := Search(book, dn, dn2, rr);
    if !NoneViable(all) {
      d, x := AllChainsFrom(book, dn, dn2, rr, book.Configs(), k);
      AllChainsAt(book, dn, dn2, rr, d, x, book.Configs());
    }
    forall c: nat, u: nat | c < book.Configs() && u < 8 && Admitted(book, dn2, c, u)
      ensures var t := ChainAt(book, dn, rr, c, u).score;
        if NoneViable(all) then !Viable(t)
        else NotBetter(t, w.score) && (Viable(t) && (c < d || (c == d && u < x)) ==> Worse(t, w.score))
    {
      AllChainsAt(book, dn, dn2, rr, c, u, book.Configs());
      if c < d || (c == d && u < x) { PlaceFollowsScan(book, dn, dn2, rr, c, u, d, x); }
    }
  }
}
