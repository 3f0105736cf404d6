/** The single-pulse stages the codebook searches are made of: given the pulses already
    placed, try the eight positions of one track for the next pulse. */
module PulseStages {
  import opened FixedPoint
  import opened RatioSearch

  const L_CODE := 40
  const STEP := 5
  const HALF: Word16 := 16384
  const QUARTER: Word16 := 8192
  const EIGHTH: Word16 := 4096
  const SIXTEENTH: Word16 := 2048

  type Pos = p: int | 0 <= p < 40

  /** The index field a position is coded in. With three pulses tracks 1 and 3 share a
      field, and tracks 2 and 4; with four pulses tracks 3 and 4 do. */
  function Slot(pulses: nat, p: Pos): nat {
    var track := p % STEP;
    if pulses == 3 then (if track == 0 then 0 else if track % 2 == 1 then 1 else 2)
    else if track == 4 then 3 else track
  }

  predicate OnePerSlot(pulses: nat, v: seq<Pos>) {
    |v| == pulses && forall a, b :: 0 <= a < b < |v| ==> Slot(pulses, v[a]) != Slot(pulses, v[b])
  }

  /** First positions of the track pairs of the 9-bit codebook, by subframe. */
  const START_POS: seq<nat> := [0, 2, 0, 3, 0, 2, 0, 3, 1, 3, 2, 4, 1, 4, 1, 4]

  /** The correlation of the target with the impulse response. */
  type Corr = s: seq<Word16> | |s| == 40 witness seq(40, _ => 0)

  function Silence(): Corr { seq(40, _ => 0) }

  /** The autocorrelation matrix of the impulse response. */
  type Matrix = m: seq<Corr> | |m| == 40 witness seq<Corr>(40, _ => Silence())

  /** A tried position together with the correlation accumulated up to it. */
  datatype Placed = Placed(pos: Pos, ps: Word16)

  /** The pulses a stage starts from, with the correlation and energy kept for them. */
  datatype Chain =
    | One(i0: Pos)
    | Two(i0: Pos, i1: Pos, ps: Word16, alp: Word16)
    | Three(i0: Pos, i1: Pos, i2: Pos, ps: Word16, alp: Word16)

  // ----- specification of a stage -----

  function Correlation(dn: Corr, ch: Chain): Word16 {
    if ch.One? then dn[ch.i0] else ch.ps
  }

  /** The energy of the chain extended with a pulse at i. */
  function Energy(rr: Matrix, ch: Chain, i: Pos): Word32 {
    match ch
    case One(i0) => CrossTerms(rr, LMac(LMult(rr[i0][i0], QUARTER), rr[i][i], QUARTER), [i0], i, HALF)
    case Two(i0, i1, _, alp) =>
      CrossTerms(rr, LMac(LMult(alp, QUARTER), rr[i][i], SIXTEENTH), [i0, i1], i, EIGHTH)
    case Three(i0, i1, i2, _, alp) =>
      CrossTerms(rr, LMac(LDepositH(alp), rr[i][i], SIXTEENTH), [i0, i1, i2], i, EIGHTH)
  }

  /** The terms of the pulse at i with the pulses before it, the latest first. */
  function CrossTerms(rr: Matrix, acc: Word32, pulses: seq<Pos>, i: Pos, weight: Word16): Word32
    decreases |pulses|
  {
    if pulses == [] then acc
    else CrossTerms(rr, LMac(acc, rr[pulses[|pulses| - 1]][i], weight), pulses[..|pulses| - 1], i, weight)
  }

  lemma CrossTermsOfOne(rr: Matrix, acc: Word32, a: Pos, i: Pos, w: Word16)
    ensures CrossTerms(rr, acc, [a], i, w) == LMac(acc, rr[a][i], w)
  {
    hide LMac;
    assert [a][..0] == [];
  }

  lemma CrossTermsOfTwo(rr: Matrix, acc: Word32, a: Pos, b: Pos, i: Pos, w: Word16)
    ensures CrossTerms(rr, acc, [a, b], i, w) == LMac(LMac(acc, rr[b][i], w), rr[a][i], w)
  {
    hide LMac;
    assert [a, b][..1] == [a];
    CrossTermsOfOne(rr, LMac(acc, rr[b][i], w), a, i, w);
  }

  lemma CrossTermsOfThree(rr: Matrix, acc: Word32, a: Pos, b: Pos, c: Pos, i: Pos, w: Word16)
    ensures CrossTerms(rr, acc, [a, b, c], i, w) == LMac(LMac(LMac(acc, rr[c][i], w), rr[b][i], w), rr[a][i], w)
  {
    hide LMac;
    assert [a, b, c][..2] == [a, b];
    CrossTermsOfTwo(rr, LMac(acc, rr[c][i], w), a, b, i, w);
  }

  /** The energy with its terms in the order the loops add them. */
  lemma EnergyIs(rr: Matrix, ch: Chain, i: Pos)
    ensures Energy(rr, ch, i) ==
      match ch
      case One(i0) => LMac(LMac(LMult(rr[i0][i0], QUARTER), rr[i][i], QUARTER), rr[i0][i], HALF)
      case Two(i0, i1, _, alp) =>
        LMac(LMac(LMac(LMult(alp, QUARTER), rr[i][i], SIXTEENTH), rr[i1][i], EIGHTH), rr[i0][i], EIGHTH)
      case Three(i0, i1, i2, _, alp) =>
        LMac(LMac(LMac(LMac(LDepositH(alp), rr[i][i], SIXTEENTH), rr[i2][i], EIGHTH), rr[i1][i], EIGHTH),
             rr[i0][i], EIGHTH)
  {
    hide LMac, LMult, LDepositH;
    match ch
    case One(i0) => CrossTermsOfOne(rr, LMac(LMult(rr[i0][i0], QUARTER), rr[i][i], QUARTER), i0, i, HALF);
    case Two(i0, i1, _, alp) =>
      CrossTermsOfTwo(rr, LMac(LMult(alp, QUARTER), rr[i][i], SIXTEENTH), i0, i1, i, EIGHTH);
    case Three(i0, i1, i2, _, alp) =>
      CrossTermsOfThree(rr, LMac(LDepositH(alp), rr[i][i], SIXTEENTH), i0, i1, i2, i, EIGHTH);
  }

  /** The energy of two pulses, as scored: nothing saturates, for any matrix. */
  lemma PairEnergyIs(rr: Matrix, i0: Pos, i: Pos)
    ensures Round(Energy(rr, One(i0), i)) == (rr[i0][i0] as int + rr[i][i] as int + 2 * (rr[i0][i] as int) + 2) / 4
  {
    hide Energy;
    EnergyIs(rr, One(i0), i);
    SumOfThree(rr[i0][i0], rr[i][i], rr[i0][i]);
  }

  lemma SumOfThree(a: Word16, b: Word16, c: Word16)
    ensures Round(LMac(LMac(LMult(a, QUARTER), b, QUARTER), c, HALF)) == (a as int + b as int + 2 * (c as int) + 2) / 4
  {
    assert LMult(a, QUARTER) == 16384 * (a as int);
    assert LMult(b, QUARTER) == 16384 * (b as int);
    assert LMult(c, HALF) == 32768 * (c as int);
    RoundedQuarter(a as int + b as int + 2 * (c as int));
  }

  lemma RoundedQuarter(s: int)
    requires -0x2_0000 <= s <= 0x1_fffc
    ensures Round(16384 * s) == (s + 2) / 4
  {
  }

  /** The energy of a third pulse on top of a kept pair, for any matrix and any kept energy:
      with alp four units to one of rr, the cross terms count twice. */
  lemma TripleEnergyIs(rr: Matrix, i0: Pos, i1: Pos, ps: Word16, alp: Word16, i: Pos)
    ensures Round(Energy(rr, Two(i0, i1, ps, alp), i))
         == (4 * (alp as int) + rr[i][i] as int + 2 * (rr[i0][i] as int + rr[i1][i] as int) + 8) / 16
  {
    hide Energy;
    EnergyIs(rr, Two(i0, i1, ps, alp), i);
    SumOfFour(alp, rr[i][i], rr[i1][i], rr[i0][i]);
  }

  lemma SumOfFour(alp: Word16, a: Word16, b: Word16, c: Word16)
    ensures Round(LMac(LMac(LMac(LMult(alp, QUARTER), a, SIXTEENTH), b, EIGHTH), c, EIGHTH))
         == (4 * (alp as int) + a as int + 2 * (c as int + b as int) + 8) / 16
  {
    assert LMult(alp, QUARTER) == 16384 * (alp as int);
    assert LMult(a, SIXTEENTH) == 4096 * (a as int);
    assert LMult(b, EIGHTH) == 8192 * (b as int);
    assert LMult(c, EIGHTH) == 8192 * (c as int);
    RoundedSixteenth(4 * (alp as int) + a as int + 2 * (c as int + b as int));
  }

  /** Rounding a sum in units of 2^12: right also where the sum just saturated. */
  lemma RoundedSixteenth(s: int)
    ensures Round(Sat32(4096 * s)) == Sat16((s + 8) / 16)
  {
  }

  /** The same for a fourth pulse: the kept energy counts sixteenfold. Every third
      stage stays in the range of kept energies required here (ChainEnergy.ThirdPulse). */
  lemma QuadrupleEnergyIs(rr: Matrix, i0: Pos, i1: Pos, i2: Pos, ps: Word16, alp: Word16, i: Pos)
    requires -22528 <= alp <= 22527
    ensures Round(Energy(rr, Three(i0, i1, i2, ps, alp), i))
         == Sat16((16 * (alp as int) + rr[i][i] as int
                   + 2 * (rr[i0][i] as int + rr[i1][i] as int + rr[i2][i] as int) + 8) / 16)
  {
    hide Energy;
    EnergyIs(rr, Three(i0, i1, i2, ps, alp), i);
    SumOfFive(alp, rr[i][i], rr[i2][i], rr[i1][i], rr[i0][i]);
  }

  lemma SumOfFive(alp: Word16, a: Word16, b: Word16, c: Word16, d: Word16)
    requires -22528 <= alp <= 22527
    ensures Round(LMac(LMac(LMac(LMac(LDepositH(alp), a, SIXTEENTH), b, EIGHTH), c, EIGHTH), d, EIGHTH))
         == Sat16((16 * (alp as int) + a as int + 2 * (d as int + c as int + b as int) + 8) / 16)
  {
    assert LMult(a, SIXTEENTH) == 4096 * (a as int);
    assert LMult(b, EIGHTH) == 8192 * (b as int);
    assert LMult(c, EIGHTH) == 8192 * (c as int);
    assert LMult(d, EIGHTH) == 8192 * (d as int);
    RoundedSixteenth(16 * (alp as int) + a as int + 2 * (d as int + c as int + b as int));
  }

  function TrialAt(dn: Corr, rr: Matrix, ch: Chain, i: Pos): (t: Trial<Placed>)
    ensures t.score.sq >= 0 && t.tag.pos == i
  {
    var ps1 := Add(Correlation(dn, ch), dn[i]);
    SquareNonNegative(ps1);
    Trial(Placed(i, ps1), Score(Mult(ps1, ps1), Round(Energy(rr, ch, i))))
  }

  /** The trial at the v-th position of a track. */
  function TrackTrial(dn: Corr, rr: Matrix, ch: Chain, start: nat, v: nat): (t: Trial<Placed>)
    requires start < STEP && v < 8
    ensures t.score.sq >= 0 && t.tag.pos == start + STEP * v
  {
    TrialAt(dn, rr, ch, start + STEP * v)
  }

  lemma SquareNonNegative(ps: Word16)
    ensures Mult(ps, ps) >= 0
  {
    var a := if ps < 0 then 0 - ps else ps;
    MulMono(0, a, a);
  }

  /** The candidate kept after n positions of the track beginning at `start`. */
  function Upto(dn: Corr, rr: Matrix, ch: Chain, start: nat, n: nat): Trial<Placed>
    requires start < STEP && n <= 8
  {
    if n == 0 then Trial(Placed(start, 0), START)
    else
      var kept := Upto(dn, rr, ch, start, n - 1);
      var t := TrackTrial(dn, rr, ch, start, n - 1);
      if Replaces(t.score, kept.score) then t else kept
  }

  /** The number of positions on a track, 8. */
  function TrackSize(dn: Corr): nat { |dn| / STEP }

  function Stage(dn: Corr, rr: Matrix, ch: Chain, start: nat): Trial<Placed>
    requires start < STEP
  {
    Upto(dn, rr, ch, start, TrackSize(dn))
  }

  /** A stage never leaves its track. */
  lemma {:induction false} UptoStaysOnTrack(dn: Corr, rr: Matrix, ch: Chain, start: nat, n: nat)
    requires start < STEP && n <= 8
    ensures Upto(dn, rr, ch, start, n).tag.pos % STEP == start
  {
    hide TrialAt, Replaces;
    if n > 0 { UptoStaysOnTrack(dn, rr, ch, start, n - 1); }
  }

  lemma StageStaysOnTrack(dn: Corr, rr: Matrix, ch: Chain, start: nat)
    requires start < STEP
    ensures Stage(dn, rr, ch, start).tag.pos % STEP == start
  {
    UptoStaysOnTrack(dn, rr, ch, start, 8);
  }

  // ----- a stage picks the first best position -----

  function Trials(dn: Corr, rr: Matrix, ch: Chain, start: nat, n: nat): (ts: seq<Trial<Placed>>)
    requires start < STEP && n <= 8
    ensures |ts| == n
  {
    if n == 0 then [] else
      Trials(dn, rr, ch, start, n - 1) + [TrackTrial(dn, rr, ch, start, n - 1)]
  }

  lemma {:induction false} TrialsAt(dn: Corr, rr: Matrix, ch: Chain, start: nat, n: nat, v: nat)
    requires start < STEP && v < n <= 8
    ensures Trials(dn, rr, ch, start, n)[v] == TrackTrial(dn, rr, ch, start, v)
  {
    hide TrialAt;
    if v < n - 1 { TrialsAt(dn, rr, ch, start, n - 1, v); }
  }

  lemma {:induction false} UptoIsChoose(dn: Corr, rr: Matrix, ch: Chain, start: nat, n: nat)
    requires start < STEP && n <= 8
    ensures Upto(dn, rr, ch, start, n) == Choose(Trials(dn, rr, ch, start, n), Placed(start, 0))
  {
    hide TrialAt, Replaces;
    if n > 0 {
      UptoIsChoose(dn, rr, ch, start, n - 1);
      ChooseStep(Trials(dn, rr, ch, start, n - 1), TrackTrial(dn, rr, ch, start, n - 1), Placed(start, 0));
    }
  }

  ghost predicate NonNegative(dn: Corr, rr: Matrix, ch: Chain, start: nat)
    requires start < STEP
  {
    forall v: nat :: v < 8 ==> TrackTrial(dn, rr, ch, start, v).score.alp >= 0
  }

  /** With non-negative energies a stage keeps the first position of its track with the
      largest ratio, or its preset when no position has a ratio. */
  lemma StageIsOptimal(dn: Corr, rr: Matrix, ch: Chain, start: nat) returns (k: nat)
    requires start < STEP && NonNegative(dn, rr, ch, start)
    ensures k < 8 && Comparable(Stage(dn, rr, ch, start).score)
    ensures var w := Stage(dn, rr, ch, start);
      if Viable(w.score) then
        && w == TrackTrial(dn, rr, ch, start, k)
        && forall v: nat :: v < 8 ==>
             var t := TrackTrial(dn, rr, ch, start, v).score;
             NotBetter(t, w.score) && (Viable(t) && v < k ==> Worse(t, w.score))
      else
        && w == Trial(Placed(start, 0), START)
        && forall v: nat :: v < 8 ==> !Viable(TrackTrial(dn, rr, ch, start, v).score)
  {
    hide TrialAt, Trials, Upto, Choose;
    var ts := Trials(dn, rr, ch, start, 8);
    forall v: nat | v < 8 ensures ts[v] == TrackTrial(dn, rr, ch, start, v) {
      TrialsAt(dn, rr, ch, start, 8, v);
    }
    UptoIsChoose(dn, rr, ch, start, 8);
    k := ChooseKeepsFirstBest(ts, Placed(start, 0));
    var w := Stage(dn, rr, ch, start);
    forall v: nat | v < 8
      ensures var t := TrackTrial(dn, rr, ch, start, v).score;
        if NoneViable(ts) then !Viable(t) else NotBetter(t, w.score) && (Viable(t) && v < k ==> Worse(t, w.score))
    {
      assert ts[v] == TrackTrial(dn, rr, ch, start, v);
    }
    if NoneViable(ts) { k := 0; }
  }

  /** A stage with negative energies among its trials keeps the first best of the proper
      ones if and only if every negative energy is harmless; otherwise it keeps one with a
      negative energy. */
  lemma StageExactly(dn: Corr, rr: Matrix, ch: Chain, start: nat, ts: seq<Trial<Placed>>) returns (k: nat)
    requires start < STEP && |ts| == 8
    requires forall v: nat :: v < 8 ==> ts[v] == TrackTrial(dn, rr, ch, start, v)
    ensures KeepsProper(ts, Placed(start, 0), Stage(dn, rr, ch, start), k)
  {
    hide TrialAt, KeepsProper, Choose, Upto, Trials;
    forall v: nat | v < 8
      ensures ts[v] == Trials(dn, rr, ch, start, 8)[v] && ts[v].score.sq >= 0
    {
      TrialsAt(dn, rr, ch, start, 8, v);
    }
    assert ts == Trials(dn, rr, ch, start, 8);
    UptoIsChoose(dn, rr, ch, start, 8);
    k := ProperExactlyWhenHarmless(ts, Placed(start, 0));
  }

  // ----- the loops -----

  /** The i1 loop. */
  method FirstStage(dn: Corr, rr: Matrix, i0: Pos, start: nat)
    returns (ix: Pos, ps: Word16, sq: Word16, alp: Word16)
    requires start < STEP
    ensures Trial(Placed(ix, ps), Score(sq, alp)) == Stage(dn, rr, One(i0), start)
  {
    hide Add, Mult, LMult, LMac, LMsu, Round, Energy;
    var ps0 := dn[i0];
    var alp0 := LMult(rr[i0][i0], QUARTER);
    sq, alp, ps, ix := -1, 1, 0, start;
    var i1 := start;
    ghost var n := 0;
    while i1 < L_CODE
      invariant n <= 8 && i1 == start + STEP * n
      invariant Trial(Placed(ix, ps), Score(sq, alp)) == Upto(dn, rr, One(i0), start, n)
    {
      EnergyIs(rr, One(i0), i1);
      var ps1 := Add(ps0, dn[i1]);
      var alp1 := LMac(alp0, rr[i1][i1], QUARTER);
      alp1 := LMac(alp1, rr[i0][i1], HALF);
      var sq1 := Mult(ps1, ps1);
      var alp16 := Round(alp1);
      var s := LMsu(LMult(alp, sq1), sq, alp16);
      if s > 0 {
        sq, ps, alp, ix := sq1, ps1, alp16, i1;
      }
      i1 := i1 + STEP;
      n := n + 1;
    }
  }

  /** The i2 loop of the three- and four-pulse searches. */
  method SecondStage(dn: Corr, rr: Matrix, i0: Pos, i1: Pos, ps0: Word16, alpIn: Word16, start: nat)
    returns (ix: Pos, ps: Word16, sq: Word16, alp: Word16)
    requires start < STEP
    ensures Trial(Placed(ix, ps), Score(sq, alp)) == Stage(dn, rr, Two(i0, i1, ps0, alpIn), start)
  {
    hide Add, Mult, LMult, LMac, LMsu, Round, Energy;
    var alp0 := LMult(alpIn, QUARTER);
    sq, alp, ps, ix := -1, 1, 0, start;
    var i2 := start;
    ghost var n := 0;
    while i2 < L_CODE
      invariant n <= 8 && i2 == start + STEP * n
      invariant Trial(Placed(ix, ps), Score(sq, alp)) == Upto(dn, rr, Two(i0, i1, ps0, alpIn), start, n)
    {
      EnergyIs(rr, Two(i0, i1, ps0, alpIn), i2);
      var ps1 := Add(ps0, dn[i2]);
      var alp1 := LMac(alp0, rr[i2][i2], SIXTEENTH);
      alp1 := LMac(alp1, rr[i1][i2], EIGHTH);
      alp1 := LMac(alp1, rr[i0][i2], EIGHTH);
      var sq1 := Mult(ps1, ps1);
      var alp16 := Round(alp1);
      var s := LMsu(LMult(alp, sq1), sq, alp16);
      if s > 0 {
        sq, ps, alp, ix := sq1, ps1, alp16, i2;
      }
      i2 := i2 + STEP;
      n := n + 1;
    }
  }

  /** The i3 loop of the four-pulse search. */
  method ThirdStage(dn: Corr, rr: Matrix, i0: Pos, i1: Pos, i2: Pos, ps0: Word16, alpIn: Word16, start: nat)
    returns (ix: Pos, ps: Word16, sq: Word16, alp: Word16)
    requires start < STEP
    ensures Trial(Placed(ix, ps), Score(sq, alp)) == Stage(dn, rr, Three(i0, i1, i2, ps0, alpIn), start)
  {
    hide Add, Mult, LMult, LMac, LMsu, Round, LDepositH, Energy;
    var alp0 := LDepositH(alpIn);
    sq, alp, ps, ix := -1, 1, 0, start;
    var i3 := start;
    ghost var n := 0;
    while i3 < L_CODE
      invariant n <= 8 && i3 == start + STEP * n
      invariant Trial(Placed(ix, ps), Score(sq, alp)) == Upto(dn, rr, Three(i0, i1, i2, ps0, alpIn), start, n)
    {
      EnergyIs(rr, Three(i0, i1, i2, ps0, alpIn), i3);
      var ps1 := Add(ps0, dn[i3]);
      var alp1 := LMac(alp0, rr[i3][i3], SIXTEENTH);
      alp1 := LMac(alp1, rr[i2][i3], EIGHTH);
      alp1 := LMac(alp1, rr[i1][i3], EIGHTH);
      alp1 := LMac(alp1, rr[i0][i3], EIGHTH);
      var sq1 := Mult(ps1, ps1);
      var alp16 := Round(alp1);
      var s := LMsu(LMult(alp, sq1), sq, alp16);
      if s > 0 {
        sq, ps, alp, ix := sq1, ps1, alp16, i3;
      }
      i3 := i3 + STEP;
      n := n + 1;
    }
  }
}
