/** What the scores of the three- and four-pulse searches stand for: the squared sum of the
    correlations at the pulses, and a sixteenth of the sum of the matrix over all pairs of
    pulses. */
module ChainEnergy {
  import opened FixedPoint
  import opened RatioSearch
  import opened PulseStages
  import opened GreedySearch
  import TwoPulseSearch
  import ScanClasses

  // ----- the sums -----

  /** The cross terms of a pulse at q with the pulses v. */
  function Cross(rr: Matrix, v: seq<Pos>, q: Pos): int {
    if v == [] then 0 else Cross(rr, v[..|v| - 1], q) + rr[v[|v| - 1]][q]
  }

  /** Own energies once, cross terms twice. */
  function Gram(rr: Matrix, v: seq<Pos>): int {
    if v == [] then 0
    else
      var u, q := v[..|v| - 1], v[|v| - 1];
      Gram(rr, u) + rr[q][q] + 2 * Cross(rr, u, q)
  }

  function Total(dn: Corr, v: seq<Pos>): int {
    if v == [] then 0 else Total(dn, v[..|v| - 1]) + dn[v[|v| - 1]]
  }

  /** The plain sum of row p of the matrix over the columns v. */
  function RowSum(rr: Matrix, p: Pos, v: seq<Pos>): int {
    if v == [] then 0 else RowSum(rr, p, v[..|v| - 1]) + rr[p][v[|v| - 1]]
  }

  function BlockSum(rr: Matrix, u: seq<Pos>, v: seq<Pos>): int {
    if u == [] then 0 else BlockSum(rr, u[..|u| - 1], v) + RowSum(rr, u[|u| - 1], v)
  }

  ghost predicate Symmetric(rr: Matrix) {
    forall i, j :: 0 <= i < 40 && 0 <= j < 40 ==> rr[i][j] == rr[j][i]
  }

  lemma {:induction false} BlockGrows(rr: Matrix, u: seq<Pos>, v: seq<Pos>, q: Pos)
    ensures BlockSum(rr, u, v + [q]) == BlockSum(rr, u, v) + Cross(rr, u, q)
  {
    if u != [] {
      BlockGrows(rr, u[..|u| - 1], v, q);
      assert (v + [q])[..|v|] == v;
    }
  }

  lemma {:induction false} CrossIsRow(rr: Matrix, v: seq<Pos>, q: Pos)
    requires Symmetric(rr)
    ensures Cross(rr, v, q) == RowSum(rr, q, v)
  {
    if v != [] { CrossIsRow(rr, v[..|v| - 1], q); }
  }

  /** In a symmetric matrix, as cor_h makes it, that is the sum over all pairs of pulses. */
  lemma {:induction false} GramIsBlock(rr: Matrix, v: seq<Pos>)
    requires Symmetric(rr)
    ensures Gram(rr, v) == BlockSum(rr, v, v)
  {
    if v != [] {
      var u, q := v[..|v| - 1], v[|v| - 1];
      assert v == u + [q] && (u + [q])[..|u|] == u;
      GramIsBlock(rr, u);
      BlockGrows(rr, u, u, q);
      CrossIsRow(rr, u, q);
      assert RowSum(rr, q, v) == RowSum(rr, q, u) + rr[q][q];
    }
  }

  // ----- one stage -----

  /** A stage keeps one of its eight trials, or its preset with the start value. */
  lemma {:induction false} UptoIsTried(dn: Corr, rr: Matrix, ch: Chain, start: nat, n: nat)
    requires start < STEP && n <= 8
    ensures var w := Upto(dn, rr, ch, start, n);
            w == Trial(Placed(start, 0), START) || (w.score != START && w == TrialAt(dn, rr, ch, w.tag.pos))
  {
    hide TrialAt, Replaces;
    if n > 0 { UptoIsTried(dn, rr, ch, start, n - 1); }
  }

  /** What a stage hands on, as pulses, correlation and energy: position, sum and the energy
      in units of 1 / unit of the matrix. */
  datatype Sums = Sums(corr: int, gram: int)

  /** The correlation of a kept trial and its square, for correlations without a sign. */
  predicate Correlates(w: Trial<Placed>, corr: int) {
    corr >= 0 && w.tag.ps == Sat16(corr) && (w.score == START || w.score.sq == Mult(Sat16(corr), Sat16(corr)))
  }

  lemma AddedCorrelation(a: Word16, b: Word16, c: int)
    requires c >= 0 && a == Sat16(c) && b >= 0
    ensures Add(a, b) == Sat16(c + b)
  {
  }

  // ----- the chain, stage by stage -----

  ghost predicate NonNegativeTarget(dn: Corr) { forall i :: 0 <= i < 40 ==> dn[i] >= 0 }

  /** The stages of the chain from i0. */
  function Stage1(dn: Corr, rr: Matrix, ipos: seq<Pos>, i0: Pos): Trial<Placed>
    requires InTracks(ipos)
  {
    Stage(dn, rr, One(i0), ipos[1])
  }

  function Stage2(dn: Corr, rr: Matrix, ipos: seq<Pos>, i0: Pos): Trial<Placed>
    requires InTracks(ipos)
  {
    var w := Stage1(dn, rr, ipos, i0);
    Stage(dn, rr, Two(i0, w.tag.pos, w.tag.ps, w.score.alp), ipos[2])
  }

  function Stage3(dn: Corr, rr: Matrix, ipos: seq<Pos>, i0: Pos): Trial<Placed>
    requires InTracks(ipos) && |ipos| == 4
  {
    var w1, w2 := Stage1(dn, rr, ipos, i0), Stage2(dn, rr, ipos, i0);
    Stage(dn, rr, Three(i0, w1.tag.pos, w2.tag.pos, w2.tag.ps, w2.score.alp), ipos[3])
  }

  /** The first n pulses of the chain. */
  function Pulses(dn: Corr, rr: Matrix, ipos: seq<Pos>, i0: Pos, n: nat): (v: seq<Pos>)
    requires InTracks(ipos) && 1 <= n <= |ipos|
    ensures |v| == n
  {
    if n == 1 then [i0]
    else if n == 2 then [i0, Stage1(dn, rr, ipos, i0).tag.pos]
    else if n == 3 then [i0, Stage1(dn, rr, ipos, i0).tag.pos, Stage2(dn, rr, ipos, i0).tag.pos]
    else [i0, Stage1(dn, rr, ipos, i0).tag.pos, Stage2(dn, rr, ipos, i0).tag.pos, Stage3(dn, rr, ipos, i0).tag.pos]
  }

  /** The sums behind the first n pulses. A stage that keeps nothing hands on no correlation
      and an energy of 1, and the sums start again from there. */
  function Behind(dn: Corr, rr: Matrix, ipos: seq<Pos>, i0: Pos, n: nat): Sums
    requires InTracks(ipos) && 2 <= n <= |ipos|
  {
    hide Stage1, Stage2, Stage3, Pulses, Cross, Gram;
    var v := Pulses(dn, rr, ipos, i0, n);
    if n == 2 then
      if Stage1(dn, rr, ipos, i0).score == START then Sums(0, 4)
      else Sums(dn[v[0]] as int + dn[v[1]] as int, Gram(rr, v))
    else if (if n == 3 then Stage2(dn, rr, ipos, i0) else Stage3(dn, rr, ipos, i0)).score == START then Sums(0, 16)
    else
      var b, q := Behind(dn, rr, ipos, i0, n - 1), v[n - 1];
      Sums(b.corr + dn[q], b.gram + rr[q][q] + 2 * Cross(rr, v[..n - 1], q))
  }

  lemma CrossOfOne(rr: Matrix, a: Pos, q: Pos)
    ensures Cross(rr, [a], q) == rr[a][q] as int
    ensures Gram(rr, [a, q]) == rr[a][a] as int + rr[q][q] as int + 2 * (rr[a][q] as int)
  {
    assert [a][..0] == [] && [a, q][..1] == [a];
    assert Cross(rr, [], q) == 0 && Gram(rr, []) == 0;
    assert Gram(rr, [a]) == rr[a][a] as int;
  }

  lemma CrossOfTwo(rr: Matrix, a: Pos, b: Pos, q: Pos)
    ensures Cross(rr, [a, b], q) == rr[a][q] as int + rr[b][q] as int
  {
    CrossOfOne(rr, a, q);
    assert [a, b][..1] == [a];
  }

  lemma CrossOfThree(rr: Matrix, a: Pos, b: Pos, c: Pos, q: Pos)
    ensures Cross(rr, [a, b, c], q) == rr[a][q] as int + rr[b][q] as int + rr[c][q] as int
  {
    CrossOfTwo(rr, a, b, q);
    assert [a, b, c][..2] == [a, b];
  }

  /** Two pulses: four units of energy to one of the matrix, rounded once. */
  lemma FirstStageSums(dn: Corr, rr: Matrix, ipos: seq<Pos>, i0: Pos)
    requires InTracks(ipos)
    ensures var w, b := Stage1(dn, rr, ipos, i0), Behind(dn, rr, ipos, i0, 2);
            (NonNegativeTarget(dn) ==> Correlates(w, b.corr)) && -1 <= 4 * (w.score.alp as int) - b.gram <= 2
  {
    hide Stage, PulseStages.Energy, Mult, Add;
    var w := Stage1(dn, rr, ipos, i0);
    StageIsTried(dn, rr, One(i0), ipos[1]);
    if w.score != START {
      PairEnergyIs(rr, i0, w.tag.pos);
      CrossOfOne(rr, i0, w.tag.pos);
      if NonNegativeTarget(dn) { AddedCorrelation(dn[i0], dn[w.tag.pos], dn[i0]); }
    }
  }

  lemma StageIsTried(dn: Corr, rr: Matrix, ch: Chain, start: nat)
    requires start < STEP
    ensures var w := Stage(dn, rr, ch, start);
            w == Trial(Placed(start, 0), START) || (w.score != START && w == TrialAt(dn, rr, ch, w.tag.pos))
  {
    hide TrialAt, Upto;
    UptoIsTried(dn, rr, ch, start, 8);
  }

  /** The third pulse: sixteen units to one. The energy never leaves the range the fourth
      stage can take. */
  lemma ThirdPulse(dn: Corr, rr: Matrix, i0: Pos, w1: Trial<Placed>, start: nat, b: Sums)
    requires start < STEP && -1 <= 4 * (w1.score.alp as int) - b.gram <= 2
    requires NonNegativeTarget(dn) ==> Correlates(w1, b.corr)
    ensures var w := Stage(dn, rr, Two(i0, w1.tag.pos, w1.tag.ps, w1.score.alp), start);
      var q := w.tag.pos;
      var c := if w.score == START then Sums(0, 16)
               else Sums(b.corr + dn[q], b.gram + rr[q][q] + 2 * Cross(rr, [i0, w1.tag.pos], q));
      && (NonNegativeTarget(dn) ==> Correlates(w, c.corr)) && -8 <= 16 * (w.score.alp as int) - c.gram <= 10
      && -18433 <= w.score.alp <= 18433
  {
    hide Stage, PulseStages.Energy, Mult, Add;
    var ch := Two(i0, w1.tag.pos, w1.tag.ps, w1.score.alp);
    var w := Stage(dn, rr, ch, start);
    StageIsTried(dn, rr, ch, start);
    if w.score != START {
      TripleEnergyIs(rr, i0, w1.tag.pos, w1.tag.ps, w1.score.alp, w.tag.pos);
      CrossOfTwo(rr, i0, w1.tag.pos, w.tag.pos);
      if NonNegativeTarget(dn) { AddedCorrelation(w1.tag.ps, dn[w.tag.pos], b.corr); }
    }
  }

  lemma {:induction false} CrossRange(rr: Matrix, v: seq<Pos>, q: Pos)
    ensures -32768 * |v| <= Cross(rr, v, q) <= 32767 * |v|
  {
    if v != [] { CrossRange(rr, v[..|v| - 1], q); }
  }

  /** The sums of three pulses stay where the clip of the fourth stage cannot be reached. */
  lemma SumsRange(dn: Corr, rr: Matrix, ipos: seq<Pos>, i0: Pos)
    requires InTracks(ipos)
    ensures -294_912 <= Behind(dn, rr, ipos, i0, 3).gram <= 294_903
  {
    hide Stage, Stage1, Stage2;
    var v := Pulses(dn, rr, ipos, i0, 3);
    CrossOfOne(rr, v[0], v[1]);
    CrossRange(rr, v[..2], v[2]);
    assert Pulses(dn, rr, ipos, i0, 2) == [v[0], v[1]];
  }

  /** The fourth pulse: still sixteen units to one. */
  lemma LastPulse(dn: Corr, rr: Matrix, i0: Pos, i1: Pos, w2: Trial<Placed>, start: nat, b: Sums)
    requires start < STEP && -8 <= 16 * (w2.score.alp as int) - b.gram <= 10
    requires -18433 <= w2.score.alp <= 18433 && -294_912 <= b.gram <= 294_903
    requires NonNegativeTarget(dn) ==> Correlates(w2, b.corr)
    ensures var w := Stage(dn, rr, Three(i0, i1, w2.tag.pos, w2.tag.ps, w2.score.alp), start);
      var q := w.tag.pos;
      var c := if w.score == START then Sums(0, 16)
               else Sums(b.corr + dn[q], b.gram + rr[q][q] + 2 * Cross(rr, [i0, i1, w2.tag.pos], q));
      (NonNegativeTarget(dn) ==> Correlates(w, c.corr)) && -15 <= 16 * (w.score.alp as int) - c.gram <= 18
  {
    hide Stage, PulseStages.Energy, Mult, Add;
    var ch := Three(i0, i1, w2.tag.pos, w2.tag.ps, w2.score.alp);
    var w := Stage(dn, rr, ch, start);
    StageIsTried(dn, rr, ch, start);
    if w.score != START {
      var q := w.tag.pos;
      QuadrupleEnergyIs(rr, i0, i1, w2.tag.pos, w2.tag.ps, w2.score.alp, q);
      CrossOfThree(rr, i0, i1, w2.tag.pos, q);
      if NonNegativeTarget(dn) { AddedCorrelation(w2.tag.ps, dn[q], b.corr); }
      FourthPulse(b.gram, w2.score.alp, rr[q][q], rr[i0][q], rr[i1][q], rr[w2.tag.pos][q]);
    }
  }

  lemma FourthPulse(g: int, alp: Word16, a: Word16, b: Word16, c: Word16, d: Word16)
    requires -294_912 <= g <= 294_903 && -8 <= 16 * (alp as int) - g <= 10
    ensures var s := a as int + 2 * (b as int + c as int + d as int);
            -15 <= 16 * (Sat16((16 * (alp as int) + s + 8) / 16) as int) - (g + s) <= 18
  {
  }

  // ----- whole chains -----

  /** Every stage of the chain kept one of its trials. */
  predicate EveryStageKeeps(dn: Corr, rr: Matrix, ipos: seq<Pos>, i0: Pos)
    requires InTracks(ipos)
  {
    && Stage1(dn, rr, ipos, i0).score != START && Stage2(dn, rr, ipos, i0).score != START
    && (|ipos| == 4 ==> Stage3(dn, rr, ipos, i0).score != START)
  }

  lemma KeptSums(dn: Corr, rr: Matrix, ipos: seq<Pos>, i0: Pos, n: nat)
    requires InTracks(ipos) && 2 <= n <= |ipos| && EveryStageKeeps(dn, rr, ipos, i0)
    ensures var v := Pulses(dn, rr, ipos, i0, n);
            Behind(dn, rr, ipos, i0, n) == Sums(Total(dn, v), Gram(rr, v))
  {
    hide Stage1, Stage2, Stage3;
    var v := Pulses(dn, rr, ipos, i0, n);
    if n == 2 {
      assert v[..1] == [v[0]] && v[..1][..0] == [] && Total(dn, v[..1]) == dn[v[0]] as int by {
        assert Total(dn, v[..1][..0]) == 0;
      }
    } else {
      KeptSums(dn, rr, ipos, i0, n - 1);
      assert v[..n - 1] == Pulses(dn, rr, ipos, i0, n - 1);
    }
  }

  lemma GrowIsStages(dn: Corr, rr: Matrix, ipos: seq<Pos>, i0: Pos)
    requires InTracks(ipos)
    ensures Grow(dn, rr, ipos, i0)
         == Trial(Pulses(dn, rr, ipos, i0, |ipos|),
                  if |ipos| == 3 then Stage2(dn, rr, ipos, i0).score else Stage3(dn, rr, ipos, i0).score)
  {
    hide Stage;
  }

  /** The score of a chain: sixteen times its energy is the sum behind it up to the rounding
      of the stages, and for a target without signs, as set_sign leaves it, its squared
      correlation is that of the sum of correlations. */
  ghost predicate Scores(dn: Corr, s: Score, b: Sums) {
    && -15 <= 16 * (s.alp as int) - b.gram <= 18
    && (s == START || !NonNegativeTarget(dn) || s.sq == Mult(Sat16(b.corr), Sat16(b.corr)))
  }

  lemma ChainScore(dn: Corr, rr: Matrix, ipos: seq<Pos>, i0: Pos)
    requires InTracks(ipos)
    ensures Scores(dn, Grow(dn, rr, ipos, i0).score, Behind(dn, rr, ipos, i0, |ipos|))
    ensures EveryStageKeeps(dn, rr, ipos, i0) ==>
      var t := Grow(dn, rr, ipos, i0);
      t.score != START && Scores(dn, t.score, Sums(Total(dn, t.tag), Gram(rr, t.tag)))
  {
    hide Stage, Grow, Gram, Total, Cross, NonNegativeTarget, Mult;
    GrowIsStages(dn, rr, ipos, i0);
    FirstStageSums(dn, rr, ipos, i0);
    var w1, w2 := Stage1(dn, rr, ipos, i0), Stage2(dn, rr, ipos, i0);
    ThirdPulse(dn, rr, i0, w1, ipos[2], Behind(dn, rr, ipos, i0, 2));
    BehindThree(dn, rr, ipos, i0);
    if |ipos| == 4 {
      SumsRange(dn, rr, ipos, i0);
      LastPulse(dn, rr, i0, w1.tag.pos, w2, ipos[3], Behind(dn, rr, ipos, i0, 3));
      var p4 := Stage3(dn, rr, ipos, i0).tag.pos;
      assert [i0, w1.tag.pos, w2.tag.pos, p4][..3] == [i0, w1.tag.pos, w2.tag.pos];
    }
    hide Stage1, Stage2, Stage3, Behind;
    if EveryStageKeeps(dn, rr, ipos, i0) { KeptSums(dn, rr, ipos, i0, |ipos|); }
  }

  lemma BehindThree(dn: Corr, rr: Matrix, ipos: seq<Pos>, i0: Pos)
    requires InTracks(ipos)
    ensures var w1, w, b := Stage1(dn, rr, ipos, i0), Stage2(dn, rr, ipos, i0), Behind(dn, rr, ipos, i0, 2);
      var q := w.tag.pos;
      Behind(dn, rr, ipos, i0, 3) == if w.score == START then Sums(0, 16)
        else Sums(b.corr + dn[q], b.gram + rr[q][q] + 2 * Cross(rr, [i0, w1.tag.pos], q))
  {
    hide Stage1, Stage2, Cross, Gram;
    var w1, w := Stage1(dn, rr, ipos, i0), Stage2(dn, rr, ipos, i0);
    assert [i0, w1.tag.pos, w.tag.pos][..2] == [i0, w1.tag.pos];
  }

  /** What the three- and four-pulse searches compare, for every matrix: a sixteenth of the
      sum of the matrix over the chain's pulses, and the square of the sum of their
      correlations. */
  lemma ChainScoreIs(book: Book, dn: Corr, rr: Matrix, c: nat, u: nat)
    requires c < book.Configs() && u < 8
    ensures InTracks(Starts(book, c))
    ensures var t := ChainAt(book, dn, rr, c, u);
      EveryStageKeeps(dn, rr, Starts(book, c), FirstPulse(Starts(book, c), u)) ==>
        && t.score != START
        && -15 <= 16 * (t.score.alp as int) - Gram(rr, t.tag) <= 18
        && (NonNegativeTarget(dn) ==>
              t.score.sq == Mult(Sat16(Total(dn, t.tag)), Sat16(Total(dn, t.tag))))
  {
    hide Grow, EveryStageKeeps, Starts, NonNegativeTarget;
    StartsInTracks(book, c);
    ChainScore(dn, rr, Starts(book, c), FirstPulse(Starts(book, c), u));
  }

  /** The result of a search is the preset or such a chain. */
  lemma SearchGivesChain(book: Book, dn: Corr, dn2: Corr, rr: Matrix) returns (c: nat, u: nat)
    ensures c < book.Configs() && u < 8
    ensures var t := Search(book, dn, dn2, rr);
      t != Trial(book.Preset(), START) ==> t == ChainAt(book, dn, rr, c, u) && Admitted(book, dn2, c, u)
  {
    hide AllChains, ChainAt, Choose, Admitted, Place;
    var all := AllChains(book, dn, dn2, rr, book.Configs());
    ScanClasses.KeptIsTried(all, book.Preset());
    c, u := 0, 0;
    if Search(book, dn, dn2, rr) in all {
      var j :| 0 <= j < |all| && all[j] == Search(book, dn, dn2, rr);
      c, u := AllChainsFrom(book, dn, dn2, rr, book.Configs(), j);
      AllChainsAt(book, dn, dn2, rr, c, u, book.Configs());
    }
  }

  /** The same for a pair of the two-pulse searches, at four units to one. */
  lemma PairScoreIs(dn: Corr, rr: Matrix, p: (Pos, Pos))
    ensures var s := TwoPulseSearch.PairScore(dn, rr, p);
      && -1 <= 4 * (s.alp as int) - Gram(rr, [p.0, p.1]) <= 2
      && (NonNegativeTarget(dn) ==>
            s.sq == Mult(Sat16(Total(dn, [p.0, p.1])), Sat16(Total(dn, [p.0, p.1]))))
  {
    hide PulseStages.Energy, Mult, Add;
    PairEnergyIs(rr, p.0, p.1);
    CrossOfOne(rr, p.0, p.1);
    assert [p.0, p.1][..1] == [p.0] && [p.0][..0] == [];
    assert Total(dn, [p.0]) == dn[p.0] as int by { assert Total(dn, [p.0][..0]) == 0; }
    assert Total(dn, [p.0, p.1]) == dn[p.0] as int + dn[p.1] as int;
    if NonNegativeTarget(dn) { AddedCorrelation(dn[p.0], dn[p.1], dn[p.0]); }
  }
}
