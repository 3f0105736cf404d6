/** The selection rule shared by every algebraic codebook search: keep the first
    candidate whose squared correlation over energy is largest, comparing ratios by
    cross-multiplication in fixed point instead of dividing. */
module RatioSearch {
  import opened FixedPoint

  /** Squared correlation and energy of a candidate, as numerator and denominator. */
  datatype Score = Score(sq: Word16, alp: Word16)

  /** A tried candidate: what it stands for and how it scored. */
  datatype Trial<P> = Trial(tag: P, score: Score)

  /** What every scan starts from. */
  const START := Score(-1, 1)

  /** The test `L_msu(L_mult(alp, sq1), sq, alp_16) > 0` of every search loop. */
  predicate Replaces(t: Score, best: Score) {
    LMsu(LMult(best.alp, t.sq), best.sq, t.alp) > 0
  }

  /** A scan: begin with START and replace the kept candidate whenever the test says so. */
  function Choose<P>(trials: seq<Trial<P>>, default: P): Trial<P> {
    if trials == [] then Trial(default, START)
    else
      var best := Choose(trials[..|trials| - 1], default);
      var t := trials[|trials| - 1];
      if Replaces(t.score, best.score) then t else best
  }

  lemma ChooseStep<P>(trials: seq<Trial<P>>, t: Trial<P>, default: P)
    ensures Choose(trials + [t], default)
         == if Replaces(t.score, Choose(trials, default).score) then t else Choose(trials, default)
  {
    assert (trials + [t])[..|trials|] == trials;
  }

  /** A real candidate with non-negative energy, or the score of a scan that kept none. */
  predicate Comparable(t: Score) { (t.sq >= 0 && t.alp >= 0) || t == START }

  /** The candidate has a ratio at all: it is not 0/0. */
  predicate Viable(t: Score) { t.sq + t.alp > 0 }

  predicate NotBetter(t: Score, u: Score) { t.sq * u.alp <= u.sq * t.alp }

  predicate Worse(t: Score, u: Score) { t.sq * u.alp < u.sq * t.alp }

  /** Candidate k is viable, none is better, and every viable earlier one is worse. */
  ghost predicate IsFirstBest<P>(trials: seq<Trial<P>>, k: nat) {
    && k < |trials|
    && Viable(trials[k].score)
    && (forall j :: 0 <= j < |trials| ==> NotBetter(trials[j].score, trials[k].score))
    && (forall j :: 0 <= j < k && Viable(trials[j].score) ==> Worse(trials[j].score, trials[k].score))
  }

  ghost predicate AllComparable<P>(trials: seq<Trial<P>>) {
    forall j :: 0 <= j < |trials| ==> Comparable(trials[j].score)
  }

  ghost predicate NoneViable<P>(trials: seq<Trial<P>>) {
    forall j :: 0 <= j < |trials| ==> !Viable(trials[j].score)
  }

  /** The fixed-point test is the exact comparison of cross products: neither product
      saturates, and saturating their difference keeps its sign. */
  lemma TestIsExact(t: Score, best: Score)
    requires t.sq >= -1 && best.sq >= -1
    ensures Replaces(t, best) <==> Worse(best, t)
  {
    LMultExact(best.alp, t.sq);
    LMultExact(best.sq, t.alp);
  }

  lemma LMultExact(a: Word16, b: Word16)
    requires a != MIN_16 || b != MIN_16
    ensures LMult(a, b) == 2 * (a * b)
  {
    if a != MIN_16 { MulBounds(a, b, 32767, 32768); } else { MulBounds(a, b, 32768, 32767); }
  }

  /** A scan over comparable candidates keeps the first best one, and keeps its
      starting value exactly when no candidate has a ratio. */
  lemma {:induction false} ChooseKeepsFirstBest<P>(trials: seq<Trial<P>>, default: P) returns (k: nat)
    requires AllComparable(trials)
    ensures NoneViable(trials) ==> Choose(trials, default) == Trial(default, START)
    ensures !NoneViable(trials) ==> IsFirstBest(trials, k) && Choose(trials, default) == trials[k]
  {
    k := 0;
    if trials != [] {
      var n := |trials| - 1;
      var prefix, t := trials[..n], trials[n];
      var best := Choose(prefix, default);
      k := ChooseKeepsFirstBest(prefix, default);
      TestIsExact(t.score, best.score);
      if NoneViable(prefix) {
        assert forall j :: 0 <= j < n ==> prefix[j] == trials[j];
        if Viable(t.score) { FirstViableIsBest(trials); k := n; }
      } else if Worse(best.score, t.score) {
        LaterWins(trials, k);
        k := n;
      } else {
        EarlierStays(trials, k);
      }
    }
  }

  lemma EarlierStays<P>(trials: seq<Trial<P>>, k: nat)
    requires |trials| > 0
    requires IsFirstBest(trials[..|trials| - 1], k)
    requires !Worse(trials[k].score, trials[|trials| - 1].score)
    ensures IsFirstBest(trials, k)
  {
    assert forall j :: 0 <= j < |trials| - 1 ==> trials[..|trials| - 1][j] == trials[j];
  }

  lemma FirstViableIsBest<P>(trials: seq<Trial<P>>)
    requires |trials| > 0 && AllComparable(trials)
    requires NoneViable(trials[..|trials| - 1]) && Viable(trials[|trials| - 1].score)
    ensures IsFirstBest(trials, |trials| - 1)
  {
    var n := |trials| - 1;
    forall j | 0 <= j < n ensures !Viable(trials[j].score) && NotBetter(trials[j].score, trials[n].score) {
      assert trials[..n][j] == trials[j];
    }
  }

  lemma LaterWins<P>(trials: seq<Trial<P>>, k: nat)
    requires |trials| > 0 && AllComparable(trials)
    requires IsFirstBest(trials[..|trials| - 1], k)
    requires Worse(trials[k].score, trials[|trials| - 1].score)
    ensures IsFirstBest(trials, |trials| - 1)
  {
    var n := |trials| - 1;
    var t := trials[n].score;
    forall j | 0 <= j < n
      ensures NotBetter(trials[j].score, t) && (Viable(trials[j].score) ==> Worse(trials[j].score, t))
    {
      assert trials[..n][j] == trials[j] && trials[..n][k] == trials[k];
      WorseTransitive(trials[j].score, trials[k].score, t);
    }
    BeatenHasEnergy(trials[k].score, t);
  }

  /** Whatever strictly beats a viable candidate is viable and beats a positive energy. */
  lemma BeatenHasEnergy(b: Score, t: Score)
    requires Comparable(b) && Comparable(t) && Viable(b) && Worse(b, t)
    ensures b.alp > 0 && b.sq >= 0 && t.sq > 0 && t.alp >= 0
  {
    if b.alp == 0 { MulMono(0, b.sq, t.alp); }
    if t.sq <= 0 { MulMono(t.sq, 0, b.alp); MulMono(0, t.alp, b.sq); }
  }

  lemma WorseTransitive(a: Score, b: Score, t: Score)
    requires Comparable(a) && Comparable(b) && Comparable(t) && Viable(b)
    requires NotBetter(a, b) && Worse(b, t)
    ensures NotBetter(a, t)
    ensures Viable(a) ==> Worse(a, t)
  {
    BeatenHasEnergy(b, t);
    if Viable(a) {
      if a.alp == 0 { MulMono(1, a.sq, b.alp); }
      CrossMultiply(a.sq, a.alp, b.sq, b.alp, t.sq, t.alp);
    } else if a.sq == -1 {
      MulMono(0, t.alp, 1);
    }
  }

  lemma CrossMultiply(p: int, q: int, r: int, s: int, u: int, v: int)
    requires q > 0 && s > 0 && v >= 0
    requires p * s <= r * q && r * v < u * s
    ensures p * v < u * q
  {
    MulMono(p * s, r * q, v);
    MulMono(r * v + 1, u * s, q);
    assert (p * s) * v == (p * v) * s;
    assert (r * q) * v == (r * v) * q;
    assert (u * s) * q == (u * q) * s;
    if p * v >= u * q { MulMono(u * q, p * v, s); }
  }

  lemma NotBetterTransitive(a: Score, b: Score, t: Score)
    requires Comparable(a) && Comparable(b) && Comparable(t) && Viable(b) && Viable(t)
    requires NotBetter(a, b) && NotBetter(b, t)
    ensures NotBetter(a, t)
  {
    MulMono(0, a.alp, t.sq);
    if t.alp > 0 && a.sq > 0 {
      if b.alp == 0 { MulMono(1, b.sq, t.alp); }
      WeakCross(a.sq, a.alp, b.sq, b.alp, t.sq, t.alp);
    }
  }

  lemma WeakCross(p: int, q: int, r: int, s: int, u: int, v: int)
    requires q >= 0 && s > 0 && v >= 0
    requires p * s <= r * q && r * v <= u * s
    ensures p * v <= u * q
  {
    MulMono(p * s, r * q, v);
    MulMono(r * v, u * s, q);
    assert (p * s) * v == (p * v) * s;
    assert (r * q) * v == (r * v) * q;
    assert (u * s) * q == (u * q) * s;
    if p * v > u * q { MulMono(u * q + 1, p * v, s); }
  }

  /** There is only one first best candidate, so the scan's answer is determined. */
  lemma FirstBestIsUnique<P>(trials: seq<Trial<P>>, k: nat, l: nat)
    requires IsFirstBest(trials, k) && IsFirstBest(trials, l)
    ensures k == l
  {
    assert NotBetter(trials[k].score, trials[l].score) && NotBetter(trials[l].score, trials[k].score);
    assert k < l ==> !Worse(trials[k].score, trials[l].score);
  }

  // ----- what negative energies do -----

  /** A candidate with a negative energy displaces the start value exactly when its squared
      correlation is larger in magnitude. */
  lemma NegativeEnergyEnters(t: Score)
    requires t.sq >= 0
    ensures Replaces(t, START) <==> t.sq + t.alp > 0
  {
    TestIsExact(t, START);
  }

  /** It displaces a proper candidate whenever either of them has any correlation. */
  lemma NegativeEnergyDisplaces(t: Score, best: Score)
    requires t.sq >= 0 && t.alp < 0 && best.sq >= 0 && best.alp >= 0 && Viable(best)
    ensures Replaces(t, best) <==> t.sq > 0 || best.sq > 0
  {
    TestIsExact(t, best);
    CrossSigns(best.sq, t.alp, t.sq, best.alp);
  }

  lemma CrossSigns(q: int, e: int, s: int, a: int)
    requires q >= 0 && e < 0 && s >= 0 && a >= 0 && q + a > 0
    ensures q * e < s * a <==> s > 0 || q > 0
  {
    if q > 0 {
      MulMono(1, q, -e);
      assert q * (-e) == -(q * e);
      MulMono(0, s, a);
    } else if s > 0 {
      MulMono(1, s, a);
    }
  }

  /** A kept negative energy is never replaced by a proper candidate, however good. What
      removes it is the start value, handed on by an inner scan that kept nothing: exactly
      when the squared correlation is smaller than the energy in magnitude. */
  lemma {:induction false} NegativeEnergySticks<P>(before: seq<Trial<P>>, later: seq<Trial<P>>, default: P)
    requires Choose(before, default).score.alp < 0 <= Choose(before, default).score.sq
    requires AllComparable(later)
    ensures var kept := Choose(before, default);
            && (Choose(before + later, default) == kept
                <==> kept.score.sq + kept.score.alp >= 0 || !StartIn(later))
            && (Choose(before + later, default) != kept ==> Comparable(Choose(before + later, default).score))
  {
    hide Choose, Replaces;
    var kept := Choose(before, default);
    if later == [] {
      assert before + later == before;
    } else {
      var n := |later| - 1;
      NegativeEnergySticks(before, later[..n], default);
      assert before + later == (before + later[..n]) + [later[n]];
      ChooseStep(before + later[..n], later[n], default);
      TestIsExact(later[n].score, kept.score);
      if later[n].score != START { NotWorse(kept.score, later[n].score); }
      assert StartIn(later) <==> StartIn(later[..n]) || later[n].score == START by { StartInFront(later); }
    }
  }

  /** Some candidate is the outcome of a scan that kept nothing. */
  ghost predicate StartIn<P>(trials: seq<Trial<P>>) {
    exists j :: 0 <= j < |trials| && trials[j].score == START
  }

  lemma StartInFront<P>(trials: seq<Trial<P>>)
    requires trials != []
    ensures StartIn(trials) <==> StartIn(trials[..|trials| - 1]) || trials[|trials| - 1].score == START
  {
    var n := |trials| - 1;
    if StartIn(trials) {
      var j :| 0 <= j < |trials| && trials[j].score == START;
      assert j < n ==> trials[..n][j].score == START;
    }
  }

  lemma NotWorse(kept: Score, t: Score)
    requires kept.alp < 0 <= kept.sq && t.sq >= 0 && t.alp >= 0
    ensures !Worse(kept, t)
  {
    MulMono(0, kept.sq, t.alp);
    MulMono(kept.alp, 0, t.sq);
  }

  // ----- exactly when they do no harm to one scan of tried positions -----

  /** The scan's candidates with every negative-energy one turned into one without a ratio. */
  function Muted<P>(trials: seq<Trial<P>>): (m: seq<Trial<P>>)
    ensures |m| == |trials|
  {
    seq(|trials|, j requires 0 <= j < |trials| =>
      if trials[j].score.alp < 0 then Trial(trials[j].tag, Score(0, 0)) else trials[j])
  }

  ghost predicate SquaresNonNegative<P>(trials: seq<Trial<P>>) {
    forall j :: 0 <= j < |trials| ==> trials[j].score.sq >= 0
  }

  /** Some proper candidate before j has a ratio. */
  ghost predicate RatioBefore<P>(trials: seq<Trial<P>>, j: nat)
    requires j <= |trials|
  {
    exists i :: 0 <= i < j && trials[i].score.alp >= 0 && Viable(trials[i].score)
  }

  /** No proper candidate before j has any correlation. */
  ghost predicate SilentBefore<P>(trials: seq<Trial<P>>, j: nat)
    requires j <= |trials|
  {
    forall i :: 0 <= i < j && trials[i].score.alp >= 0 ==> trials[i].score.sq == 0
  }

  /** A negative energy is passed over: before the first ratio when the squared correlation
      does not exceed it in magnitude, afterwards only in silence. */
  ghost predicate Harmless<P>(trials: seq<Trial<P>>, j: nat)
    requires j < |trials|
  {
    if RatioBefore(trials, j) then trials[j].score.sq == 0 && SilentBefore(trials, j)
    else trials[j].score.sq + trials[j].score.alp <= 0
  }

  ghost predicate AllHarmless<P>(trials: seq<Trial<P>>) {
    forall j :: 0 <= j < |trials| && trials[j].score.alp < 0 ==> Harmless(trials, j)
  }

  lemma MutedIsComparable<P>(trials: seq<Trial<P>>)
    requires SquaresNonNegative(trials)
    ensures AllComparable(Muted(trials))
  {
  }

  lemma MutedPrefix<P>(trials: seq<Trial<P>>)
    requires trials != []
    ensures var n := |trials| - 1;
            Muted(trials)[..n] == Muted(trials[..n])
  {
  }

  /** A candidate without a ratio never replaces anything. */
  lemma MutedNeverReplaces(best: Score)
    requires best.sq >= -1
    ensures !Replaces(Score(0, 0), best)
  {
    TestIsExact(Score(0, 0), best);
  }

  lemma HarmlessPrefix<P>(trials: seq<Trial<P>>)
    requires trials != []
    ensures var n := |trials| - 1;
            AllHarmless(trials) <==> AllHarmless(trials[..n]) && (trials[n].score.alp < 0 ==> Harmless(trials, n))
  {
    var n := |trials| - 1;
    forall j | 0 <= j < n
      ensures Harmless(trials[..n], j) <==> Harmless(trials, j)
    {
      SameBefore(trials, n, j);
    }
    assert forall j :: 0 <= j < n ==> trials[..n][j] == trials[j];
  }

  lemma SameBefore<P>(trials: seq<Trial<P>>, n: nat, j: nat)
    requires j < n <= |trials|
    ensures RatioBefore(trials[..n], j) <==> RatioBefore(trials, j)
    ensures SilentBefore(trials[..n], j) <==> SilentBefore(trials, j)
  {
    assert forall i :: 0 <= i < j ==> trials[..n][i] == trials[i];
  }

  /** What the scan so far means for a negative energy that comes next. */
  lemma ReplacedUnlessHarmless<P>(trials: seq<Trial<P>>, best: Score, k: nat)
    requires trials != [] && SquaresNonNegative(trials) && trials[|trials| - 1].score.alp < 0
    requires var m := Muted(trials[..|trials| - 1]);
             if NoneViable(m) then best == START else IsFirstBest(m, k) && best == m[k].score
    ensures Replaces(trials[|trials| - 1].score, best) <==> !Harmless(trials, |trials| - 1)
  {
    var n := |trials| - 1;
    var m, t := Muted(trials[..n]), trials[n].score;
    assert forall i :: 0 <= i < n ==> m[i].score == if trials[i].score.alp < 0 then Score(0, 0) else trials[i].score;
    if NoneViable(m) {
      NegativeEnergyEnters(t);
      assert !RatioBefore(trials, n) by { assert forall i :: 0 <= i < n ==> !Viable(m[i].score); }
    } else {
      assert trials[k].score.alp >= 0 && Viable(trials[k].score);
      NegativeEnergyDisplaces(t, best);
      if best.sq == 0 {
        forall i | 0 <= i < n && trials[i].score.alp >= 0 ensures trials[i].score.sq == 0 {
          NoCorrelation(m[i].score, best);
        }
      }
    }
  }

  lemma NoCorrelation(t: Score, best: Score)
    requires NotBetter(t, best) && best.sq == 0 && best.alp > 0 && t.sq >= 0
    ensures t.sq == 0
  {
    if t.sq > 0 { MulMono(1, t.sq, best.alp); }
  }

  /** Negative energies do no harm to a scan of tried positions if and only if each of them
      is passed over: then, and only then, the scan keeps what it would keep without them. */
  lemma {:induction false} NegativeEnergiesExactly<P>(trials: seq<Trial<P>>, default: P)
    requires SquaresNonNegative(trials)
    ensures AllHarmless(trials) ==> Choose(trials, default) == Choose(Muted(trials), default)
    ensures !AllHarmless(trials) ==> Choose(trials, default).score.alp < 0 <= Choose(trials, default).score.sq
    ensures Choose(Muted(trials), default).score.alp >= 0
  {
    hide Replaces, Harmless, AllHarmless, NoneViable, IsFirstBest, SquaresNonNegative;
    MutedIsComparable(trials);
    var _ := KeptIsProper(Muted(trials), default);
    if trials == [] {
      NothingToHarm(trials);
    } else {
      var n := |trials| - 1;
      var t := trials[n];
      FrontSquares(trials);
      NegativeEnergiesExactly(trials[..n], default);
      HarmlessPrefix(trials);
      MutedPrefix(trials);
      MutedIsComparable(trials[..n]);
      var best := Choose(trials[..n], default);
      if !AllHarmless(trials[..n]) {
        TestIsExact(t.score, best.score);
        if t.score.alp >= 0 { NotWorse(best.score, t.score); }
      } else {
        var k := KeptIsProper(Muted(trials[..n]), default);
        if t.score.alp < 0 {
          ReplacedUnlessHarmless(trials, best.score, k);
          MutedNeverReplaces(best.score);
        }
      }
    }
  }

  lemma NothingToHarm<P>(trials: seq<Trial<P>>)
    requires trials == []
    ensures AllHarmless(trials) && Muted(trials) == trials
  {
  }

  lemma FrontSquares<P>(trials: seq<Trial<P>>)
    requires trials != [] && SquaresNonNegative(trials)
    ensures SquaresNonNegative(trials[..|trials| - 1]) && trials[|trials| - 1].score.sq >= 0
  {
  }

  /** What a scan of proper candidates keeps, as a score. */
  lemma KeptIsProper<P>(trials: seq<Trial<P>>, default: P) returns (k: nat)
    requires AllComparable(trials)
    ensures var best := Choose(trials, default);
            && best.score.sq >= -1 && best.score.alp >= 0
            && if NoneViable(trials) then best == Trial(default, START)
               else IsFirstBest(trials, k) && best == trials[k]
  {
    k := ChooseKeepsFirstBest(trials, default);
  }

  /** w is a proper candidate exactly when all negative energies are harmless, and it is
      then the k-th, the first best of the proper ones, or the start if none has a ratio. */
  ghost predicate KeepsProper<P>(trials: seq<Trial<P>>, default: P, w: Trial<P>, k: nat) {
    && (w.score.alp >= 0 <==> AllHarmless(trials))
    && (AllHarmless(trials) ==>
          if NoneViable(Muted(trials)) then w == Trial(default, START)
          else IsFirstBest(Muted(trials), k) && trials[k].score.alp >= 0 && w == trials[k])
  }

  /** What a scan of tried positions keeps, with no assumption about the energies. */
  lemma ProperExactlyWhenHarmless<P>(trials: seq<Trial<P>>, default: P) returns (k: nat)
    requires SquaresNonNegative(trials)
    ensures KeepsProper(trials, default, Choose(trials, default), k)
  {
    hide AllHarmless, Choose, SquaresNonNegative;
    NegativeEnergiesExactly(trials, default);
    MutedIsComparable(trials);
    k := KeptIsProper(Muted(trials), default);
  }
}
