/** What a scan with the ratio test keeps when energies may be negative. Eight classes of
    scores are enough to follow it: no products, only the signs of the squared correlation,
    of the energy and of their sum. */
module ScanClasses {
  import opened FixedPoint
  import opened RatioSearch

  /** Start is the score of a scan that kept nothing, Dead is 0/0, Silent and Loud are the
      proper ratios without and with correlation; the last four have a negative energy and a
      squared correlation above, at, below its magnitude, or none. */
  datatype Class = Start | Dead | Silent | Loud | Above | Even | Below | Zero

  function ClassOf(s: Score): Class {
    if s.sq < 0 then Start
    else if s.alp >= 0 then (if s.sq > 0 then Loud else if s.alp > 0 then Silent else Dead)
    else if s.sq + s.alp > 0 then Above
    else if s.sq + s.alp == 0 then Even
    else if s.sq > 0 then Below
    else Zero
  }

  predicate Negative(c: Class) { c.Above? || c.Even? || c.Below? || c.Zero? }

  predicate Proper(c: Class) { c.Silent? || c.Loud? }

  /** Negative ratios are ordered by magnitude. */
  function Rank(c: Class): nat { if c.Above? then 3 else if c.Even? then 2 else if c.Below? then 1 else 0 }

  /** What replaces the start value. */
  predicate Entering(c: Class) { c.Silent? || c.Loud? || c.Above? }

  /** The class kept after a candidate of class c met a kept one of class kept. */
  function Next(kept: Class, c: Class): Class {
    match kept
    case Start => if Entering(c) then c else Start
    case Dead => Dead
    case Silent => if c.Loud? || c.Above? || c.Even? || c.Below? then c else Silent
    case Loud => if Negative(c) then c else Loud
    case _ =>
      if Negative(c) then (if Rank(c) < Rank(kept) then c else kept)
      else if c.Start? && Rank(kept) <= 1 then Start
      else kept
  }

  function ClassAfter(cs: seq<Class>): (c: Class)
    ensures c != Dead
  {
    if cs == [] then Start else Next(ClassAfter(cs[..|cs| - 1]), cs[|cs| - 1])
  }

  /** A tried candidate, or the outcome of an inner scan that kept none. */
  predicate Scanned(s: Score) { s.sq >= 0 || s == START }

  ghost predicate AllScanned<P>(trials: seq<Trial<P>>) {
    forall j :: 0 <= j < |trials| ==> Scanned(trials[j].score)
  }

  function Classes<P>(trials: seq<Trial<P>>): (cs: seq<Class>)
    ensures |cs| == |trials|
  {
    seq(|trials|, j requires 0 <= j < |trials| => ClassOf(trials[j].score))
  }

  // ----- one comparison -----

  lemma FromStart(t: Score)
    requires Scanned(t)
    ensures Replaces(t, START) <==> Entering(ClassOf(t))
  {
    TestIsExact(t, START);
  }

  lemma FromProper(b: Score, t: Score)
    requires Scanned(t) && Proper(ClassOf(b))
    ensures !Proper(ClassOf(t)) ==> (Replaces(t, b) <==> Negative(ClassOf(t)) && (t.sq > 0 || b.sq > 0))
    ensures Proper(ClassOf(t)) && b.sq > 0 && Replaces(t, b) ==> t.sq > 0
    ensures Proper(ClassOf(t)) && b.sq == 0 ==> (Replaces(t, b) <==> t.sq > 0)
  {
    hide Replaces;
    TestIsExact(t, b);
    if t.alp < 0 {
      NegativeEnergyDisplaces(t, b);
    } else if b.sq == 0 {
      ZeroTimes(t.alp);
      if t.sq > 0 { MulMono(1, t.sq, b.alp); } else { ZeroTimes(b.alp); }
    } else {
      MulMono(0, b.sq, t.alp);
      if t.sq <= 0 { MulMono(t.sq, 0, b.alp); }
    }
  }

  lemma ZeroTimes(a: int)
    ensures 0 * a == 0
  {
  }

  /** The start value replaces a negative energy that is larger than its correlation. */
  lemma FromNegative(b: Score, t: Score)
    requires Scanned(t) && Negative(ClassOf(b))
    ensures t == START ==> (Replaces(t, b) <==> b.sq + b.alp < 0)
    ensures t.sq >= 0 && t.alp >= 0 ==> !Replaces(t, b)
    ensures Negative(ClassOf(t)) && Rank(ClassOf(t)) < Rank(ClassOf(b)) ==> Replaces(t, b)
    ensures Negative(ClassOf(t)) && Rank(ClassOf(t)) > Rank(ClassOf(b)) ==> !Replaces(t, b)
  {
    hide Replaces;
    TestIsExact(t, b);
    if t.sq >= 0 && t.alp >= 0 {
      NotWorse(b, t);
    } else if t.alp < 0 {
      Magnitudes(b.sq, -(b.alp as int), t.sq, -(t.alp as int));
      assert b.sq * t.alp == -(b.sq * -(t.alp as int)) && t.sq * b.alp == -(t.sq * -(b.alp as int));
    }
  }

  /** Ratios above, at and below one, and zero, compare as their ranks do. */
  lemma Magnitudes(p: int, m: int, q: int, k: int)
    requires p >= 0 && q >= 0 && m > 0 && k > 0
    ensures (p > m && q <= k) || (p == m && q < k) || (p > 0 && q == 0) ==> q * m < p * k
    ensures (q > k && p <= m) || (q == k && p < m) || (q > 0 && p == 0) ==> p * k <= q * m
  {
    if p > m && q <= k { Crossed(m, p, q, k); }
    else if p == m && q < k { MulMono(q + 1, k, m); SameProduct(k, m); }
    else if p > 0 && q == 0 { MulMono(1, p, k); ZeroTimes(m); }
    else if q > k && p <= m { Crossed(k, q, p, m); }
    else if q == k && p < m { MulMono(p, m, k); SameProduct(k, m); }
    else if q > 0 && p == 0 { MulMono(0, q, m); ZeroTimes(k); }
  }

  lemma Crossed(m: int, p: int, q: int, k: int)
    requires m < p && q <= k && m > 0 && k > 0
    ensures q * m < p * k
  {
    MulMono(m + 1, p, k);
    MulMono(q, k, m);
    SameProduct(k, m);
  }

  lemma SameProduct(k: int, m: int)
    ensures k * m == m * k
  {
  }

  /** The classes tell everything about one comparison. */
  lemma NextIsExact(b: Score, t: Score)
    requires Scanned(b) && Scanned(t) && ClassOf(b) != Dead
    ensures ClassOf(if Replaces(t, b) then t else b) == Next(ClassOf(b), ClassOf(t))
  {
    hide Replaces;
    if b == START { FromStart(t); }
    else if b.alp >= 0 { FromProper(b, t); }
    else { FromNegative(b, t); }
  }

  // ----- whole scans -----

  lemma ClassesOf<P>(trials: seq<Trial<P>>)
    requires trials != []
    ensures var n := |trials| - 1;
            Classes(trials)[..n] == Classes(trials[..n]) && Classes(trials)[n] == ClassOf(trials[n].score)
  {
  }

  /** The class of what a scan keeps follows from the classes of its candidates. */
  lemma {:induction false} KeptClass<P>(trials: seq<Trial<P>>, default: P)
    requires AllScanned(trials)
    ensures ClassOf(Choose(trials, default).score) == ClassAfter(Classes(trials))
    ensures Scanned(Choose(trials, default).score)
  {
    hide Replaces, ClassOf, Next;
    if trials == [] {
      assert ClassOf(START) == Start by { StartClass(); }
    } else {
      var n := |trials| - 1;
      assert AllScanned(trials[..n]);
      KeptClass(trials[..n], default);
      ClassesOf(trials);
      NextIsExact(Choose(trials[..n], default).score, trials[n].score);
    }
  }

  lemma StartClass()
    ensures ClassOf(START) == Start
  {
  }

  /** The scan's start value survives exactly when no candidate can replace it; otherwise the
      scan ends on one of its candidates. */
  lemma {:induction false} StartSurvives<P>(trials: seq<Trial<P>>, default: P)
    requires AllScanned(trials)
    ensures (forall j :: 0 <= j < |trials| ==> !Entering(ClassOf(trials[j].score)))
        ==> Choose(trials, default) == Trial(default, START)
    ensures (exists j :: 0 <= j < |trials| && Entering(ClassOf(trials[j].score)))
        ==> Choose(trials, default) in trials
  {
    hide Replaces, ClassOf;
    if trials != [] {
      var n := |trials| - 1;
      assert AllScanned(trials[..n]);
      StartSurvives(trials[..n], default);
      FromStart(trials[n].score);
      if exists j :: 0 <= j < n && Entering(ClassOf(trials[j].score)) {
        var j :| 0 <= j < n && Entering(ClassOf(trials[j].score));
        assert Entering(ClassOf(trials[..n][j].score));
      }
    }
  }

  // ----- when the best proper candidate is kept -----

  /** Later candidates leave a proper kept score alone. */
  ghost predicate Undisturbed<P>(trials: seq<Trial<P>>, g: nat, n: nat)
    requires g < |trials| && n <= |trials|
  {
    forall j :: g < j < n && Negative(ClassOf(trials[j].score)) ==>
      ClassOf(trials[j].score) == Zero && trials[g].score.sq == 0
  }

  /** g is the first best of the candidates without a negative energy, and no other
      candidate equals it. */
  ghost predicate BestProper<P>(trials: seq<Trial<P>>, g: nat)
    requires g < |trials|
  {
    && IsFirstBest(Muted(trials), g) && trials[g].score.alp >= 0
    && forall j :: 0 <= j < |trials| && j != g ==> trials[j] != trials[g]
  }

  lemma BestIsProper<P>(trials: seq<Trial<P>>, g: nat)
    requires g < |trials| && AllScanned(trials) && BestProper(trials, g)
    ensures Proper(ClassOf(trials[g].score))
  {
    assert Muted(trials)[g] == trials[g];
  }

  /** Up to g the scan keeps g exactly when it is not on a negative energy by then. */
  lemma ReachesBest<P>(trials: seq<Trial<P>>, default: P, g: nat)
    requires g < |trials| && AllScanned(trials) && BestProper(trials, g)
    ensures Choose(trials[..g + 1], default) == trials[g] <==> !Negative(ClassOf(Choose(trials[..g], default).score))
  {
    hide Replaces, ClassOf, Choose, IsFirstBest;
    BestIsProper(trials, g);
    var b, t := Choose(trials[..g], default), trials[g];
    assert trials[..g + 1] == trials[..g] + [t];
    ChooseStep(trials[..g], t, default);
    assert AllScanned(trials[..g]);
    KeptClass(trials[..g], default);
    KeptIsTried(trials[..g], default);
    ClassFacts(t.score);
    ClassFacts(b.score);
    if Negative(ClassOf(b.score)) {
      FromNegative(b.score, t.score);
    } else if b.score == START {
      FromStart(t.score);
    } else {
      var j :| 0 <= j < g && trials[..g][j] == b;
      BestBeats(trials, g, j);
      TestIsExact(t.score, b.score);
    }
  }

  lemma ClassFacts(s: Score)
    requires Scanned(s)
    ensures Negative(ClassOf(s)) <==> s.alp < 0
    ensures Proper(ClassOf(s)) <==> s.sq >= 0 && s.alp >= 0 && Viable(s)
    ensures s == START <==> ClassOf(s) == Start
    ensures Negative(ClassOf(s)) ==> s.sq >= 0 && (ClassOf(s) == Zero <==> s.sq == 0)
  {
  }

  lemma BestBeats<P>(trials: seq<Trial<P>>, g: nat, j: nat)
    requires g < |trials| && IsFirstBest(Muted(trials), g) && trials[g].score.alp >= 0
    requires j < |trials| && trials[j].score.alp >= 0
    ensures NotBetter(trials[j].score, trials[g].score)
    ensures j < g && Viable(trials[j].score) ==> Worse(trials[j].score, trials[g].score)
  {
    assert Muted(trials)[j] == trials[j] && Muted(trials)[g] == trials[g];
  }

  /** A scan keeps its start value or one of its candidates. */
  lemma {:induction false} KeptIsTried<P>(trials: seq<Trial<P>>, default: P)
    ensures Choose(trials, default) == Trial(default, START) || Choose(trials, default) in trials
  {
    hide Replaces;
    if trials != [] { KeptIsTried(trials[..|trials| - 1], default); }
  }

  /** Whether one more candidate leaves the best one in place. */
  lemma LaterCandidate<P>(trials: seq<Trial<P>>, g: nat, j: nat)
    requires g < j < |trials| && AllScanned(trials) && BestProper(trials, g)
    ensures Replaces(trials[j].score, trials[g].score)
       <==> Negative(ClassOf(trials[j].score)) && !(ClassOf(trials[j].score) == Zero && trials[g].score.sq == 0)
  {
    hide Replaces, IsFirstBest, ClassOf;
    BestIsProper(trials, g);
    ClassFacts(trials[j].score);
    ClassFacts(trials[g].score);
    FromProper(trials[g].score, trials[j].score);
    if Proper(ClassOf(trials[j].score)) {
      BestBeats(trials, g, j);
      TestIsExact(trials[j].score, trials[g].score);
    }
  }

  lemma {:induction false} StaysOnBest<P>(trials: seq<Trial<P>>, default: P, g: nat, n: nat)
    requires g < n <= |trials| && AllScanned(trials) && BestProper(trials, g)
    ensures Choose(trials[..n], default) == trials[g]
       <==> !Negative(ClassOf(Choose(trials[..g], default).score)) && Undisturbed(trials, g, n)
  {
    hide Replaces, ClassOf, Choose, BestProper;
    if n == g + 1 {
      ReachesBest(trials, default, g);
    } else {
      var t := trials[n - 1];
      StaysOnBest(trials, default, g, n - 1);
      assert trials[..n] == trials[..n - 1] + [t];
      ChooseStep(trials[..n - 1], t, default);
      LaterCandidate(trials, g, n - 1);
      assert t != trials[g] by { OnlyBest(trials, g, n - 1); }
    }
  }

  lemma OnlyBest<P>(trials: seq<Trial<P>>, g: nat, j: nat)
    requires g < |trials| && BestProper(trials, g) && j < |trials| && j != g
    ensures trials[j] != trials[g]
  {
  }

  /** A scan ends on its best proper candidate if and only if it is not on a negative energy
      when it gets there and no negative energy disturbs it afterwards. */
  lemma BestKeptExactly<P>(trials: seq<Trial<P>>, default: P, g: nat)
    requires g < |trials| && AllScanned(trials) && BestProper(trials, g)
    ensures Choose(trials, default) == trials[g]
       <==> !Negative(ClassAfter(Classes(trials[..g]))) && Undisturbed(trials, g, |trials|)
  {
    hide Choose, BestProper, ClassOf, ClassAfter;
    assert trials[..|trials|] == trials;
    assert AllScanned(trials[..g]);
    KeptClass(trials[..g], default);
    StaysOnBest(trials, default, g, |trials|);
  }
}
