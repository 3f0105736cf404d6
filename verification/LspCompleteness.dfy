/** The scan of Az_lsp passes over no sign change: where each root was looked for and found,
    told by grid points and signs only, which determines the roots. */
module LspCompleteness {
  import opened FixedPoint
  import opened Chebps
  import opened LspSearch

  /** Both strictly positive or both strictly negative. */
  predicate Agree(y: int, z: int) { (y > 0 && z > 0) || (y < 0 && z < 0) }

  lemma ChangeIsDisagreement(y: int, z: int)
    ensures Times(y, z) <= 0 <==> !Agree(y, z)
  {
    if y > 0 && z > 0 { MulMono(1, y, z); }
    else if y < 0 && z < 0 { MulMono(1, -y, -z); assert (-y) * (-z) == y * z; }
    else if y == 0 { assert 0 * z == 0; }
    else if y > 0 { MulMono(z, 0, y); }
    else { MulMono(y, 0, if z < 0 then 0 else z); }
  }

  /** After which grid interval the search for root k begins. */
  function Begin(where: seq<nat>, k: nat): nat
    requires k <= |where|
  {
    if k == 0 then 0 else where[k - 1]
  }

  /** The points at which the search for root k looks: first the root before it, or the top
      of the grid, then the grid points below. */
  function Point(roots: seq<Word16>, where: seq<nat>, k: nat, i: nat): Word16
    requires k <= |where| == |roots| && i <= GRID_POINTS
  {
    if k > 0 && i == where[k - 1] then roots[k - 1] else Grid(i)
  }

  function ValueAt(f1: Coefficients, f2: Coefficients, roots: seq<Word16>, where: seq<nat>, k: nat, i: nat): Word16
    requires k <= |where| == |roots| && i <= GRID_POINTS
  {
    Value(Point(roots, where, k, i), Side(f1, f2, k))
  }

  /** From the begin of the search for root k down to point n its polynomial keeps one
      strict sign. */
  ghost predicate OneSign(f1: Coefficients, f2: Coefficients, roots: seq<Word16>, where: seq<nat>, k: nat, n: nat)
    requires k <= |where| == |roots| && n <= GRID_POINTS
  {
    forall i: nat :: Begin(where, k) < i <= n ==>
      Agree(ValueAt(f1, f2, roots, where, k, Begin(where, k)), ValueAt(f1, f2, roots, where, k, i))
  }

  /** Root k was found in interval where[k]: no sign change before it, one in it, and the
      root comes from halving that interval four times and interpolating. */
  ghost predicate FoundFirst(f1: Coefficients, f2: Coefficients, roots: seq<Word16>, where: seq<nat>, k: nat)
    requires k < |where| == |roots| && Begin(where, k) < where[k] <= GRID_POINTS
  {
    var j := where[k];
    var y, z := ValueAt(f1, f2, roots, where, k, j - 1), ValueAt(f1, f2, roots, where, k, j);
    && OneSign(f1, f2, roots, where, k, j - 1)
    && !Agree(y, z)
    && roots[k] == Interpolate(Bisect(Side(f1, f2, k), Bracket(Grid(j), z, Point(roots, where, k, j - 1), y), 4))
  }

  /** The whole account after n intervals. */
  ghost predicate Account(f1: Coefficients, f2: Coefficients, roots: seq<Word16>, where: seq<nat>, n: nat)
    requires n <= GRID_POINTS
  {
    && |where| == |roots| <= M
    && (forall k :: 0 <= k < |where| ==> Begin(where, k) < where[k] <= n)
    && (forall k :: 0 <= k < |where| ==> FoundFirst(f1, f2, roots, where, k))
    && (|roots| < M ==> OneSign(f1, f2, roots, where, |roots|, n))
  }

  // ----- the scan satisfies it -----

  /** Where the scan stands. */
  ghost predicate Standing(f1: Coefficients, f2: Coefficients, s: Scan, where: seq<nat>, n: nat)
    requires n <= GRID_POINTS
  {
    && |where| == |s.roots| <= M && Begin(where, |where|) <= n
    && (|s.roots| < M ==>
          s.xlow == Point(s.roots, where, |where|, n) && s.ylow == ValueAt(f1, f2, s.roots, where, |where|, n))
  }

  lemma StartStanding(f1: Coefficients, f2: Coefficients)
    ensures Account(f1, f2, [], [], 0) && Standing(f1, f2, ScanTo(f1, f2, 0), [], 0)
  {
    hide Value, Grid;
  }

  lemma {:induction false} ScanAccount(f1: Coefficients, f2: Coefficients, n: nat) returns (where: seq<nat>)
    requires n <= GRID_POINTS
    ensures Account(f1, f2, ScanTo(f1, f2, n).roots, where, n)
    ensures Standing(f1, f2, ScanTo(f1, f2, n), where, n)
  {
    hide Advance, Account, Standing;
    if n == 0 {
      where := [];
      StartStanding(f1, f2);
    } else {
      var s := ScanTo(f1, f2, n - 1);
      where := ScanAccount(f1, f2, n - 1);
      if |s.roots| == M {
        Finished(f1, f2, s, where, n);
      } else {
        where := OneInterval(f1, f2, s, where, n);
      }
    }
  }

  lemma Finished(f1: Coefficients, f2: Coefficients, s: Scan, where: seq<nat>, n: nat)
    requires 1 <= n <= GRID_POINTS && |s.roots| == M
    requires Account(f1, f2, s.roots, where, n - 1) && Standing(f1, f2, s, where, n - 1)
    ensures Account(f1, f2, s.roots, where, n) && Standing(f1, f2, s, where, n)
  {
    hide Value, Grid, FoundFirst;
  }

  lemma OneInterval(f1: Coefficients, f2: Coefficients, s: Scan, where: seq<nat>, n: nat) returns (w: seq<nat>)
    requires 1 <= n <= GRID_POINTS && |s.roots| < M
    requires Account(f1, f2, s.roots, where, n - 1) && Standing(f1, f2, s, where, n - 1)
    ensures var t := Advance(f1, f2, s, Grid(n));
            Account(f1, f2, t.roots, w, n) && Standing(f1, f2, t, w, n)
  {
    hide Value, Grid, Advance, Account, Standing;
    if Agree(Value(Grid(n), Side(f1, f2, |s.roots|)), s.ylow) {
      w := where;
      NothingNew(f1, f2, s, where, n);
    } else {
      w := where + [n];
      RootAdded(f1, f2, s, where, n);
    }
  }

  lemma NothingNew(f1: Coefficients, f2: Coefficients, s: Scan, where: seq<nat>, n: nat)
    requires 1 <= n <= GRID_POINTS && |s.roots| < M
    requires Account(f1, f2, s.roots, where, n - 1) && Standing(f1, f2, s, where, n - 1)
    requires Agree(Value(Grid(n), Side(f1, f2, |s.roots|)), s.ylow)
    ensures var t := Advance(f1, f2, s, Grid(n));
            Account(f1, f2, t.roots, where, n) && Standing(f1, f2, t, where, n)
  {
    hide Value, Grid, Interpolate, Bisect, FoundFirst, Times;
    ChangeIsDisagreement(Value(Grid(n), Side(f1, f2, |s.roots|)), s.ylow);
    SignKept(f1, f2, s, where, n);
  }

  lemma RootAdded(f1: Coefficients, f2: Coefficients, s: Scan, where: seq<nat>, n: nat)
    requires 1 <= n <= GRID_POINTS && |s.roots| < M
    requires Account(f1, f2, s.roots, where, n - 1) && Standing(f1, f2, s, where, n - 1)
    requires !Agree(Value(Grid(n), Side(f1, f2, |s.roots|)), s.ylow)
    ensures var t := Advance(f1, f2, s, Grid(n));
            Account(f1, f2, t.roots, where + [n], n) && Standing(f1, f2, t, where + [n], n)
  {
    FoundNow(f1, f2, s, where, n);
    var t := Advance(f1, f2, s, Grid(n));
    AllFound(f1, f2, s.roots, where, t.roots, n);
    JustFound(f1, f2, t, where + [n], n);
    hide Value, Advance, FoundFirst, Grid, OneSign, Standing;
    assert Account(f1, f2, t.roots, where + [n], n);
  }

  /** Right after a root the search for the next one has seen only that root. */
  lemma JustFound(f1: Coefficients, f2: Coefficients, t: Scan, w: seq<nat>, n: nat)
    requires 1 <= n <= GRID_POINTS && 0 < |w| == |t.roots| <= M && w[|w| - 1] == n
    requires t.xlow == t.roots[|w| - 1] && t.ylow == Value(t.xlow, Side(f1, f2, |w|))
    ensures OneSign(f1, f2, t.roots, w, |w|, n) && Standing(f1, f2, t, w, n)
  {
    hide Value, Grid;
  }

  lemma AllFound(f1: Coefficients, f2: Coefficients, roots: seq<Word16>, where: seq<nat>, r: seq<Word16>, n: nat)
    requires 1 <= n <= GRID_POINTS && Account(f1, f2, roots, where, n - 1) && Begin(where, |where|) < n
    requires |r| == |roots| + 1 && r[..|roots|] == roots && FoundFirst(f1, f2, r, where + [n], |roots|)
    ensures var w := where + [n];
            forall l :: 0 <= l < |w| ==> Begin(w, l) < w[l] <= n && FoundFirst(f1, f2, r, w, l)
  {
    hide Value, Grid, FoundFirst, OneSign;
    var k, w := |roots|, where + [n];
    assert r == roots + [r[k]];
    forall l | 0 <= l < |w| ensures Begin(w, l) < w[l] <= n && FoundFirst(f1, f2, r, w, l) {
      if l < k {
        assert Begin(where, l) < where[l] <= n - 1;
        FoundStays(f1, f2, roots, where, r[k], n, l);
      }
    }
  }

  lemma SignKept(f1: Coefficients, f2: Coefficients, s: Scan, where: seq<nat>, n: nat)
    requires 1 <= n <= GRID_POINTS && |s.roots| < M
    requires Account(f1, f2, s.roots, where, n - 1) && Standing(f1, f2, s, where, n - 1)
    requires Agree(Value(Grid(n), Side(f1, f2, |s.roots|)), s.ylow)
    ensures OneSign(f1, f2, s.roots, where, |s.roots|, n)
  {
    hide Value, Grid, FoundFirst;
    var k := |s.roots|;
    forall i: nat | Begin(where, k) < i <= n
      ensures Agree(ValueAt(f1, f2, s.roots, where, k, Begin(where, k)), ValueAt(f1, f2, s.roots, where, k, i))
    {
      if i == n && Begin(where, k) < n - 1 {
        assert Agree(ValueAt(f1, f2, s.roots, where, k, Begin(where, k)), ValueAt(f1, f2, s.roots, where, k, n - 1));
      }
    }
  }

  /** Appending a root changes nothing for the earlier ones. */
  lemma FoundStays(f1: Coefficients, f2: Coefficients, roots: seq<Word16>, where: seq<nat>, x: Word16, n: nat, l: nat)
    requires l < |where| == |roots| && Begin(where, l) < where[l] <= GRID_POINTS
    requires FoundFirst(f1, f2, roots, where, l)
    ensures FoundFirst(f1, f2, roots + [x], where + [n], l)
  {
    hide Value, Grid, Interpolate, Bisect;
    var r, w := roots + [x], where + [n];
    assert Begin(w, l) == Begin(where, l) && w[l] == where[l] && r[l] == roots[l];
    forall i: nat | i <= GRID_POINTS
      ensures Point(r, w, l, i) == Point(roots, where, l, i)
    {
    }
    forall i: nat | Begin(w, l) < i <= w[l] - 1
      ensures Agree(ValueAt(f1, f2, r, w, l, Begin(w, l)), ValueAt(f1, f2, r, w, l, i))
    {
      assert Agree(ValueAt(f1, f2, roots, where, l, Begin(where, l)), ValueAt(f1, f2, roots, where, l, i));
    }
  }

  lemma FoundNow(f1: Coefficients, f2: Coefficients, s: Scan, where: seq<nat>, n: nat)
    requires 1 <= n <= GRID_POINTS && |s.roots| < M
    requires Account(f1, f2, s.roots, where, n - 1) && Standing(f1, f2, s, where, n - 1)
    requires !Agree(Value(Grid(n), Side(f1, f2, |s.roots|)), s.ylow)
    ensures var t := Advance(f1, f2, s, Grid(n));
            && |t.roots| == |s.roots| + 1 && t.roots[..|s.roots|] == s.roots
            && FoundFirst(f1, f2, t.roots, where + [n], |s.roots|)
            && t.xlow == t.roots[|s.roots|] && t.ylow == Value(t.xlow, Side(f1, f2, |s.roots| + 1))
  {
    hide Value, Grid, Interpolate, Bisect, Times;
    var k := |s.roots|;
    ChangeIsDisagreement(Value(Grid(n), Side(f1, f2, k)), s.ylow);
    var t := Advance(f1, f2, s, Grid(n));
    var r, w := t.roots, where + [n];
    assert r == s.roots + [r[k]];
    assert Begin(w, k) == Begin(where, k);
    forall i: nat | i <= GRID_POINTS ensures Point(r, w, k, i) == Point(s.roots, where, k, i) {
    }
    forall i: nat | Begin(w, k) < i <= n - 1
      ensures Agree(ValueAt(f1, f2, r, w, k, Begin(w, k)), ValueAt(f1, f2, r, w, k, i))
    {
      assert Agree(ValueAt(f1, f2, s.roots, where, k, Begin(where, k)), ValueAt(f1, f2, s.roots, where, k, i));
    }
  }

  // ----- the account determines the roots -----

  lemma {:induction false} SamePrefix(f1: Coefficients, f2: Coefficients, r: seq<Word16>, v: seq<nat>,
                                      s: seq<Word16>, w: seq<nat>, n: nat, k: nat)
    requires n <= GRID_POINTS && Account(f1, f2, r, v, n) && Account(f1, f2, s, w, n)
    requires k <= |r| == |v| && k <= |s| == |w|
    ensures r[..k] == s[..k] && v[..k] == w[..k]
  {
    hide Account, FoundFirst;
    if k > 0 {
      SamePrefix(f1, f2, r, v, s, w, n, k - 1);
      SameNext(f1, f2, r, v, s, w, n, k - 1);
      assert r[..k] == r[..k - 1] + [r[k - 1]] && s[..k] == s[..k - 1] + [s[k - 1]];
      assert v[..k] == v[..k - 1] + [v[k - 1]] && w[..k] == w[..k - 1] + [w[k - 1]];
    }
  }

  lemma SamePoints(r: seq<Word16>, v: seq<nat>, s: seq<Word16>, w: seq<nat>, k: nat)
    requires k <= |r| == |v| && k <= |s| == |w| && r[..k] == s[..k] && v[..k] == w[..k]
    ensures Begin(v, k) == Begin(w, k)
    ensures forall i: nat :: i <= GRID_POINTS ==> Point(r, v, k, i) == Point(s, w, k, i)
  {
    hide Grid;
    if k > 0 {
      assert r[k - 1] == r[..k][k - 1] && s[k - 1] == s[..k][k - 1];
      assert v[k - 1] == v[..k][k - 1] && w[k - 1] == w[..k][k - 1];
    }
  }

  lemma SameNext(f1: Coefficients, f2: Coefficients, r: seq<Word16>, v: seq<nat>,
                 s: seq<Word16>, w: seq<nat>, n: nat, k: nat)
    requires n <= GRID_POINTS && Account(f1, f2, r, v, n) && Account(f1, f2, s, w, n)
    requires k < |r| == |v| && k < |s| == |w|
    requires r[..k] == s[..k] && v[..k] == w[..k]
    ensures v[k] == w[k] && r[k] == s[k]
  {
    hide Value, Grid, Interpolate, Bisect;
    SamePoints(r, v, s, w, k);
    assert FoundFirst(f1, f2, r, v, k) && FoundFirst(f1, f2, s, w, k);
    assert Begin(v, k) < v[k] <= n && Begin(w, k) < w[k] <= n;
    if v[k] < w[k] { NotBoth(f1, f2, r, v, s, w, k, w[k] - 1); }
    if w[k] < v[k] { NotBoth(f1, f2, s, w, r, v, k, v[k] - 1); }
  }

  /** An interval with a sign change cannot lie where the other account sees one sign. */
  lemma NotBoth(f1: Coefficients, f2: Coefficients, r: seq<Word16>, v: seq<nat>,
                s: seq<Word16>, w: seq<nat>, k: nat, m: nat)
    requires k < |r| == |v| && k <= |s| == |w| && r[..k] == s[..k] && v[..k] == w[..k]
    requires Begin(v, k) < v[k] <= m <= GRID_POINTS && FoundFirst(f1, f2, r, v, k)
    ensures !OneSign(f1, f2, s, w, k, m)
  {
    hide Value, Grid, Interpolate, Bisect;
    SamePoints(r, v, s, w, k);
    var j, b := v[k], Begin(v, k);
    var start, last := ValueAt(f1, f2, r, v, k, b), ValueAt(f1, f2, r, v, k, j);
    assert ValueAt(f1, f2, s, w, k, b) == start && ValueAt(f1, f2, s, w, k, j) == last;
    assert !Agree(start, last) by {
      if b < j - 1 { assert Agree(start, ValueAt(f1, f2, r, v, k, j - 1)); }
    }
  }

  lemma AccountIsUnique(f1: Coefficients, f2: Coefficients, r: seq<Word16>, v: seq<nat>,
                        s: seq<Word16>, w: seq<nat>, n: nat)
    requires n <= GRID_POINTS && Account(f1, f2, r, v, n) && Account(f1, f2, s, w, n)
    ensures r == s && v == w
  {
    var k := if |r| < |s| then |r| else |s|;
    SamePrefix(f1, f2, r, v, s, w, n, k);
    if |r| < |s| {
      assert FoundFirst(f1, f2, s, w, k) && Begin(w, k) < w[k] <= n;
      NotBoth(f1, f2, s, w, r, v, k, n);
    } else if |s| < |r| {
      assert FoundFirst(f1, f2, r, v, k) && Begin(v, k) < v[k] <= n;
      NotBoth(f1, f2, r, v, s, w, k, n);
    }
    assert r[..k] == r && s[..k] == s && v[..k] == v && w[..k] == w;
  }

  // ----- Az_lsp -----

  /** The roots Az_lsp works with are the only ones with this account over the whole grid. */
  lemma AzLspFindsAll(a: Predictor, roots: seq<Word16>) returns (where: seq<nat>)
    ensures var f1, f2 := Poly(a, 1, NC), Poly(a, -1, NC);
      && Account(f1, f2, ScanTo(f1, f2, GRID_POINTS).roots, where, GRID_POINTS)
      && ((exists w :: Account(f1, f2, roots, w, GRID_POINTS)) ==> roots == ScanTo(f1, f2, GRID_POINTS).roots)
  {
    hide Account, ScanTo, Poly;
    var f1, f2 := Poly(a, 1, NC), Poly(a, -1, NC);
    where := ScanAccount(f1, f2, GRID_POINTS);
    if w :| Account(f1, f2, roots, w, GRID_POINTS) {
      AccountIsUnique(f1, f2, roots, w, ScanTo(f1, f2, GRID_POINTS).roots, where, GRID_POINTS);
    }
  }

  /** So it falls back on the old values only when the polynomial of the next root has one
      strict sign from the last root found down to the end of the grid. */
  lemma FallsBackWithout(a: Predictor) returns (where: seq<nat>)
    ensures var f1, f2 := Poly(a, 1, NC), Poly(a, -1, NC);
      var roots := ScanTo(f1, f2, GRID_POINTS).roots;
      && |where| == |roots|
      && (|roots| < M ==>
            forall i: nat :: Begin(where, |roots|) < i <= GRID_POINTS ==>
              Agree(ValueAt(f1, f2, roots, where, |roots|, Begin(where, |roots|)),
                    Value(Grid(i), Side(f1, f2, |roots|))))
  {
    hide ScanTo, Poly, Value, Grid, FoundFirst;
    where := AzLspFindsAll(a, []);
    var f1, f2 := Poly(a, 1, NC), Poly(a, -1, NC);
    var roots := ScanTo(f1, f2, GRID_POINTS).roots;
    if |roots| < M {
      forall i: nat | Begin(where, |roots|) < i <= GRID_POINTS
        ensures ValueAt(f1, f2, roots, where, |roots|, i) == Value(Grid(i), Side(f1, f2, |roots|))
      {
      }
      assert OneSign(f1, f2, roots, where, |roots|, GRID_POINTS);
    }
  }
}
