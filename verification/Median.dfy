/** The n-point median (gmed_n): n rounds of picking the largest remaining value and
    striking it out, and exactly when the middle pick is the median. */
module Median {
  import opened FixedPoint

  // ----- the selection, as the two loops make it -----

  datatype Best = Best(max: Word16, ix: nat)

  /** One scan over the first n values: the last of the largest ones above -32768, or the
      index left over from the previous round. */
  function Scan(t: seq<Word16>, ix: nat, n: nat): (b: Best)
    requires n <= |t| && ix < |t|
    ensures b.ix < |t|
  {
    if n == 0 then Best(-32767, ix)
    else
      var b := Scan(t, ix, n - 1);
      if t[n - 1] >= b.max then Best(t[n - 1], n - 1) else b
  }

  /** The values not yet struck out and the index picked last. */
  datatype Round = Round(t: seq<Word16>, ix: nat)

  function Select(ind: seq<Word16>, i: nat): (r: Round)
    requires |ind| > 0
    ensures |r.t| == |ind| && r.ix < |ind|
  {
    if i == 0 then Round(ind, 0)
    else
      var r := Select(ind, i - 1);
      var b := Scan(r.t, r.ix, |ind|);
      Round(r.t[b.ix := MIN_16], b.ix)
  }

  function MedianOf(ind: seq<Word16>): Word16
    requires |ind| > 0
  {
    ind[Select(ind, |ind| / 2 + 1).ix]
  }

  /** One run of the inner loop. */
  method ScanAll(tmp2: array<Word16>, ix0: nat) returns (ix: nat)
    requires ix0 < tmp2.Length
    ensures ix < tmp2.Length && ix == Scan(tmp2[..], ix0, tmp2.Length).ix
  {
    ix := ix0;
    var max: Word16 := -32767;
    for j := 0 to tmp2.Length
      invariant ix < tmp2.Length && Best(max, ix) == Scan(tmp2[..], ix0, j)
    {
      if tmp2[j] >= max {
        max, ix := tmp2[j], j;
      }
    }
  }

  /** gmed_n */
  method Gmed(ind: array<Word16>, from: nat, n: nat) returns (m: Word16)
    requires 1 <= n <= 9 && n % 2 == 1 && from + n <= ind.Length
    ensures m == MedianOf(ind[from..from + n])
  {
    hide Scan;
    var tmp, tmp2 := new nat[n](_ => 0), new Word16[n];
    for i := 0 to n
      invariant forall j :: 0 <= j < i ==> tmp2[j] == ind[from + j]
    {
      tmp2[i] := ind[from + i];
    }
    ghost var values := ind[from..from + n];
    assert tmp2[..] == values;
    var ix := 0;
    for i := 0 to n
      invariant ix < n && Round(tmp2[..], ix) == Select(values, i)
      invariant forall j :: 0 <= j < i ==> tmp[j] == Select(values, j + 1).ix
    {
      ix := ScanAll(tmp2, ix);
      tmp2[ix] := MIN_16;
      tmp[i] := ix;
    }
    m := ind[from + tmp[n / 2]];
  }

  // ----- what the picked value is -----

  function Above(s: seq<Word16>, v: int): nat {
    if s == [] then 0 else Above(s[..|s| - 1], v) + if s[|s| - 1] > v then 1 else 0
  }

  function Below(s: seq<Word16>, v: int): nat {
    if s == [] then 0 else Below(s[..|s| - 1], v) + if s[|s| - 1] < v then 1 else 0
  }

  /** At most half of the values lie on either side. */
  predicate IsMedian(s: seq<Word16>, m: Word16) {
    m in s && Above(s, m) <= |s| / 2 && Below(s, m) <= |s| / 2
  }

  predicate AllStruck(t: seq<Word16>, n: nat)
    requires n <= |t|
  {
    forall j :: 0 <= j < n ==> t[j] == MIN_16
  }

  /** A scan finds an unstruck maximum if there is one and keeps the old index if not. */
  lemma {:induction false} ScanIs(t: seq<Word16>, ix: nat, n: nat)
    requires n <= |t| && ix < |t|
    ensures forall j :: 0 <= j < n && t[j] != MIN_16 ==> t[j] <= Scan(t, ix, n).max
    ensures AllStruck(t, n) ==> Scan(t, ix, n) == Best(-32767, ix)
    ensures !AllStruck(t, n) ==> t[Scan(t, ix, n).ix] == Scan(t, ix, n).max > MIN_16
    ensures Scan(t, ix, n).max > MIN_16
  {
    if n > 0 { ScanIs(t, ix, n - 1); }
  }

  /** After i rounds: t is the input with the picked values struck out, everything struck
      out is at least as large as everything left, and nothing struck out is below the
      last pick. */
  predicate Selected(ind: seq<Word16>, t: seq<Word16>, ix: nat) {
    && |t| == |ind| && ix < |ind|
    && (forall j :: 0 <= j < |t| ==> t[j] == ind[j] || t[j] == MIN_16)
    && (forall j, k :: 0 <= j < |t| && 0 <= k < |t| && t[j] != ind[j] && t[k] == ind[k] ==> ind[j] >= ind[k])
    && (forall j :: 0 <= j < |t| && t[j] != ind[j] ==> ind[j] >= ind[ix])
  }

  /** Striking out the largest value left keeps all of this. */
  lemma StrikeLargest(ind: seq<Word16>, t: seq<Word16>, ix: nat, k: nat)
    requires Selected(ind, t, ix) && k < |t| && t[k] != MIN_16
    requires forall j :: 0 <= j < |t| && t[j] != MIN_16 ==> t[j] <= t[k]
    ensures Selected(ind, t[k := MIN_16], k)
  {
    var u := t[k := MIN_16];
    forall i, j | 0 <= i < |u| && 0 <= j < |u| && u[i] != ind[i] && u[j] == ind[j]
      ensures ind[i] >= ind[j]
    {
      if i == k { assert t[j] == ind[j]; } else { assert t[i] != ind[i]; }
    }
  }

  lemma {:induction false} SelectIs(ind: seq<Word16>, i: nat)
    requires |ind| > 0
    ensures Selected(ind, Select(ind, i).t, Select(ind, i).ix)
    ensures Above(Select(ind, i).t, MIN_16) == if i < Above(ind, MIN_16) then Above(ind, MIN_16) - i else 0
    ensures i > 0 && Above(ind, MIN_16) > 0 ==> ind[Select(ind, i).ix] > MIN_16
    ensures i == 0 || Above(ind, MIN_16) == 0 ==> Select(ind, i).ix == 0
  {
    hide Scan, Selected, Above, AllStruck;
    if i == 0 {
      assert Selected(ind, ind, 0) by { Untouched(ind); }
    } else {
      SelectIs(ind, i - 1);
      var r := Select(ind, i - 1);
      ScanIs(r.t, r.ix, |ind|);
      StruckMeansZero(r.t);
      var b := Scan(r.t, r.ix, |ind|);
      if AllStruck(r.t, |r.t|) {
        NothingToStrike(r.t, b.ix);
      } else {
        StrikeOut(r.t, b.ix);
        StrikeLargest(ind, r.t, r.ix, b.ix);
        FromInput(ind, r.t, r.ix, b.ix);
      }
    }
  }

  lemma Untouched(ind: seq<Word16>)
    requires |ind| > 0
    ensures Selected(ind, ind, 0)
  {
  }

  lemma FromInput(ind: seq<Word16>, t: seq<Word16>, ix: nat, k: nat)
    requires Selected(ind, t, ix) && k < |t| && t[k] > MIN_16
    ensures ind[k] == t[k]
  {
  }

  lemma NothingToStrike(t: seq<Word16>, k: nat)
    requires k < |t| && AllStruck(t, |t|)
    ensures t[k := MIN_16] == t
  {
  }

  lemma StruckMeansZero(t: seq<Word16>)
    ensures Above(t, MIN_16) == 0 <==> AllStruck(t, |t|)
  {
    CountZero(t, |t|);
  }

  lemma {:induction false} CountZero(t: seq<Word16>, n: nat)
    requires n <= |t|
    ensures Above(t[..n], MIN_16) == 0 <==> forall j :: 0 <= j < n ==> t[j] == MIN_16
    ensures t[..|t|] == t
  {
    if n > 0 {
      CountZero(t, n - 1);
      assert t[..n][..n - 1] == t[..n - 1];
    }
  }

  lemma {:induction false} StrikeOut(t: seq<Word16>, k: nat)
    requires k < |t| && t[k] != MIN_16
    ensures Above(t[k := MIN_16], MIN_16) == Above(t, MIN_16) - 1
  {
    var n := |t| - 1;
    if k < n {
      StrikeOut(t[..n], k);
      assert t[k := MIN_16][..n] == t[..n][k := MIN_16];
    } else {
      assert t[k := MIN_16][..n] == t[..n];
    }
  }

  /** What is above the pick has been struck out before. */
  lemma {:induction false} AboveStruck(s: seq<Word16>, t: seq<Word16>, v: Word16)
    requires |s| == |t| && v > MIN_16
    requires forall j :: 0 <= j < |s| ==> t[j] == s[j] || t[j] == MIN_16
    requires forall j :: 0 <= j < |s| && s[j] > v ==> t[j] == MIN_16
    ensures Above(s, v) + Above(t, MIN_16) <= Above(s, MIN_16)
  {
    if s != [] { AboveStruck(s[..|s| - 1], t[..|t| - 1], v); }
  }

  /** What is below the pick has not been struck out yet. */
  lemma {:induction false} BelowLeft(s: seq<Word16>, t: seq<Word16>, v: Word16)
    requires |s| == |t| && v > MIN_16
    requires forall j :: 0 <= j < |s| && s[j] < v ==> t[j] == s[j]
    ensures Below(s, v) <= |s| - Above(s, MIN_16) + Above(t, MIN_16)
    ensures Above(s, MIN_16) <= |s|
  {
    if s != [] { BelowLeft(s[..|s| - 1], t[..|t| - 1], v); }
  }

  lemma {:induction false} MinsBelow(s: seq<Word16>, v: Word16)
    requires v > MIN_16
    ensures Below(s, v) >= |s| - Above(s, MIN_16)
  {
    if s != [] { MinsBelow(s[..|s| - 1], v); }
  }

  lemma {:induction false} AllMins(s: seq<Word16>)
    requires Above(s, MIN_16) == 0
    ensures Below(s, MIN_16) == 0
  {
    if s != [] { AllMins(s[..|s| - 1]); }
  }

  /** gmed_n returns the median exactly when -32768, which it uses as the mark of a struck
      out value, makes up at most half of the input, or all of it. */
  lemma MedianExactly(ind: seq<Word16>)
    requires |ind| % 2 == 1
    ensures IsMedian(ind, MedianOf(ind)) <==> Above(ind, MIN_16) > |ind| / 2 || Above(ind, MIN_16) == 0
  {
    hide Select, Above, Below;
    var half := |ind| / 2;
    var m := ind[Select(ind, half + 1).ix];
    SelectIs(ind, half + 1);
    if Above(ind, MIN_16) == 0 {
      AllMins(ind);
      StruckMeansZero(ind);
    } else if Above(ind, MIN_16) > half {
      MiddlePick(ind, half);
    } else {
      MinsBelow(ind, m);
    }
  }

  lemma MiddlePick(ind: seq<Word16>, half: nat)
    requires |ind| == 2 * half + 1 && Above(ind, MIN_16) > half
    ensures IsMedian(ind, ind[Select(ind, half + 1).ix])
  {
    hide Select, Above, Below, Selected;
    var m := ind[Select(ind, half + 1).ix];
    SelectIs(ind, half);
    SelectIs(ind, half + 1);
    Picked(ind, half);
    AboveStruck(ind, Select(ind, half).t, m);
    BelowLeft(ind, Select(ind, half + 1).t, m);
  }

  lemma Picked(ind: seq<Word16>, half: nat)
    requires |ind| > 0 && Above(ind, MIN_16) > half
    ensures var m := ind[Select(ind, half + 1).ix];
            && m > MIN_16
            && (forall j :: 0 <= j < |ind| ==> Select(ind, half).t[j] in {ind[j], MIN_16})
            && (forall j :: 0 <= j < |ind| && ind[j] > m ==> Select(ind, half).t[j] == MIN_16)
            && (forall j :: 0 <= j < |ind| && ind[j] < m ==> Select(ind, half + 1).t[j] == ind[j])
  {
    hide Above, Scan;
    SelectIs(ind, half);
    SelectIs(ind, half + 1);
    var r0 := Select(ind, half);
    ScanIs(r0.t, r0.ix, |ind|);
    StruckMeansZero(r0.t);
  }
}
