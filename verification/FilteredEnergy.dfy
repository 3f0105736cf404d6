/** What the matrix of cor_h means: its sums over signed pulses are the energy of the pulses
    filtered by the scaled impulse response. */
module FilteredEnergy {
  import opened FixedPoint
  import opened PulseStages
  import opened CorrelationMatrix
  import opened ChainEnergy
  import Auto = Autocorrelation
  import TwoPulseSearch
  import GreedySearch

  // ----- one entry -----

  /** For every response and every sign vector: an entry off the diagonal is the rounded lag
      sum t itself for equal signs and -t for unlike ones, but for a unit in 2^14 lost to the
      squared sign 0.99997 and the rounding down. */
  lemma EntryIs(g: Corr, sign: Corr, i: Pos, j: Pos)
    requires i != j && SignVector(sign)
    ensures var t := Rounded(Wrap32(Auto.Lag(g, if i < j then j - i else i - j, 40 - (if i < j then j else i)))) as int;
      Entry(g, sign, i, j) as int == if sign[i] == sign[j] then t + (0 - t) / 0x4000 else t / 0x8000 - t
  {
    hide Auto.Lag, Rounded, Wrap32, Signed;
    var lo, hi := if i < j then i else j, if i < j then j else i;
    var t := Rounded(Wrap32(Auto.Lag(g, hi - lo, 40 - hi)));
    EntryOffDiagonal(g, sign, lo, hi);
    SignedIs(t, sign[lo], sign[hi]);
  }

  lemma SignedIs(t: Word16, a: Word16, b: Word16)
    requires a == 32767 || a == -32767
    requires b == 32767 || b == -32767
    ensures Signed(t, a, b) as int == if a == b then (t as int) + (0 - t as int) / 0x4000 else (t as int) / 0x8000 - t
  {
    if a == b {
      assert a * b / 0x8000 == 32766;
      LessOne(t);
    } else {
      assert a * b / 0x8000 == -32767;
      MinusOne(t);
    }
  }

  lemma LessOne(t: Word16)
    ensures Wrap16((t as int) * 32766 / 0x8000) as int == (t as int) + (0 - t as int) / 0x4000
  {
  }

  lemma MinusOne(t: Word16)
    ensures Wrap16((t as int) * -32767 / 0x8000) as int == (t as int) / 0x8000 - t
  {
  }

  // ----- the filtered pulses -----

  function Times(a: int, b: int): int { a * b }

  /** The response with zeros on either side. */
  function Tap(g: Corr, n: int): int { if 0 <= n < 40 then g[n] else 0 }

  /** A sign as a factor. */
  function Unit(a: Word16): int { if a > 0 then 1 else -1 }

  /** Sample n of the signed pulses v filtered by g. */
  function Filtered(g: Corr, sign: Corr, v: seq<Pos>, n: int): int {
    if v == [] then 0
    else
      var q := v[|v| - 1];
      Filtered(g, sign, v[..|v| - 1], n) + Times(Unit(sign[q]), Tap(g, n - q))
  }

  /** Its energy over the first m samples. */
  function EnergyOf(g: Corr, sign: Corr, v: seq<Pos>, m: nat): int {
    if m == 0 then 0
    else EnergyOf(g, sign, v, m - 1) + Times(Filtered(g, sign, v, m - 1), Filtered(g, sign, v, m - 1))
  }

  /** The product of the responses begun at p and q. */
  function Overlap(g: Corr, p: Pos, q: Pos, m: nat): int {
    if m == 0 then 0 else Overlap(g, p, q, m - 1) + Times(Tap(g, m - 1 - p), Tap(g, m - 1 - q))
  }

  /** The product of the filtered pulses with the response begun at q. */
  function Mixed(g: Corr, sign: Corr, v: seq<Pos>, q: Pos, m: nat): int {
    if m == 0 then 0 else Mixed(g, sign, v, q, m - 1) + Times(Filtered(g, sign, v, m - 1), Tap(g, m - 1 - q))
  }

  /** The same pulse by pulse. */
  function Overlaps(g: Corr, sign: Corr, v: seq<Pos>, q: Pos, m: nat): int {
    if v == [] then 0
    else
      var p := v[|v| - 1];
      Overlaps(g, sign, v[..|v| - 1], q, m) + Times(Unit(sign[p]), Overlap(g, p, q, m))
  }

  lemma OneMore(g: Corr, sign: Corr, v: seq<Pos>, q: Pos, n: int)
    ensures Filtered(g, sign, v + [q], n) == Filtered(g, sign, v, n) + Times(Unit(sign[q]), Tap(g, n - q))
  {
    assert (v + [q])[..|v|] == v;
  }

  lemma {:induction false} MixedOfNone(g: Corr, sign: Corr, q: Pos, m: nat)
    ensures Mixed(g, sign, [], q, m) == 0
  {
    if m > 0 { MixedOfNone(g, sign, q, m - 1); }
  }

  lemma {:induction false} MixedStep(g: Corr, sign: Corr, v: seq<Pos>, p: Pos, q: Pos, m: nat)
    ensures Mixed(g, sign, v + [p], q, m) == Mixed(g, sign, v, q, m) + Times(Unit(sign[p]), Overlap(g, p, q, m))
  {
    hide Times, Tap, Filtered, Unit;
    if m == 0 {
      TimesZero(Unit(sign[p]));
    } else {
      MixedStep(g, sign, v, p, q, m - 1);
      OneMore(g, sign, v, p, m - 1);
      Distribute(Filtered(g, sign, v, m - 1), Unit(sign[p]), Tap(g, m - 1 - p), Tap(g, m - 1 - q),
                 Overlap(g, p, q, m - 1));
    }
  }

  lemma TimesZero(a: int)
    ensures Times(a, 0) == 0
  {
  }

  lemma Distribute(f: int, s: int, x: int, y: int, o: int)
    ensures Times(f + Times(s, x), y) == Times(f, y) + Times(s, Times(x, y))
    ensures Times(s, o + Times(x, y)) == Times(s, o) + Times(s, Times(x, y))
  {
    assert (s * x) * y == s * (x * y);
  }

  lemma {:induction false} MixedIsOverlaps(g: Corr, sign: Corr, v: seq<Pos>, q: Pos, m: nat)
    ensures Mixed(g, sign, v, q, m) == Overlaps(g, sign, v, q, m)
  {
    hide Times;
    if v == [] {
      MixedOfNone(g, sign, q, m);
    } else {
      var u, p := v[..|v| - 1], v[|v| - 1];
      assert v == u + [p];
      MixedIsOverlaps(g, sign, u, q, m);
      MixedStep(g, sign, u, p, q, m);
    }
  }

  /** One more pulse adds its own energy and twice its overlap with the others. */
  lemma {:induction false} EnergyStep(g: Corr, sign: Corr, v: seq<Pos>, q: Pos, m: nat)
    ensures EnergyOf(g, sign, v + [q], m)
         == EnergyOf(g, sign, v, m) + Overlap(g, q, q, m) + 2 * Times(Unit(sign[q]), Mixed(g, sign, v, q, m))
  {
    hide Times, Tap, Filtered;
    if m == 0 {
      TimesZero(Unit(sign[q]));
    } else {
      EnergyStep(g, sign, v, q, m - 1);
      OneMore(g, sign, v, q, m - 1);
      SquareOfSum(Filtered(g, sign, v, m - 1), Unit(sign[q]), Tap(g, m - 1 - q), Mixed(g, sign, v, q, m - 1));
    }
  }

  lemma SquareOfSum(f: int, s: int, x: int, o: int)
    requires s == 1 || s == -1
    ensures Times(f + Times(s, x), f + Times(s, x)) == Times(f, f) + Times(x, x) + 2 * Times(s, Times(f, x))
    ensures Times(s, o + Times(f, x)) == Times(s, o) + Times(s, Times(f, x))
  {
    assert (f + x) * (f + x) == f * f + 2 * (f * x) + x * x;
    assert (f - x) * (f - x) == f * f - 2 * (f * x) + x * x;
  }

  // ----- overlaps are lags -----

  lemma {:induction false} OverlapIsLag(g: Corr, p: Pos, q: Pos, m: nat)
    requires p <= q && m <= 40
    ensures Overlap(g, p, q, m) == if m <= q then 0 else Auto.Lag(g, q - p, m - q)
  {
    if m > 0 { OverlapIsLag(g, p, q, m - 1); }
  }

  lemma {:induction false} OverlapCommutes(g: Corr, p: Pos, q: Pos, m: nat)
    ensures Overlap(g, p, q, m) == Overlap(g, q, p, m)
  {
    if m > 0 {
      OverlapCommutes(g, p, q, m - 1);
      assert Times(Tap(g, m - 1 - p), Tap(g, m - 1 - q)) == Times(Tap(g, m - 1 - q), Tap(g, m - 1 - p));
    }
  }

  lemma {:induction false} OverlapIsEnergy(g: Corr, p: Pos, m: nat)
    requires m <= 40
    ensures Overlap(g, p, p, m) == if m <= p then 0 else Auto.Energy(g, m - p)
  {
    if m > 0 { OverlapIsEnergy(g, p, m - 1); }
  }

  // ----- the matrix -----

  lemma DiagonalNear(g: Corr, sign: Corr, p: Pos)
    requires CorrelationMatrix.Energy(g) + 0x4000 < 0x4000_0000
    ensures -16384 <= 0x8000 * (Entry(g, sign, p, p) as int) - Overlap(g, p, p, 40) <= 16384
  {
    hide Auto.Energy, Rounded, Wrap32, Overlap;
    Auto.EnergyGrows(g, 40 - p, 40);
    OverlapIsEnergy(g, p, 40);
    EntryOnDiagonal(g, sign, p);
    RoundedNear(Auto.Energy(g, 40 - p));
  }

  lemma OffDiagonalNear(g: Corr, sign: Corr, p: Pos, q: Pos)
    requires p != q && CorrelationMatrix.Energy(g) + 0x4000 < 0x4000_0000 && SignVector(sign)
    ensures var e := 0x8000 * (Entry(g, sign, p, q) as int)
                     - Times(Times(Unit(sign[p]), Unit(sign[q])), Overlap(g, p, q, 40));
            -81920 <= e <= 81920
  {
    hide Auto.Energy, Auto.Lag, Rounded, Wrap32, Overlap, Entry;
    var lo, hi := if p < q then p else q, if p < q then q else p;
    OverlapCommutes(g, p, q, 40);
    OverlapIsLag(g, lo, hi, 40);
    var lag := Auto.Lag(g, hi - lo, 40 - hi);
    Auto.LagBound(g, hi - lo, 40 - hi);
    Auto.EnergyGrows(g, 40 - hi, 40);
    Auto.EnergyGrows(g, 40 - lo, 40);
    RoundedNear(lag);
    EntryIs(g, sign, p, q);
    NearSigned(Rounded(lag), lag, Unit(sign[p]), Unit(sign[q]), Entry(g, sign, p, q));
  }

  lemma NearSigned(t: Word16, lag: int, a: int, b: int, e: int)
    requires lag - 16384 <= 0x8000 * (t as int) <= lag + 16384
    requires (a == 1 || a == -1) && (b == 1 || b == -1)
    requires e == if a == b then (t as int) + (0 - t as int) / 0x4000 else (t as int) / 0x8000 - t
    ensures -81920 <= 0x8000 * e - Times(Times(a, b), lag) <= 81920
  {
    if a == b {
      assert Times(a, b) == 1 && Times(1, lag) == lag;
    } else {
      assert Times(a, b) == -1 && Times(-1, lag) == -lag;
    }
  }

  /** The cross terms of one more pulse. */
  lemma {:induction false} CrossNear(g: Corr, sign: Corr, rr: Matrix, v: seq<Pos>, q: Pos)
    requires CorrelationMatrix.Energy(g) + 0x4000 < 0x4000_0000 && SignVector(sign)
    requires forall i: Pos, j: Pos :: rr[i][j] == Entry(g, sign, i, j)
    ensures -81920 * |v| <= 0x8000 * Cross(rr, v, q) - Times(Unit(sign[q]), Overlaps(g, sign, v, q, 40)) <= 81920 * |v|
  {
    hide Times, Entry, Overlap;
    if v == [] {
      TimesZero(Unit(sign[q]));
    } else {
      var u, p := v[..|v| - 1], v[|v| - 1];
      CrossNear(g, sign, rr, u, q);
      AnyEntryNear(g, sign, p, q);
      assert rr[p][q] == Entry(g, sign, p, q);
      Spread(Unit(sign[q]), Overlaps(g, sign, u, q, 40), Unit(sign[p]), Overlap(g, p, q, 40));
    }
  }

  lemma Spread(s: int, a: int, t: int, o: int)
    ensures Times(s, a + Times(t, o)) == Times(s, a) + Times(Times(t, s), o)
  {
    assert s * (t * o) == (t * s) * o;
  }

  lemma AnyEntryNear(g: Corr, sign: Corr, p: Pos, q: Pos)
    requires CorrelationMatrix.Energy(g) + 0x4000 < 0x4000_0000 && SignVector(sign)
    ensures var e := 0x8000 * (Entry(g, sign, p, q) as int)
                     - Times(Times(Unit(sign[p]), Unit(sign[q])), Overlap(g, p, q, 40));
            -81920 <= e <= 81920
  {
    hide Entry, Overlap;
    if p == q {
      DiagonalNear(g, sign, p);
      assert Times(Unit(sign[p]), Unit(sign[p])) == 1;
      assert Times(1, Overlap(g, p, p, 40)) == Overlap(g, p, p, 40);
    } else {
      OffDiagonalNear(g, sign, p, q);
    }
  }

  function Slack(n: nat): nat { if n == 0 then 0 else Slack(n - 1) + 16384 + 2 * 81920 * (n - 1) }

  /** The sum of the matrix over any pulses is the energy of the filtered signed pulses, in
      units of 2^15, up to the rounding of the entries. */
  lemma {:induction false} GramNear(g: Corr, sign: Corr, rr: Matrix, v: seq<Pos>)
    requires CorrelationMatrix.Energy(g) + 0x4000 < 0x4000_0000 && SignVector(sign)
    requires forall i: Pos, j: Pos :: rr[i][j] == Entry(g, sign, i, j)
    ensures -(Slack(|v|) as int) <= 0x8000 * Gram(rr, v) - EnergyOf(g, sign, v, 40) <= Slack(|v|)
  {
    hide Times, Entry, Overlap, Overlaps, Cross, EnergyOf;
    if v == [] {
      NoEnergy(g, sign, 40);
    } else {
      var u, q := v[..|v| - 1], v[|v| - 1];
      assert v == u + [q];
      GramNear(g, sign, rr, u);
      CrossNear(g, sign, rr, u, q);
      DiagonalNear(g, sign, q);
      assert rr[q][q] == Entry(g, sign, q, q);
      EnergyStep(g, sign, u, q, 40);
      MixedIsOverlaps(g, sign, u, q, 40);
    }
  }

  lemma {:induction false} NoEnergy(g: Corr, sign: Corr, m: nat)
    ensures EnergyOf(g, sign, [], m) == 0
  {
    if m > 0 { NoEnergy(g, sign, m - 1); }
  }

  lemma Slacks()
    ensures Slack(2) == 6 * 0x8000 && 2 * Slack(3) == 33 * 0x8000 && Slack(4) == 32 * 0x8000
  {
    assert Slack(1) == 16384;
  }

  // ----- what the searches compare -----

  /** For a well measured response the energy of two signed pulses is what the exhaustive
      searches score, within eight units of the matrix. */
  lemma PairEnergyMeans(h: Corr, sign: Corr, dn: Corr, p: (Pos, Pos))
    requires WellMeasured(h) && SignVector(sign)
    ensures var e := 4 * (TwoPulseSearch.PairScore(dn, Correlations(h, sign), p).alp as int) * 0x8000
                     - EnergyOf(Scaled(h), sign, [p.0, p.1], 40);
            -8 * 0x8000 <= e <= 8 * 0x8000
  {
    hide Scaled, Entry, EnergyOf, TwoPulseSearch.PairScore, Gram;
    ScaledEnergy(h);
    PairScoreIs(dn, Correlations(h, sign), p);
    GramNear(Scaled(h), sign, Correlations(h, sign), [p.0, p.1]);
    Slacks();
  }

  /** The energy of the signed pulses of a chain, within fifty units. */
  lemma ChainEnergyMeans(book: GreedySearch.Book, h: Corr, sign: Corr, dn: Corr, c: nat, u: nat)
    requires WellMeasured(h) && SignVector(sign) && c < book.Configs() && u < 8
    ensures GreedySearch.InTracks(GreedySearch.Starts(book, c))
    ensures var rr := Correlations(h, sign);
      var t, ipos := GreedySearch.ChainAt(book, dn, rr, c, u), GreedySearch.Starts(book, c);
      var e := 16 * (t.score.alp as int) * 0x8000 - EnergyOf(Scaled(h), sign, t.tag, 40);
      EveryStageKeeps(dn, rr, ipos, GreedySearch.FirstPulse(ipos, u)) ==>
        -50 * 0x8000 <= e <= 50 * 0x8000
  {
    hide Scaled, Entry, EnergyOf, GreedySearch.Grow, GreedySearch.Starts, Gram, EveryStageKeeps, Total;
    ScaledEnergy(h);
    ChainScoreIs(book, dn, Correlations(h, sign), c, u);
    GramNear(Scaled(h), sign, Correlations(h, sign), GreedySearch.ChainAt(book, dn, Correlations(h, sign), c, u).tag);
    Slacks();
  }

  /** The matrix is symmetric, so the sums above are over all pairs of pulses. */
  lemma MatrixIsSymmetric(h: Corr, sign: Corr)
    ensures Symmetric(Correlations(h, sign))
  {
    hide Scaled, OffDiagonal;
  }
}
