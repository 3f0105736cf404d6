/** Background noise and voicing characterisation (Bgn_scd): the frame energy, the noise
    hangover and the voicing hangover, over whole runs of frames. */
module NoiseDetector {
  import opened FixedPoint
  import opened Median
  import Autocorrelation
  import GainControl

  const L_FRAME := 160
  const L_ENERGYHIST := 60
  const FRAMEENERGYLIMIT: Word16 := 17578
  const LOWERNOISELIMIT: Word16 := 20
  const UPPERNOISELIMIT: Word16 := 1953

  type Speech = s: seq<Word16> | |s| == 160 witness seq(160, _ => 0)
  type Gains = s: seq<Word16> | |s| == 9 witness seq(9, _ => 0)
  type Energies = s: seq<Word16> | |s| == 60 witness seq(60, _ => 0)

  // ----- the frame energy -----

  function SquareSum(x: seq<Word16>, n: nat): Word32
    requires n <= |x|
  {
    if n == 0 then 0 else LMac(SquareSum(x, n - 1), x[n - 1], x[n - 1])
  }

  function FrameEnergy(x: Speech): Word16 { ExtractH(LShl(SquareSum(x, L_FRAME), 2)) }

  lemma {:induction false} SquareSumIs(x: seq<Word16>, n: nat)
    requires n <= |x|
    ensures SquareSum(x, n) == Sat32(2 * Autocorrelation.Energy(x, n))
  {
    hide LMac, Autocorrelation.Product;
    if n > 0 {
      SquareSumIs(x, n - 1);
      GainControl.NextSquare(SquareSum(x, n - 1), Autocorrelation.Energy(x, n - 1), x[n - 1]);
    }
  }

  /** The saturating sum and shift leave the energy divided by 8192, clipped. */
  lemma FrameEnergyIs(x: Speech)
    ensures FrameEnergy(x) == Sat16(Autocorrelation.Energy(x, L_FRAME) / 8192)
    ensures 0 <= FrameEnergy(x)
  {
    hide SquareSum, Autocorrelation.Energy, LShl;
    SquareSumIs(x, L_FRAME);
    LShlSaturates(SquareSum(x, L_FRAME), 2);
    assert Pow2(2) == 4 by { assert Pow2(1) == 2; }
  }

  // ----- the noise decision -----

  function Least(h: seq<Word16>, n: nat): Word16
    requires n <= |h|
  {
    if n == 0 then 32767
    else if Sub(h[n - 1], Least(h, n - 1)) < 0 then h[n - 1] else Least(h, n - 1)
  }

  /** The largest of h[from..n]. */
  function Largest(h: seq<Word16>, from: nat, n: nat): Word16
    requires from < n <= |h|
  {
    if n == from + 1 then h[from]
    else if Sub(Largest(h, from, n - 1), h[n - 1]) < 0 then h[n - 1]
    else Largest(h, from, n - 1)
  }

  lemma {:induction false} LeastIs(h: seq<Word16>, n: nat)
    requires n <= |h|
    ensures forall i :: 0 <= i < n ==> Least(h, n) <= h[i]
    ensures Least(h, n) == 32767 || exists i :: 0 <= i < n && h[i] == Least(h, n)
  {
    if n > 0 { LeastIs(h, n - 1); }
  }

  lemma {:induction false} LargestIs(h: seq<Word16>, from: nat, n: nat)
    requires from < n <= |h|
    ensures forall i :: from <= i < n ==> h[i] <= Largest(h, from, n)
    ensures exists i :: from <= i < n && h[i] == Largest(h, from, n)
  {
    if n > from + 1 {
      LargestIs(h, from, n - 1);
    } else {
      assert h[from] == Largest(h, from, n);
    }
  }

  /** The test that lengthens the noise hangover. */
  predicate Noisy(h: Energies, e: Word16) {
    && Sub(Largest(h, 0, L_ENERGYHIST - 4), LOWERNOISELIMIT) > 0
    && Sub(e, FRAMEENERGYLIMIT) < 0
    && Sub(e, LOWERNOISELIMIT) > 0
    && (Sub(e, Shl(Least(h, L_ENERGYHIST), 4)) < 0
        || Sub(Largest(h, 2 * L_ENERGYHIST / 3, L_ENERGYHIST), UPPERNOISELIMIT) < 0)
  }

  predicate LoudBefore(h: Energies) { exists i :: 0 <= i < 56 && h[i] > LOWERNOISELIMIT }

  predicate NearFloor(h: Energies, e: Word16) { forall i :: 0 <= i < 60 ==> e < 16 * (h[i] as int) }

  predicate QuietLately(h: Energies) { forall i :: 40 <= i < 60 ==> h[i] < UPPERNOISELIMIT }

  /** The test without its folds and saturations: some energy but the last four was
      audible, this one is audible and not loud, and it is either less than 16 times
      every remembered energy or follows twenty energies below the upper limit. */
  lemma NoisyIs(h: Energies, e: Word16)
    ensures Noisy(h, e) <==>
            LoudBefore(h) && LOWERNOISELIMIT < e < FRAMEENERGYLIMIT && (NearFloor(h, e) || QuietLately(h))
  {
    hide Least, Largest, Shl;
    LargestIs(h, 0, 56);
    LargestIs(h, 40, 60);
    LeastIs(h, 60);
    var least := Least(h, 60);
    ShlSaturates(least, 4);
    assert Pow2(4) == 16;
    if LOWERNOISELIMIT < e < FRAMEENERGYLIMIT && Sub(e, Shl(least, 4)) < 0 {
      forall i | 0 <= i < 60
        ensures e < 16 * (h[i] as int)
      {
        assert least <= h[i];
      }
    }
  }

  // ----- the state machine -----

  datatype State = State(hist: Energies, bgHangover: Word16, voicedHangover: Word16)

  datatype Frame = Frame(ltpGainHist: Gains, speech: Speech)

  function NextHangover(s: State, e: Word16): Word16 {
    if !Noisy(s.hist, e) then 0
    else if Sub(Add(s.bgHangover, 1), 30) > 0 then 30
    else Add(s.bgHangover, 1)
  }

  /** The voicing threshold, tightened the longer the noise lasts. */
  function LtpLimit(hangover: Word16): Word16 {
    if hangover > 15 then 16383 else if hangover > 8 then 15565 else 13926
  }

  /** The median of the last five LTP gains, or of all nine in long noise, is above it. */
  predicate Voiced(ltp: Gains, hangover: Word16) {
    Sub(MedianOf(if Sub(hangover, 20) > 0 then ltp[0..9] else ltp[4..9]), LtpLimit(hangover)) > 0
  }

  function NextVoiced(v: Word16, voiced: bool): Word16 {
    if voiced then 0 else if Sub(Add(v, 1), 10) > 0 then 10 else Add(v, 1)
  }

  function Next(s: State, f: Frame): State {
    var e := FrameEnergy(f.speech);
    var b := NextHangover(s, e);
    State(s.hist[1..] + [e], b, NextVoiced(s.voicedHangover, Voiced(f.ltpGainHist, b)))
  }

  /** The decision returned for the frame that led to this state. */
  predicate InNoise(s: State) { s.bgHangover > 1 }

  class BgnScd {
    const frameEnergyHist: array<Word16>
    var bgHangover: Word16

    ghost predicate Valid()
      reads this, frameEnergyHist
    {
      frameEnergyHist.Length == L_ENERGYHIST
    }

    /** The state, with the caller's voicing hangover beside it. */
    ghost function Contents(voicedHangover: Word16): State
      requires Valid()
      reads this, frameEnergyHist
    {
      State(frameEnergyHist[..], bgHangover, voicedHangover)
    }

    /** Bgn_scd_reset */
    constructor ()
      ensures Valid() && fresh(frameEnergyHist)
      ensures Contents(0) == Start()
    {
      frameEnergyHist := new Word16[L_ENERGYHIST](_ => 0);
      bgHangover := 0;
    }

    method MinEnergy() returns (m: Word16)
      requires Valid()
      ensures m == Least(frameEnergyHist[..], L_ENERGYHIST)
    {
      m := 32767;
      for i := 0 to L_ENERGYHIST
        invariant m == Least(frameEnergyHist[..], i)
      {
        if Sub(frameEnergyHist[i], m) < 0 {
          m := frameEnergyHist[i];
        }
      }
    }

    method MaxEnergy(from: nat, to: nat) returns (m: Word16)
      requires Valid() && from < to <= L_ENERGYHIST
      ensures m == Largest(frameEnergyHist[..], from, to)
    {
      m := frameEnergyHist[from];
      for i := from + 1 to to
        invariant m == Largest(frameEnergyHist[..], from, i)
      {
        if Sub(m, frameEnergyHist[i]) < 0 {
          m := frameEnergyHist[i];
        }
      }
    }

    method Push(e: Word16)
      requires Valid()
      modifies frameEnergyHist
      ensures frameEnergyHist[..] == old(frameEnergyHist[..])[1..] + [e]
    {
      for i := 0 to L_ENERGYHIST - 1
        invariant forall j :: 0 <= j < i ==> frameEnergyHist[j] == old(frameEnergyHist[j + 1])
        invariant forall j :: i <= j < L_ENERGYHIST ==> frameEnergyHist[j] == old(frameEnergyHist[j])
      {
        frameEnergyHist[i] := frameEnergyHist[i + 1];
      }
      frameEnergyHist[L_ENERGYHIST - 1] := e;
      assert frameEnergyHist[..] == old(frameEnergyHist[..])[1..] + [e];
    }

    /** Bgn_scd; the voicing hangover belongs to the caller and goes in and out. */
    method Detect(ltpGainHist: array<Word16>, speech: array<Word16>, voicedHangover: Word16)
      returns (inbgNoise: bool, newVoicedHangover: Word16)
      requires Valid() && ltpGainHist.Length == 9 && speech.Length == L_FRAME
      requires ltpGainHist != frameEnergyHist && speech != frameEnergyHist
      modifies this, frameEnergyHist
      ensures Valid()
      ensures Contents(newVoicedHangover)
           == Next(old(Contents(voicedHangover)), Frame(old(ltpGainHist[..]), old(speech[..])))
      ensures inbgNoise == InNoise(Contents(newVoicedHangover))
    {
      hide Least, Largest, MedianOf, FrameEnergy;
      var currEnergy := ComputeFrameEnergy(speech);
      var frameEnergyMin := MinEnergy();
      var noiseFloor := Shl(frameEnergyMin, 4);
      var maxEnergy := MaxEnergy(0, L_ENERGYHIST - 4);
      var maxEnergyLastPart := MaxEnergy(2 * L_ENERGYHIST / 3, L_ENERGYHIST);
      if Sub(maxEnergy, LOWERNOISELIMIT) > 0 && Sub(currEnergy, FRAMEENERGYLIMIT) < 0
         && Sub(currEnergy, LOWERNOISELIMIT) > 0
         && (Sub(currEnergy, noiseFloor) < 0 || Sub(maxEnergyLastPart, UPPERNOISELIMIT) < 0)
      {
        bgHangover := if Sub(Add(bgHangover, 1), 30) > 0 then 30 else Add(bgHangover, 1);
      } else {
        bgHangover := 0;
      }
      assert bgHangover == NextHangover(old(Contents(voicedHangover)), currEnergy);
      inbgNoise := Sub(bgHangover, 1) > 0;
      Push(currEnergy);
      var voiced := DetectVoiced(ltpGainHist);
      newVoicedHangover := NextVoiced(voicedHangover, voiced);
    }

    /** The voicing decision with its two medians. */
    method DetectVoiced(ltpGainHist: array<Word16>) returns (prevVoiced: bool)
      requires ltpGainHist.Length == 9
      ensures prevVoiced == Voiced(ltpGainHist[..], bgHangover)
    {
      hide MedianOf;
      var ltpLimit: Word16 := 13926;
      if Sub(bgHangover, 8) > 0 {
        ltpLimit := 15565;
      }
      if Sub(bgHangover, 15) > 0 {
        ltpLimit := 16383;
      }
      var med := Gmed(ltpGainHist, 4, 5);
      assert ltpGainHist[4..9] == ltpGainHist[..][4..9];
      prevVoiced := Sub(med, ltpLimit) > 0;
      if Sub(bgHangover, 20) > 0 {
        med := Gmed(ltpGainHist, 0, 9);
        assert ltpGainHist[0..9] == ltpGainHist[..][0..9];
        prevVoiced := Sub(med, ltpLimit) > 0;
      }
    }
  }

  method ComputeFrameEnergy(speech: array<Word16>) returns (e: Word16)
    requires speech.Length == L_FRAME
    ensures e == FrameEnergy(speech[..])
  {
    hide LMac, LShl;
    var s: Word32 := 0;
    for i := 0 to L_FRAME
      invariant s == SquareSum(speech[..], i)
    {
      s := LMac(s, speech[i], speech[i]);
    }
    e := ExtractH(LShl(s, 2));
  }

  // ----- runs from reset -----

  function Start(): State { State(seq(60, _ => 0), 0, 0) }

  function After(fs: seq<Frame>): State {
    if fs == [] then Start() else Next(After(fs[..|fs| - 1]), fs[|fs| - 1])
  }

  /** The last frame of the run passed the noise test. */
  predicate Qualified(fs: seq<Frame>) {
    fs != [] && Noisy(After(fs[..|fs| - 1]).hist, FrameEnergy(fs[|fs| - 1].speech))
  }

  /** How many frames in a row, up to the last, passed it. */
  function Streak(fs: seq<Frame>): (n: nat)
    ensures n <= |fs|
  {
    if !Qualified(fs) then 0 else 1 + Streak(fs[..|fs| - 1])
  }

  predicate VoicedLast(fs: seq<Frame>)
    requires fs != []
  {
    Voiced(fs[|fs| - 1].ltpGainHist, After(fs).bgHangover)
  }

  /** Frames since the last voiced one, or since reset. */
  function SinceVoiced(fs: seq<Frame>): nat {
    if fs == [] || VoicedLast(fs) then 0 else 1 + SinceVoiced(fs[..|fs| - 1])
  }

  function AtMost(n: nat, limit: nat): nat { if n > limit then limit else n }

  /** Both hangovers are clipped counts, in every run. */
  lemma {:induction false} HangoversCount(fs: seq<Frame>)
    ensures After(fs).bgHangover == AtMost(Streak(fs), 30)
    ensures After(fs).voicedHangover == AtMost(SinceVoiced(fs), 10)
  {
    hide Noisy, FrameEnergy, Voiced;
    if fs != [] { HangoversCount(fs[..|fs| - 1]); }
  }

  /** The history is the last sixty frame energies, zeros before the start. */
  lemma {:induction false} HistoryIs(fs: seq<Frame>, i: nat)
    requires i < L_ENERGYHIST
    ensures After(fs).hist[L_ENERGYHIST - 1 - i] == if i < |fs| then FrameEnergy(fs[|fs| - 1 - i].speech) else 0
  {
    hide Noisy, FrameEnergy, Voiced;
    if fs != [] && i > 0 { HistoryIs(fs[..|fs| - 1], i - 1); }
  }

  /** A frame is flagged as noise exactly when it and its predecessor passed the test;
      none of the first six frames is. */
  lemma FlaggedMeans(fs: seq<Frame>)
    ensures InNoise(After(fs)) <==> Qualified(fs) && Qualified(fs[..|fs| - 1])
    ensures InNoise(After(fs)) ==> |fs| >= 7
  {
    hide After, Qualified;
    HangoversCount(fs);
    if Qualified(fs) {
      QualifiedLate(fs);
      if Qualified(fs[..|fs| - 1]) { QualifiedLate(fs[..|fs| - 1]); }
    } else if fs == [] {
      NothingYet();
    }
  }

  lemma NothingYet()
    ensures !Qualified([])
  {
  }

  /** The noise test needs an audible energy at least five frames old. */
  lemma QualifiedLate(fs: seq<Frame>)
    requires Qualified(fs)
    ensures |fs| >= 6
  {
    hide After, Noisy, FrameEnergy;
    var before := fs[..|fs| - 1];
    NoisyIs(After(before).hist, FrameEnergy(fs[|fs| - 1].speech));
    var i :| 0 <= i < 56 && After(before).hist[i] > LOWERNOISELIMIT;
    HistoryIs(before, L_ENERGYHIST - 1 - i);
  }

  // ----- the voicing decision by counts -----

  lemma {:induction false} CountsMonotone(s: seq<Word16>, v: int, w: int)
    requires v <= w
    ensures Above(s, w) <= Above(s, v)
  {
    if s != [] { CountsMonotone(s[..|s| - 1], v, w); }
  }

  lemma {:induction false} NotBelowIsAbove(s: seq<Word16>, v: int, w: int)
    requires v < w
    ensures |s| - Below(s, w) <= Above(s, v)
  {
    if s != [] { NotBelowIsAbove(s[..|s| - 1], v, w); }
  }

  lemma {:induction false} AllAboveMin(s: seq<Word16>)
    requires forall i :: 0 <= i < |s| ==> s[i] > MIN_16
    ensures Above(s, MIN_16) == |s|
  {
    if s != [] { AllAboveMin(s[..|s| - 1]); }
  }

  /** The median exceeds a limit exactly when more than half of the values do. */
  lemma MedianExceeds(s: seq<Word16>, limit: Word16)
    requires |s| % 2 == 1 && forall i :: 0 <= i < |s| ==> s[i] > MIN_16
    ensures MedianOf(s) > limit <==> Above(s, limit) > |s| / 2
  {
    hide MedianOf, Above, Below;
    AllAboveMin(s);
    MedianExactly(s);
    var m := MedianOf(s);
    if m > limit { NotBelowIsAbove(s, limit, m); } else { CountsMonotone(s, m, limit); }
  }

  predicate NoMinimum(ltp: Gains) { forall i :: 0 <= i < 9 ==> ltp[i] > MIN_16 }

  /** A frame is voiced exactly when three of its last five LTP gains, or after more than 20
      noise frames five of all nine, exceed 0.85, after 8 noise frames 0.95, after 15 1.0
      (in Q14). */
  lemma VoicedByCounts(ltp: Gains, hangover: Word16)
    requires NoMinimum(ltp)
    ensures hangover <= 8 ==> (Voiced(ltp, hangover) <==> Above(ltp[4..9], 13926) >= 3)
    ensures 8 < hangover <= 15 ==> (Voiced(ltp, hangover) <==> Above(ltp[4..9], 15565) >= 3)
    ensures 15 < hangover <= 20 ==> (Voiced(ltp, hangover) <==> Above(ltp[4..9], 16383) >= 3)
    ensures hangover > 20 ==> (Voiced(ltp, hangover) <==> Above(ltp, 16383) >= 5)
  {
    hide MedianOf, Above;
    assert ltp[0..9] == ltp;
    MedianExceeds(ltp[4..9], 13926);
    MedianExceeds(ltp[4..9], 15565);
    MedianExceeds(ltp[4..9], 16383);
    MedianExceeds(ltp, 16383);
  }

  /** In every run: the noise length that chooses limit and window is the number of frames in
      a row that passed the noise test, this one included. */
  lemma VoicedInRun(fs: seq<Frame>)
    requires fs != [] && NoMinimum(fs[|fs| - 1].ltpGainHist)
    ensures var ltp, n := fs[|fs| - 1].ltpGainHist, Streak(fs);
      VoicedLast(fs) <==>
        if n > 20 then Above(ltp, 16383) >= 5
        else Above(ltp[4..9], if n > 15 then 16383 else if n > 8 then 15565 else 13926) >= 3
  {
    hide Above, Voiced, After;
    HangoversCount(fs);
    VoicedByCounts(fs[|fs| - 1].ltpGainHist, After(fs).bgHangover);
  }
}
