/** Windowed autocorrelation with dynamic scaling (Autocorr). The sums are plain wrapping
    32-bit arithmetic; what keeps them meaningful is proved here, and exactly when the
    rescaling test is fooled. */
module Autocorrelation {
  import opened FixedPoint
  import opened Kernel

  const L_WINDOW := 240

  type Signal = s: seq<Word16> | |s| == 240 witness seq(240, _ => 0)

  // ----- specification -----

  function Window(x: Word16, w: Word16): Word16 { Wrap16((x * w + 0x4000) / 0x8000) }

  function Product(a: int, b: int): int { a * b }

  /** The exact energy of the first n samples. */
  function Energy(y: seq<Word16>, n: nat): (e: nat)
    requires n <= |y|
  {
    if n == 0 then 0
    else
      SquareNonNegative(y[n - 1]);
      Energy(y, n - 1) + Product(y[n - 1], y[n - 1])
  }

  lemma SquareNonNegative(a: int)
    ensures Product(a, a) >= 0
  {
    if a >= 0 { MulMono(0, a, a); } else { MulMono(0, -a, -a); }
  }

  function Windowed(x: Signal, wind: Signal): Signal {
    seq(240, i requires 0 <= i < 240 => Window(x[i], wind[i]))
  }

  /** The signal after one pass of `y[i] >>= 2`. */
  function Quartered(y: Signal): Signal {
    seq(240, i requires 0 <= i < 240 => y[i] / 4)
  }

  /** What one rescaling pass computes from its (rescaled) signal and tests for > 0. */
  function PassSum(y: Signal): Word32 { Wrap32(2 * Energy(y, L_WINDOW) + 1) }

  /** The scaled signal, the shift applied to its energy and the 32-bit value accepted as
      twice its energy plus one. */
  datatype Scaled = Scaled(y: Signal, shift: int, sum: Word32)

  predicate Overflows(y: Signal) { 2 * Energy(y, L_WINDOW) > MAX_32 }

  function Scale(y: Signal): Scaled {
    if !Overflows(y) then Scaled(y, 0, PassSum(y))
    else
      var once := Quartered(y);
      if PassSum(once) > 0 then Scaled(once, 4, PassSum(once))
      else
        var twice := Quartered(once);
        Scaled(twice, 8, PassSum(twice))
  }

  /** The exact sum of the first n products at lag i. */
  function Lag(y: seq<Word16>, i: nat, n: nat): int
    requires n + i <= |y|
  {
    if n == 0 then 0 else Lag(y, i, n - 1) + Product(y[n - 1], y[n - 1 + i])
  }

  function FullLag(y: Signal, i: nat): int {
    if i <= L_WINDOW then Lag(y, i, L_WINDOW - i) else 0
  }

  /** The normalised 32-bit lag i: r[0] from the accepted sum, the others from the signal. */
  function Normalised(s: Scaled, i: nat): Word32 {
    if i == 0 then Wrap32(s.sum * Pow2(NormL(s.sum)))
    else Wrap32(Wrap32(FullLag(s.y, i)) * Pow2(NormL(s.sum) + 1))
  }

  // ----- the rescaling loop stops after at most two passes -----

  lemma {:induction false} EnergyBound(y: seq<Word16>, n: nat, m: nat)
    requires n <= |y| && forall j :: 0 <= j < n ==> 0 - m <= y[j] <= m
    ensures Energy(y, n) <= n * (m * m)
  {
    if n > 0 {
      EnergyBound(y, n - 1, m);
      MulBounds(y[n - 1], y[n - 1], m, m);
    }
  }

  lemma TwicePassesSuffice(y: Signal)
    ensures 2 * Energy(Quartered(Quartered(y)), L_WINDOW) + 1 <= MAX_32
    ensures PassSum(Quartered(Quartered(y))) == 2 * Energy(Quartered(Quartered(y)), L_WINDOW) + 1 > 0
  {
    EnergyBound(Quartered(Quartered(y)), L_WINDOW, 2048);
  }

  // ----- Cauchy-Schwarz -----

  /** Twice a lag is bounded by the energies of the two stretches it multiplies. */
  lemma {:induction false} LagBound(y: seq<Word16>, i: nat, n: nat)
    requires n + i <= |y|
    ensures Energy(y, i) <= Energy(y, n + i)
    ensures Energy(y, i) - Energy(y, n) - Energy(y, n + i) <= 2 * Lag(y, i, n)
         <= Energy(y, n) + Energy(y, n + i) - Energy(y, i)
  {
    hide Product;
    if n > 0 {
      LagBound(y, i, n - 1);
      SquareNonNegative(y[n - 1 + i]);
      TwiceProduct(y[n - 1], y[n - 1 + i]);
    }
  }

  lemma TwiceProduct(a: int, b: int)
    ensures -(Product(a, a) + Product(b, b)) <= 2 * Product(a, b) <= Product(a, a) + Product(b, b)
  {
    SquareNonNegative(a + b);
    SquareNonNegative(a - b);
    assert (a + b) * (a + b) == a * a + 2 * (a * b) + b * b;
    assert (a - b) * (a - b) == a * a - 2 * (a * b) + b * b;
  }

  lemma {:induction false} EnergyGrows(y: seq<Word16>, n: nat, m: nat)
    requires n <= m <= |y|
    ensures Energy(y, n) <= Energy(y, m)
  {
    if n < m { EnergyGrows(y, n, m - 1); }
  }

  lemma LagAtMostEnergy(y: Signal, i: nat)
    ensures 0 - Energy(y, L_WINDOW) <= FullLag(y, i) <= Energy(y, L_WINDOW)
  {
    hide Product;
    if i <= L_WINDOW {
      LagBound(y, i, L_WINDOW - i);
      EnergyGrows(y, L_WINDOW - i, L_WINDOW);
    }
  }

  // ----- the main results -----

  /** The accepted sum is the exact energy. */
  predicate Exact(s: Scaled) { s.sum == 2 * Energy(s.y, L_WINDOW) + 1 }

  /** The first, wrapping test is never fooled; the rescaling test is fooled exactly when
      the energy after one pass is at least 2^31 and has a zero in bit 30. */
  lemma ExactUnlessFooled(y: Signal)
    ensures var e1 := Energy(Quartered(y), L_WINDOW);
      Exact(Scale(y)) <==> !(Overflows(y) && e1 >= 0x8000_0000 && e1 % 0x8000_0000 < 0x4000_0000)
    ensures Scale(y).sum > 0 && Scale(y).shift in {0, 4, 8}
  {
    TwicePassesSuffice(y);
    FooledWhen(Energy(Quartered(y), L_WINDOW));
  }

  lemma FooledWhen(e: nat)
    ensures (Wrap32(2 * e + 1) > 0 && 2 * e + 1 > MAX_32) <==> (e >= 0x8000_0000 && e % 0x8000_0000 < 0x4000_0000)
    ensures 2 * e + 1 <= MAX_32 ==> Wrap32(2 * e + 1) == 2 * e + 1
  {
    hide Wrap32;
    var q, r := e / 0x8000_0000, e % 0x8000_0000;
    assert e == q * 0x8000_0000 + r;
    var m := Wrapped32(2 * e + 1);
    if r < 0x4000_0000 {
      assert m == -q;
    } else {
      assert m == -q - 1;
    }
  }

  /** With an exact energy no lag wraps, every normalised lag is strictly smaller in
      magnitude than the normalised r[0], and the (hi, lo) pair of lags 1 and up holds the
      scaled lag exactly. */
  lemma NormalisedLags(s: Scaled, i: nat)
    requires Exact(s) && s.sum > 0 && i >= 1
    ensures var r0, r := Normalised(s, 0), Normalised(s, i);
      && r0 == s.sum * Pow2(NormL(s.sum)) && Normalized(r0)
      && r == FullLag(s.y, i) * Pow2(NormL(s.sum) + 1)
      && -r0 < r < r0
      && LComp(ExtractHi(r), ExtractLo(r)) == r
  {
    hide FullLag, Energy, Wrap32, NormL, ExtractHi, ExtractLo;
    LagAtMostEnergy(s.y, i);
    ScaledLag(FullLag(s.y, i), Energy(s.y, L_WINDOW), s.sum, NormL(s.sum));
    ExtractThenCompose(Normalised(s, i));
  }

  lemma ScaledLag(lag: int, e: nat, sum: Word32, n: nat)
    requires 0 - e <= lag <= e && sum == 2 * e + 1 && Normalized(sum * Pow2(n))
    ensures sum > 0 && Wrap32(sum * Pow2(n)) == sum * Pow2(n)
    ensures Wrap32(Wrap32(lag) * Pow2(n + 1)) == lag * Pow2(n + 1)
    ensures -(sum * Pow2(n)) < lag * Pow2(n + 1) < sum * Pow2(n)
    ensures (lag * Pow2(n + 1)) % 2 == 0
  {
    var p := Pow2(n);
    MulSign(sum, p);
    ShiftedLag(lag, e, p);
    EvenProduct(lag, p);
    assert Wrap32(lag) == lag;
    InRange(sum * p);
    InRange(lag * Pow2(n + 1));
  }

  lemma InRange(v: int)
    requires MIN_32 <= v <= MAX_32
    ensures Wrap32(v) == v
  {
  }

  lemma ShiftedLag(lag: int, e: nat, p: int)
    requires 0 - e <= lag <= e && p >= 1
    ensures -((2 * e + 1) * p) < lag * (2 * p) < (2 * e + 1) * p
  {
    MulMono(2 * lag, 2 * e, p);
    MulMono(0 - 2 * e, 2 * lag, p);
    assert lag * (2 * p) == (2 * lag) * p;
    assert (2 * e + 1) * p == (2 * e) * p + p;
    assert (0 - 2 * e) * p == -((2 * e) * p);
  }

  lemma EvenProduct(lag: int, p: int)
    ensures (lag * (2 * p)) % 2 == 0
  {
    assert lag * (2 * p) == 2 * (lag * p);
  }

  // ----- the code -----

  /** The windowing loop: stops at the first sample where twice the energy leaves 31 bits. */
  method WindowPass(x: Signal, wind: Signal, y: array<Word16>) returns (i: nat, sum: Word32)
    requires y.Length == L_WINDOW
    modifies y
    ensures i <= L_WINDOW && y[..i] == Windowed(x, wind)[..i]
    ensures i == L_WINDOW ==> sum == 2 * Energy(Windowed(x, wind), L_WINDOW)
    ensures i < L_WINDOW ==> 2 * Energy(Windowed(x, wind), i + 1) > MAX_32
    ensures i == L_WINDOW <==> !Overflows(Windowed(x, wind))
  {
    ghost var z := Windowed(x, wind);
    hide Energy, Product;
    sum, i := 0, 0;
    EnergyStart(z);
    while i < L_WINDOW
      invariant i <= L_WINDOW && y[..i] == z[..i]
      invariant 0 <= sum == 2 * Energy(z, i)
    {
      y[i] := Window(x[i], wind[i]);
      EnergyStep(z, i);
      FirstCrossing(sum, y[i], Energy(z, i + 1));
      sum := Wrap32(sum + Wrap32(2 * Product(y[i], y[i])));
      if sum < 0 {
        EnergyGrows(z, i + 1, L_WINDOW);
        return;
      }
      i := i + 1;
    }
  }

  lemma EnergyStart(y: seq<Word16>)
    ensures Energy(y, 0) == 0
  {
  }

  lemma EnergyStep(y: seq<Word16>, n: nat)
    requires n < |y|
    ensures Energy(y, n + 1) == Energy(y, n) + Product(y[n], y[n])
  {
  }

  /** The wrapped sum turns negative exactly when the true one leaves the 32-bit range:
      one squared sample is too small to carry it all the way round. */
  lemma FirstCrossing(sum: Word32, a: Word16, e: nat)
    requires 0 <= sum && sum + 2 * Product(a, a) == 2 * e
    ensures var next := Wrap32(sum + Wrap32(2 * Product(a, a)));
      if 2 * e <= MAX_32 then next == 2 * e else next < 0
  {
    ProductRange(a, a);
    SquareNonNegative(a);
    ReducedSum(sum, Product(a, a));
  }

  lemma ReducedSum(sum: Word32, p: int)
    requires 0 <= sum && 0 <= p <= 0x4000_0000
    ensures var next := Wrap32(sum + Wrap32(2 * p));
      if sum + 2 * p <= MAX_32 then next == sum + 2 * p else next < 0
  {
  }

  /** One rescaling pass. */
  method RescalePass(y: array<Word16>) returns (sum: Word32)
    requires y.Length == L_WINDOW
    modifies y
    ensures y[..] == Quartered(old(y[..])) && sum == PassSum(y[..])
  {
    ghost var z := Quartered(y[..]);
    hide Energy, Product;
    sum := 0;
    EnergyStart(z);
    for i := 0 to L_WINDOW
      invariant forall j :: 0 <= j < i ==> y[j] == z[j]
      invariant forall j :: i <= j < L_WINDOW ==> y[j] == old(y[j])
      invariant sum == Wrap32(Energy(z, i))
    {
      y[i] := y[i] / 4;
      EnergyStep(z, i);
      WrapAdd(Energy(z, i), Product(z[i], z[i]));
      sum := Wrap32(sum + Product(y[i], y[i]));
    }
    assert y[..] == z;
    WrapTwice(Energy(z, L_WINDOW));
    sum := Wrap32(2 * sum);
    sum := Wrap32(sum + 1);
  }

  lemma WrapAdd(a: int, b: int)
    ensures Wrap32(Wrap32(a) + b) == Wrap32(a + b)
  {
    var m := Wrapped32(a);
    WrapPeriod(a + b, m);
  }

  lemma WrapPeriod(x: int, m: int)
    ensures Wrap32(x + m * 0x1_0000_0000) == Wrap32(x)
  {
    assert (x + m * 0x1_0000_0000 + 0x8000_0000) % 0x1_0000_0000 == (x + 0x8000_0000) % 0x1_0000_0000;
  }

  lemma WrapTwice(a: int)
    ensures Wrap32(Wrap32(2 * Wrap32(a)) + 1) == Wrap32(2 * a + 1)
  {
    var m := Wrapped32(a);
    WrapPeriod(2 * a, 2 * m);
    WrapAdd(2 * a, 1);
  }

  /** Windowing, overflow detection and the `while (1)` rescaling loop. */
  method ScaleSignal(x: Signal, wind: Signal, y: array<Word16>) returns (shift: int, sum: Word32)
    requires y.Length == L_WINDOW
    modifies y
    ensures Scaled(y[..], shift, sum) == Scale(Windowed(x, wind))
  {
    hide Energy, Windowed, Quartered;
    ghost var z := Windowed(x, wind);
    var i;
    i, sum := WindowPass(x, wind, y);
    shift := 0;
    if i != L_WINDOW {
      FillWindow(x, wind, y, i);
      TwicePassesSuffice(z);
      while true
        invariant shift == 0 || shift == 4
        invariant y[..] == (if shift == 0 then z else Quartered(z))
        invariant shift == 4 ==> PassSum(Quartered(z)) <= 0
        decreases 8 - shift
      {
        shift := shift + 4;
        sum := RescalePass(y);
        if sum > 0 {
          break;
        }
      }
    } else {
      assert y[..] == z;
      sum := sum + 1;
    }
  }

  method FillWindow(x: Signal, wind: Signal, y: array<Word16>, start: nat)
    requires y.Length == L_WINDOW && start <= L_WINDOW && y[..start] == Windowed(x, wind)[..start]
    modifies y
    ensures y[..] == Windowed(x, wind)
  {
    ghost var z := Windowed(x, wind);
    assert forall j :: 0 <= j < start ==> y[j] == y[..start][j] == z[j];
    for i := start to L_WINDOW
      invariant forall j :: 0 <= j < i ==> y[j] == z[j]
    {
      y[i] := Window(x[i], wind[i]);
    }
  }

  /** One lag: the wrapping sum of products. */
  method LagSum(y: Signal, i: nat) returns (sum: Word32)
    ensures sum == Wrap32(FullLag(y, i))
  {
    hide Product;
    sum := 0;
    var j := 0;
    while j < L_WINDOW - i
      invariant 0 <= j && (i <= L_WINDOW ==> j <= L_WINDOW - i) && (i > L_WINDOW ==> j == 0)
      invariant i <= L_WINDOW ==> sum == Wrap32(Lag(y, i, j))
      invariant i > L_WINDOW ==> sum == 0
    {
      WrapAdd(Lag(y, i, j), Product(y[j], y[j + i]));
      sum := Wrap32(sum + Product(y[j], y[j + i]));
      j := j + 1;
    }
  }

  method Autocorr(x: Signal, m: nat, rh: array<Word16>, rl: array<Word16>, wind: Signal) returns (norm: int)
    requires m < rh.Length && m < rl.Length && rh != rl
    modifies rh, rl
    ensures var s := Scale(Windowed(x, wind));
      && norm == NormL(s.sum) - s.shift
      && forall i :: 0 <= i <= m ==>
           rh[i] == ExtractHi(Normalised(s, i)) && rl[i] == ExtractLo(Normalised(s, i))
  {
    hide Energy, Windowed, Scale, FullLag, ExtractHi, ExtractLo;
    var y := new Word16[L_WINDOW];
    var shift, sum := ScaleSignal(x, wind, y);
    ghost var s := Scale(Windowed(x, wind));
    var n := NormL(sum);
    sum := Wrap32(sum * Pow2(n));
    rh[0], rl[0] := ExtractHi(sum), ExtractLo(sum);
    for i := 1 to m + 1
      invariant y[..] == s.y
      invariant forall k :: 0 <= k < i ==>
        rh[k] == ExtractHi(Normalised(s, k)) && rl[k] == ExtractLo(Normalised(s, k))
    {
      sum := LagSum(y[..], i);
      sum := Wrap32(sum * Pow2(n + 1));
      rh[i], rl[i] := ExtractHi(sum), ExtractLo(sum);
    }
    norm := n - shift;
  }

  // ----- a signal on which the rescaling test is fooled -----

  /** Samples 165 to 204 of window_200_40, ten a row. */
  function WindowRow(i: nat): (r: seq<Word16>)
    ensures |r| == 10
  {
    if i == 0 then [30597, 30718, 30836, 30950, 31062, 31170, 31274, 31376, 31474, 31568]
    else if i == 1 then [31659, 31747, 31831, 31911, 31988, 32062, 32132, 32198, 32261, 32320]
    else if i == 2 then [32376, 32428, 32476, 32521, 32561, 32599, 32632, 32662, 32688, 32711]
    else [32729, 32744, 32755, 32763, 32767, 32767, 32741, 32665, 32537, 32359]
  }

  /** Forty samples that this stretch of the window turns into 29312. */
  function SignalRow(i: nat): (r: seq<Word16>)
    ensures |r| == 10
  {
    if i == 0 then [31392, 31268, 31149, 31034, 30922, 30815, 30712, 30612, 30517, 30426]
    else if i == 1 then [30339, 30255, 30175, 30099, 30027, 29957, 29892, 29831, 29773, 29718]
    else if i == 2 then [29667, 29619, 29576, 29535, 29498, 29464, 29434, 29407, 29384, 29363]
    else [29347, 29333, 29324, 29316, 29313, 29313, 29336, 29404, 29520, 29682]
  }

  lemma BurstProducts(k: nat, j: nat)
    requires k < 4 && j < 10
    ensures Window(SignalRow(k)[j], WindowRow(k)[j]) == 29312
  {
    if k == 0 { BurstRow0(j); } else if k == 1 { BurstRow1(j); } else if k == 2 { BurstRow2(j); } else { BurstRow3(j); }
  }

  lemma WindowIs(x: Word16, w: Word16, v: Word16)
    requires 0x8000 * (v as int) <= (x as int) * w + 0x4000 < 0x8000 * (v as int + 1)
    ensures Window(x, w) == v
  {
    EuclidUnique(x * w + 0x4000, 0x8000, v, x * w + 0x4000 - 0x8000 * v);
  }

  lemma BurstRow0(j: nat)
    requires j < 10
    ensures Window(SignalRow(0)[j], WindowRow(0)[j]) == 29312
  {
    var x, w := SignalRow(0)[j], WindowRow(0)[j];
    assert 0x8000 * 29312 <= (x as int) * w + 0x4000 < 0x8000 * 29313;
    WindowIs(x, w, 29312);
  }

  lemma BurstRow1(j: nat)
    requires j < 10
    ensures Window(SignalRow(1)[j], WindowRow(1)[j]) == 29312
  {
    var x, w := SignalRow(1)[j], WindowRow(1)[j];
    assert 0x8000 * 29312 <= (x as int) * w + 0x4000 < 0x8000 * 29313;
    WindowIs(x, w, 29312);
  }

  lemma BurstRow2(j: nat)
    requires j < 10
    ensures Window(SignalRow(2)[j], WindowRow(2)[j]) == 29312
  {
    var x, w := SignalRow(2)[j], WindowRow(2)[j];
    assert 0x8000 * 29312 <= (x as int) * w + 0x4000 < 0x8000 * 29313;
    WindowIs(x, w, 29312);
  }

  lemma BurstRow3(j: nat)
    requires j < 10
    ensures Window(SignalRow(3)[j], WindowRow(3)[j]) == 29312
  {
    var x, w := SignalRow(3)[j], WindowRow(3)[j];
    assert 0x8000 * 29312 <= (x as int) * w + 0x4000 < 0x8000 * 29313;
    WindowIs(x, w, 29312);
  }

  /** Forty equal samples from 165 on, zeros elsewhere. */
  predicate Burst(y: Signal, c: Word16) {
    forall j :: 0 <= j < 240 ==> y[j] == if 165 <= j < 205 then c else 0
  }

  lemma {:induction false} BurstEnergy(y: Signal, n: nat, c: Word16)
    requires n <= L_WINDOW && Burst(y, c)
    ensures Energy(y, n) == (if n < 165 then 0 else if n < 205 then n - 165 else 40) * (c * c)
  {
    if n > 0 {
      BurstEnergy(y, n - 1, c);
      Distribute(n - 166, c * c);
    }
  }

  lemma Distribute(n: int, k: int)
    ensures (n + 1) * k == n * k + k
  {
  }

  /** Under the codec's own window a burst of forty samples is accepted after one pass
      with 999425 in place of 4295966721. */
  lemma FooledByBurst(x: Signal, wind: Signal)
    requires forall k, j :: 0 <= k < 4 && 0 <= j < 10 ==>
      wind[165 + 10 * k + j] == WindowRow(k)[j] && x[165 + 10 * k + j] == SignalRow(k)[j]
    requires forall j :: 0 <= j < 240 && !(165 <= j < 205) ==> x[j] == 0
    ensures var s := Scale(Windowed(x, wind));
      s.shift == 4 && s.sum == 999425 && 2 * Energy(s.y, L_WINDOW) + 1 == 4295966721 && !Exact(s)
  {
    hide Scale, Exact, Energy, WindowRow, SignalRow, Window;
    forall j | 0 <= j < 240
      ensures Windowed(x, wind)[j] == if 165 <= j < 205 then 29312 else 0
    {
      if 165 <= j < 205 {
        var k, i := (j - 165) / 10, (j - 165) % 10;
        assert j == 165 + 10 * k + i;
        assert wind[165 + 10 * k + i] == WindowRow(k)[i];
        BurstProducts(k, i);
      } else {
        SilentSample(wind[j]);
      }
    }
    FooledByBurstOf29312(Windowed(x, wind));
  }

  lemma SilentSample(w: Word16)
    ensures Window(0, w) == 0
  {
  }

  lemma FooledByBurstOf29312(y: Signal)
    requires Burst(y, 29312)
    ensures var s := Scale(y);
      s.shift == 4 && s.sum == 999425 && 2 * Energy(s.y, L_WINDOW) + 1 == 4295966721 && !Exact(s)
  {
    hide Energy;
    BurstEnergy(y, L_WINDOW, 29312);
    BurstEnergy(Quartered(y), L_WINDOW, 7328);
  }
}
