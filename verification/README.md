# AMR-NB fixed-point codec: a verified model

This project models the AMR-NB speech codec in `siphon/amr-nb`, the fixed-point C code that
follows 3GPP TS 26.073, and proves what the code is for: that the algebraic codebook
searches return the best pulses they try, that pulses survive coding, transmission and
decoding, that the scaled autocorrelation is exact (and when it is not), that the root
search brackets its roots, that the step-down recursion stays stable, that gains stay
bounded, and what the frame-by-frame state machines remember.

`Word16` and `Word32` are bounded integers. The operators saturate or wrap exactly where
the C code does: `add`, `L_mac`, `round`, `shl` saturate, while plain `+`, `<<` and
narrowing assignments wrap in two's complement. Code that updates arrays and fields is
written as methods with loops and as classes; each method is proved equal to a function
of its inputs or of the old state, and the promised properties are proved about those
functions for all inputs or all runs.

| file | what it models |
|---|---|
| `FixedPoint.dfy`, `Kernel.dfy` | the operators, `norm_l`, `div_s`, `L_Extract`, `Mpy_32` |
| `RatioSearch.dfy`, `PulseStages.dfy` | the division-free ratio test and one search loop |
| `TwoPulseSearch.dfy`, `GreedySearch.dfy` | the 9-, 11-, 14- and 17-bit codebook searches |
| `ScanClasses.dfy`, `SearchOutcome.dfy`, `GreedyOutcome.dfy` | what the searches return with any energies |
| `ChainEnergy.dfy`, `FilteredEnergy.dfy` | what their scores stand for |
| `CorrelationMatrix.dfy`, `SearchWitness.dfy` | `cor_h`, and matrices on which a search goes wrong |
| `PulseCoding.dfy`, `FilteredCode.dfy`, `TenPulseCode.dfy` | `build_code` and the decoders of five codebooks |
| `BitStream.dfy`, `CodebookPath.dfy`, `Modes.dfy` | serial bits, and the whole way of a code vector |
| `PitchSharpening.dfy` | the sharpening of impulse response and code vector |
| `Autocorrelation.dfy`, `LagMeaning.dfy`, `WindowTables.dfy` | windowing, overflow detection, rescaling, lags |
| `Chebyshev.dfy`, `Chebps.dfy` | the Chebyshev series and its evaluation |
| `LspSearch.dfy`, `LspCompleteness.dfy`, `LspSecant.dfy` | `Az_lsp`, which roots it finds and how close |
| `LspWitness.dfy` | a predictor on which its slope wraps |
| `Reflection.dfy` | `A_Refl` |
| `InverseRoot.dfy` | `Inv_sqrt` |
| `GainControl.dfy`, `GainAccuracy.dfy` | `agc`, `agc2` |
| `GainAverage.dfy` | `Cb_gain_average` |
| `NoiseDetector.dfy`, `Median.dfy` | `Bgn_scd`, `gmed_n` |
| `ComfortNoise.dfy`, `NoisePeriod.dfy`, `Mersenne.dfy` | `pseudonoise`, `build_CN_code`, the period |

## Findings

* The rescaling test of `Autocorr` (`autocorr.c:114-123`) looks at the sign only after the
  whole, wrapping sum: it accepts a wrong energy exactly when the first pass overflowed,
  the energy after one rescaling is at least 2^31 and bit 30 of it is zero. A burst of
  forty samples under the window `window_200_40` is such an input
  (`Autocorrelation.ExactUnlessFooled`, `FooledByBurst`); a signal of at most half of full
  scale never is, under any of the three windows (`WindowTables.HalfScaleIsExact`).
* The odd value `0x01ffffff` at which the clip of `Chebps` (`az_lsp.c:139-142`) would
  return `MIN_16` instead of `MAX_16` is never reached: the accumulator is always even
  (`Chebps.FinalT0IsEven`).
* The searches rely on energies that are not negative. A negative energy displaces the
  start value exactly when the squared correlation is larger in magnitude, displaces a kept
  proper candidate exactly when either of the two has any correlation, and is not given up
  for a proper one. What removes it again is the start value (-1, 1) of an inner loop that
  kept nothing, exactly when its own squared correlation is smaller than its magnitude
  (`RatioSearch.NegativeEnergySticks`). Eight classes of scores are enough to follow all of
  this (`ScanClasses.KeptClass`). A search therefore returns the first best of the pairs, or
  chains, with a proper energy if and only if its own inner loop and the outcomes before it do
  not end on a negative energy, and every later outcome that has one is without correlation,
  as is the best one itself (`SearchOutcome.SearchExactly`, `GreedyOutcome.SearchExactly`).
  With a matrix that `cor_h` computes, the 11-bit search returns a negative energy for every
  target of at least 327 although it tries a proper pair (`SearchWitness.SearchMissesBest`).
* `cor_h` keeps the two-pulse energies non-negative for every response whose squares sum to
  less than 2^31 - 1, or to between 3 * 2^30 - 1 and 4294049859, where the doubled sum has
  wrapped to a negative value again: there the exhaustive search is optimal without any
  hypothesis on the matrix. At 2^31 - 1 itself the energy test takes the sum for zero, and a
  response that begins with 1.0 as the codec's do gives negative energies
  (`CorrelationMatrix.CodecSearchIsOptimal`, `LoudResponseFails`).
* The preset `codvec` (0, 1) of the two-pulse searches is not a codebook vector, and its sign
  word needs three bits (`PulseCoding.PresetIsNotLegal`). It is returned exactly when no inner
  loop ends on something that can replace the start value (`CodebookPath.ExhaustivePath`).
  With non-negative energies that means that no tried pair has a ratio, as with silent inputs
  (`ProperExhaustivePath`, `SilenceReturnsPreset`); otherwise it can come back although a pair
  has one (`SearchWitness.PresetDespiteRatio`, on a matrix not shown to come from `cor_h`).
* The 11-bit search tries pairs with both pulses on one position of track 1, and returns such
  a pair for a single dominant correlation (`SearchWitness.SearchReturnsCoincident`).
  `build_code` then writes the pulse once into the code vector but filters it twice: the
  filtered vector is the rounded convolution of code vector and response for every response
  if and only if the positions differ (`FilteredCode.LawExactly`).
* In the three- and four-pulse searches a stage that keeps nothing hands on no correlation and
  an energy of one unit, and the sums of the chain start again from there
  (`ChainEnergy.ChainScore`).
* In `Az_lsp` a bracket that is wide but nearly flat makes the 16-bit slope wrap and the
  interpolated root leave its bracket. While the difference of the values fits 16 bits, it
  stays inside if and only if the narrowed slope times the lower value is below 1024
  (`LspSearch.InterpolateInside`). For a wider difference the lemma only says the same thing
  modulo 2^16. A predictor whose
  first bracket fails the condition is given in `LspWitness.FirstRoot`.
* `agc2` leaves a signal unchanged that is matched against its own energy, but `agc` does
  not: for every smoothing factor a gain of 1.0 becomes 4095 / 4096 at the first sample and
  never comes back; with the factor in use it slides to 4089 / 4096
  (`GainControl.Agc2Transparent`, `UnityDrifts`, `UnityIsLost`, `DriftSettles`).
* `hangVar` in `Cb_gain_average` (`c_g_aver.c:198`) wraps: speech is recognised exactly while
  the number of consecutive distant frames, modulo 2^16, lies strictly between 10 and 2^15
  (`GainAverage.LongSpeechIsForgotten`, `EveryStreakOccurs`).
* `gmed_n` marks used values with -32768 and therefore returns the median exactly when
  -32768 makes up at most half of its input, or all of it (`Median.MedianExactly`).
* `L_shr` in `pseudonoise` copies the sign bit, so a seed with the sign bit set loses its
  contents within 31 steps; every other seed but zero has period 2^31 - 1
  (`ComfortNoise.NegativeSeedSaturates`, `NoisePeriod.ExactPeriod`).
* `c2_9pf.c` doubles the pitch gain with a plain shift, its siblings with a saturating
  one; they agree exactly for gains below 1.0 (`PitchSharpening.SameSharpness`).

## Model

| member | source | states |
|---|---|---|
| Kernel.Quotient | siphon/amr-nb/Sources/basicop2.c:367-415 | The Q15 quotient of `div_s`: the largest q with q * b <= a * 2^15, and 32767 for equal operands |
| Kernel.DivS | siphon/amr-nb/Sources/basicop2.c:384-414 | The 15-step shift-and-subtract loop computes that quotient, for every pair on which the original does not abort |
| FixedPoint.NormL | siphon/amr-nb/Headers/basic_op.h:305-316 | The shift count brings every nonzero value into the top octave |
| FixedPoint.LShlSaturates | siphon/amr-nb/Headers/basic_op.h:935-947 | Shift, shift back and compare is saturating multiplication by 2^n |
| FixedPoint.ShlSaturates | siphon/amr-nb/Headers/basic_op.h:846-858 | The same for 16 bits, also for counts that shift everything out |
| Kernel.NormalizeExact | siphon/amr-nb/Headers/basic_op.h:935-947 | `L_shl(x, norm_l(x))` never saturates and lands in the top octave |
| Kernel.NormUnique | siphon/amr-nb/Headers/basic_op.h:305-316 | `norm_l` is the only count that does so |
| Kernel.NormalizeShort | siphon/amr-nb/Headers/basic_op.h:271 | `norm_s` normalises 16-bit values without saturation |
| Kernel.ExtractThenCompose | siphon/amr-nb/Headers/oper_32b.h:30-50 | `L_Comp` after `L_Extract` clears the lowest bit and nothing else; the low part is never negative |
| Kernel.ComposeThenExtract | siphon/amr-nb/Headers/oper_32b.h:30-50 | `L_Extract` after `L_Comp` restores every pair with a non-negative low part |
| Kernel.Mpy32Error | siphon/amr-nb/Headers/oper_32b.h:121-143 | On pairs as `L_Extract` makes them the product is rounded down by less than 6 units, unless both high parts are -32768 |
| RatioSearch.TestIsExact | siphon/amr-nb/Sources/c2_11pf.c:261-269 | The test on `L_msu(L_mult(alp, sq1), sq, alp_16)` is the exact comparison of the cross products: saturation never changes its sign |
| RatioSearch.ChooseKeepsFirstBest | siphon/amr-nb/Sources/c2_11pf.c:235-285 | A scan with this test keeps the first candidate with the largest ratio, and its start value exactly when no candidate has a ratio |
| RatioSearch.FirstBestIsUnique | siphon/amr-nb/Sources/c2_11pf.c:261-269 | At most one candidate is first best, so the answer is determined |
| RatioSearch.NegativeEnergyEnters | siphon/amr-nb/Sources/c2_11pf.c:235-269 | A candidate replaces the start value if and only if squared correlation plus energy is positive |
| RatioSearch.NegativeEnergyDisplaces | siphon/amr-nb/Sources/c2_11pf.c:261-269 | A negative energy replaces a kept proper candidate if and only if either of the two has a nonzero squared correlation |
| RatioSearch.NegativeEnergySticks | siphon/amr-nb/Sources/c2_11pf.c:272-285 | Against proper candidates and outcomes that kept nothing: a kept negative energy stays if and only if its squared correlation is no smaller in magnitude or no such outcome follows; what replaces it is never another negative energy |
| RatioSearch.NegativeEnergiesExactly | siphon/amr-nb/Sources/c2_11pf.c:228-270 | One loop over tried positions, with any energies, keeps what it would keep without the negative ones if and only if each of them is passed over by its score and the scores before it |
| RatioSearch.ProperExactlyWhenHarmless | siphon/amr-nb/Sources/c2_11pf.c:228-270 | Such a loop keeps a non-negative energy if and only if all negative ones are harmless, and then the first best of the others, or the start value if none of them has a ratio |
| ScanClasses.NextIsExact | siphon/amr-nb/Sources/c2_11pf.c:261-285 | The class of a score, read off its signs, decides every comparison as far as the class of the outcome goes |
| ScanClasses.KeptClass | siphon/amr-nb/Sources/c2_11pf.c:226-286 | So the class of what any scan keeps, inner or outer, is a fold over the classes of its candidates |
| ScanClasses.StartSurvives | siphon/amr-nb/Sources/c2_11pf.c:226-286 | The start value survives a scan exactly when no candidate's class can replace it; otherwise the scan ends on a candidate |
| ScanClasses.BestKeptExactly | siphon/amr-nb/Sources/c2_11pf.c:226-286 | With any energies a scan ends on its first best proper candidate if and only if it is not on a negative energy when it gets there and no later one disturbs it |
| PulseStages.FirstStage | siphon/amr-nb/Sources/c2_11pf.c:228-270 | The i1 loop computes the specified scan of one track |
| PulseStages.SecondStage | siphon/amr-nb/Sources/c3_14pf.c:288-326 | The i2 loop, with the carried correlation and energy |
| PulseStages.ThirdStage | siphon/amr-nb/Sources/c4_17pf.c:333-377 | The i3 loop |
| PulseStages.StageIsOptimal | siphon/amr-nb/Sources/c4_17pf.c:261-377 | With non-negative energies a stage keeps the first position of its track with the largest ratio, or its preset if none has one |
| PulseStages.StageStaysOnTrack | siphon/amr-nb/Sources/c4_17pf.c:261-377 | Whatever the correlations, the position kept is on the stage's track |
| PulseStages.StageExactly | siphon/amr-nb/Sources/c4_17pf.c:261-377 | Without any hypothesis on the energies: the stage keeps the first best of the proper trials if and only if every negative energy is harmless |
| PulseStages.PairEnergyIs | siphon/amr-nb/Sources/c2_11pf.c:235-259 | For every matrix the scored two-pulse energy is (rr00 + rr11 + 2 rr01) / 4, rounded half up, without saturation |
| PulseStages.TripleEnergyIs | siphon/amr-nb/Sources/c3_14pf.c:303-316 | For every matrix and kept energy the scored energy with a third pulse is (4 alp + rr22 + 2 (rr02 + rr12)) / 16, rounded half up, without saturation |
| PulseStages.QuadrupleEnergyIs | siphon/amr-nb/Sources/c4_17pf.c:352-366 | With a fourth pulse it is (16 alp + rr33 + 2 (rr03 + rr13 + rr23)) / 16, rounded half up and clipped, for every energy a third stage can hand on |
| TwoPulseSearch.TryTracks | siphon/amr-nb/Sources/c2_11pf.c:226-286 | The i0 loop over one combination of tracks extends the scan by its eight groups |
| TwoPulseSearch.Search2i40Of11 | siphon/amr-nb/Sources/c2_11pf.c:189-289 | The 11-bit search writes the scan's winner over all eight track combinations |
| TwoPulseSearch.Search2i40Of9 | siphon/amr-nb/Sources/c2_9pf.c:207-303 | The 9-bit search, with the track pairs of the subframe |
| TwoPulseSearch.SearchIsOptimal | siphon/amr-nb/Sources/c2_11pf.c:203-288 | With non-negative energies the result is the first pair in scan order that maximises correlation^2 / energy over all pairs of all combinations; the preset is returned exactly when no pair has a ratio |
| SearchOutcome.StageClass | siphon/amr-nb/Sources/c4_17pf.c:261-377 | The class a stage ends on follows from the classes of its eight trials |
| SearchOutcome.SearchClass | siphon/amr-nb/Sources/c2_11pf.c:189-289 | The class of the exhaustive search's result follows from the classes of the tried pairs, group by group |
| SearchOutcome.PresetExactly | siphon/amr-nb/Sources/c2_11pf.c:203-288 | With any energies the preset comes back exactly when no group's outcome can replace the start value; otherwise the result is a pair of tried positions |
| SearchOutcome.SearchExactly | siphon/amr-nb/Sources/c2_11pf.c:203-288 | With any energies the search returns the first best of the pairs with a proper energy if and only if neither its group nor the groups before it end on a negative energy and no later group's does with correlation on either side; with no proper pair the result is never proper |
| SearchOutcome.CodecTracksDistinct | siphon/amr-nb/Sources/c2_9pf.c:232-233 | No combination of tracks is tried twice in either codebook, which that result assumes |
| SearchWitness.SearchMissesBest | siphon/amr-nb/Sources/c2_11pf.c:147-150 | With the matrix `cor_h` makes of a given response, the 11-bit search returns a negative energy for every target of at least 327, although the pair (38, 39) it tries is proper |
| SearchWitness.PresetDespiteRatio | siphon/amr-nb/Sources/c2_11pf.c:203-288 | Correlations and a matrix at which the preset comes back although the pair (1, 0) scores (122, 0) |
| SearchWitness.SearchReturnsCoincident | siphon/amr-nb/Sources/c2_11pf.c:189-289 | With the matrix of a response of one sample and a target with one correlation the 11-bit search returns (1, 1) |
| CorrelationMatrix.ScaleResponse | siphon/amr-nb/Sources/cor_h.c:175-198 | The wrapping energy test and the two ways of scaling the response |
| CorrelationMatrix.CorH | siphon/amr-nb/Sources/cor_h.c:165-220 | The loops along the diagonals fill the whole matrix with the rounded lag sums, signs folded in, both halves |
| FilteredEnergy.EntryIs | siphon/amr-nb/Sources/cor_h.c:213-217 | For every response and sign vector an entry off the diagonal is the rounded lag sum for equal signs and its negative for unlike ones, but for what the squared sign 0.99997 and the rounding lose |
| FilteredEnergy.GramNear | siphon/amr-nb/Sources/cor_h.c:155-163 | For a scaled response of less than unit energy the matrix summed over any pulses is the energy of the signed pulses filtered by it, up to the rounding of the entries |
| FilteredEnergy.PairEnergyMeans | siphon/amr-nb/Sources/cor_h.c:155-163 | So what the exhaustive search compares is the energy of the two filtered signed pulses, within eight units of the matrix |
| FilteredEnergy.ChainEnergyMeans | siphon/amr-nb/Sources/cor_h.c:155-163 | And that of three or four, within fifty |
| FilteredEnergy.MatrixIsSymmetric | siphon/amr-nb/Sources/cor_h.c:217-218 | The matrix is symmetric |
| CorrelationMatrix.ScalingNotBelow | siphon/amr-nb/Sources/cor_h.c:188-192 | The scaling factor is not more than two units below 0.99 over the root of the energy, unless clipped |
| CorrelationMatrix.ScaledSampleIs | siphon/amr-nb/Sources/cor_h.c:194-197 | A scaled sample is the sample times the factor over 64, rounded half up and clipped |
| CorrelationMatrix.ScaledEnergy | siphon/amr-nb/Sources/cor_h.c:175-198 | For squares that sum to less than 2^31 - 1, or to between 3 * 2^30 - 1 and 4294049859, the scaled response, halved or normalised, has an energy that rounds to less than 2^15 units |
| CorrelationMatrix.PairEnergyNonNegative | siphon/amr-nb/Sources/cor_h.c:200-219 | Then no pair of pulses has a negative energy, for any signs and any target |
| CorrelationMatrix.CodecSearchIsOptimal | siphon/amr-nb/Sources/c2_11pf.c:147-150 | So the two-pulse search over that matrix is optimal for every such response, every target and every sign vector |
| CorrelationMatrix.LoudResponseFails | siphon/amr-nb/Sources/cor_h.c:175-193 | The lower range cannot be extended: a response that begins with 4096 and whose squares sum to exactly 2^31 - 1 gives every two positions up to 34 and at least six apart a negative energy, for any target and signs |
| GreedySearch.TryPass | siphon/amr-nb/Sources/c3_14pf.c:230-345 | One pass keeps the best of the chains it grows |
| GreedySearch.TryRotations | siphon/amr-nb/Sources/c3_14pf.c:223-354 | The passes and cyclic permutations of one choice of tracks |
| GreedySearch.Search3i40 | siphon/amr-nb/Sources/c3_14pf.c:187-358 | The three-pulse search writes the best of all chains |
| GreedySearch.Search4i40 | siphon/amr-nb/Sources/c4_17pf.c:191-411 | The four-pulse search does |
| GreedySearch.SearchFillsEverySlot | siphon/amr-nb/Sources/c4_17pf.c:206-408 | Every result, the preset included, has one pulse in each index field, whatever the correlations |
| GreedySearch.SearchKeepsBestChain | siphon/amr-nb/Sources/c4_17pf.c:206-408 | With non-negative energies the kept chain is the first that no admitted chain of any rotation exceeds; the preset survives exactly when none has a ratio |
| ChainEnergy.ChainScore | siphon/amr-nb/Sources/c4_17pf.c:254-377 | For every matrix sixteen times the energy of a chain is the sum of own energies and doubled cross terms of its pulses, within -15 and 18, and its squared correlation is that of the clipped sum of correlations; after a stage that kept nothing both sums start anew |
| ChainEnergy.ChainScoreIs | siphon/amr-nb/Sources/c4_17pf.c:254-377 | The same for every chain the searches try |
| ChainEnergy.SearchGivesChain | siphon/amr-nb/Sources/c4_17pf.c:206-408 | The result of a search is the preset or such a chain |
| ChainEnergy.PairScoreIs | siphon/amr-nb/Sources/c2_11pf.c:228-259 | For two pulses, at four units to one |
| ChainEnergy.GramIsBlock | siphon/amr-nb/Sources/cor_h.c:155-163 | In a symmetric matrix that sum is the sum over all pairs of pulses |
| GreedyOutcome.ChainClassIs | siphon/amr-nb/Sources/c4_17pf.c:333-392 | The class of a chain follows from the classes of its last stage's trials |
| GreedyOutcome.SearchClass | siphon/amr-nb/Sources/c4_17pf.c:206-408 | The class of the three- and four-pulse results follows from the classes of the tried chains |
| GreedyOutcome.SearchExactly | siphon/amr-nb/Sources/c4_17pf.c:206-408 | With any energies the result is the first best of the admitted chains with a proper energy if and only if the chains before it do not end on a negative energy and no later one has one with correlation on either side |
| GreedyOutcome.PresetExactly | siphon/amr-nb/Sources/c4_17pf.c:206-408 | The preset survives exactly when no admitted chain can replace the start value |
| PulseCoding.PlacePulses | siphon/amr-nb/Sources/c4_17pf.c:431-476 | The loop over the pulses builds index word, sign word, code vector and filter signs |
| PulseCoding.FilterPulses | siphon/amr-nb/Sources/c2_11pf.c:377-386 | The loop over the samples accumulates one shifted response per pulse |
| PulseCoding.BuildCode | siphon/amr-nb/Sources/c2_11pf.c:300-389 | `build_code` of the four codebooks: both words, the code vector and the filtered vector |
| FilteredCode.FilteredIsConvolution | siphon/amr-nb/Sources/c2_11pf.c:377-386 | For pulses on different positions and a response too small to saturate, the filtered vector is the rounded convolution of code vector and response, and within one unit of the sum of the signed responses |
| FilteredCode.CoincidentPulses | siphon/amr-nb/Sources/c2_11pf.c:358-386 | With both pulses on one position the filtered vector holds it twice and the code vector once |
| FilteredCode.LawExactly | siphon/amr-nb/Sources/c2_11pf.c:358-386 | So for two pulses the convolution law holds for every such response if and only if the positions differ |
| FilteredCode.DistinctUnlessBoth | siphon/amr-nb/Sources/c2_11pf.c:207-220 | Only the 11-bit codebook has codevcs with both pulses on one position |
| PulseCoding.DecodeCode | siphon/amr-nb/Sources/d4_17pf.c:85-131 | The decoder places the signed pulses its words name |
| PulseCoding.IndexRoundTrip | siphon/amr-nb/Sources/c4_17pf.c:438-475 | The index word of a legal codvec, in any pulse order, stays within 7, 9, 11 or 13 bits and decodes to the same positions |
| PulseCoding.WordRoundTrip | siphon/amr-nb/Sources/d3_14pf.c:92-123 | Conversely every index word decodes to a legal codvec that encodes to it |
| PulseCoding.SignWordValue | siphon/amr-nb/Sources/c3_14pf.c:421-429 | The sign word holds one bit for each slot, independent of the pulse order |
| PulseCoding.CodeRoundTrip | siphon/amr-nb/Sources/c2_9pf.c:327-383 | For every legal codvec and sign pattern the decoder rebuilds the code vector from the two words, and the sign word fits its field |
| PulseCoding.CodeIsUnique | siphon/amr-nb/Sources/d2_9pf.c:109-118 | Pulses and signs determine the code vector |
| PulseCoding.PresetIsNotLegal | siphon/amr-nb/Sources/c2_11pf.c:203-208 | The preset (0, 1) is not legal in the two-pulse codebooks |
| CodebookPath.GreedyPath | siphon/amr-nb/Sources/c4_17pf.c:206-476 | Search, `build_code` and decoder compose: three- and four-pulse results survive for all inputs |
| CodebookPath.ExhaustivePath | siphon/amr-nb/Sources/c2_11pf.c:203-375 | With any energies: two-pulse results are legal, and so survive, if and only if some group's outcome can replace the start value; otherwise the result is the preset |
| CodebookPath.ProperExhaustivePath | siphon/amr-nb/Sources/c2_11pf.c:203-375 | With non-negative energies that is the case if and only if some tried pair has a ratio |
| CodebookPath.SilenceReturnsPreset | siphon/amr-nb/Sources/c2_11pf.c:203-208 | With all correlations and the whole matrix zero the result is the preset, which is not legal |
| CodebookPath.FieldsMatchTable | siphon/amr-nb/Headers/bitno.tab:73-130 | The mode tables give every codebook exactly the bits it needs, in all four subframes |
| CodebookPath.CodeSurvivesStream | siphon/amr-nb/Sources/prm2bits.c:104-122 | A legal code vector survives `build_code`, `Prm2bits`, the stream, `Bits2prm` and the decoder in every mode and subframe, whatever the other parameters are |
| TenPulseCode.FilePulse | siphon/amr-nb/Sources/c1035pf.c:150-187 | Filing a pulse keeps the two words of its track ordered as the sign rule wants, and touches no other |
| TenPulseCode.BuildCode10 | siphon/amr-nb/Sources/c1035pf.c:106-216 | The ten-pulse `build_code`: code vector, filed words and filtered vector |
| TenPulseCode.QuantiseAll | siphon/amr-nb/Sources/c1035pf.c:80-94 | `q_p` Gray-codes the positions in place and drops the sign bit of the last five words |
| TenPulseCode.Decode10 | siphon/amr-nb/Sources/d1035pf.c:88-130 | The decoder's vector, track by track |
| TenPulseCode.TrackLossless | siphon/amr-nb/Sources/c1035pf.c:157-186 | The two words of a track decode to the two pulses they were made of, coincident pulses included, the second sign coming from the order |
| TenPulseCode.TenPulseRoundTrip | siphon/amr-nb/Sources/c1035pf.c:119-188 | With two pulses in each track, in any order, the ten words determine the code vector |
| TenPulseCode.EncodeThenDecode | siphon/amr-nb/Sources/c1035pf.c:271-275 | The three methods run one after the other give the code vector back |
| TenPulseCode.AccumulateExact | siphon/amr-nb/Sources/c1035pf.c:203-213 | Ten multiply-accumulates do not saturate while every response sample is at most 13107 |
| TenPulseCode.FilteredIsConvolution | siphon/amr-nb/Sources/c1035pf.c:190-215 | Then the loop over ten shifted responses is the convolution of code vector and response, times four, rounded once |
| BitStream.Bin2int | siphon/amr-nb/Sources/bits2prm.c:56-73 | Reads a field as a binary number, most significant bit first, clipped to 16 bits |
| BitStream.Int2bin | siphon/amr-nb/Sources/prm2bits.c:61-85 | Writes a field backwards and nothing outside it |
| BitStream.Bits2prm | siphon/amr-nb/Sources/bits2prm.c:89-106 | Parameters are adjacent slices of the stream |
| BitStream.Prm2bits | siphon/amr-nb/Sources/prm2bits.c:104-122 | The stream is the concatenation of the fields |
| BitStream.NumberOfDigits | siphon/amr-nb/Sources/prm2bits.c:71-84 | A field keeps its parameter modulo 2^width, negative parameters included |
| BitStream.ParseAfterSerialise | siphon/amr-nb/Sources/bits2prm.c:98-103 | A written frame, followed by anything, reads back field by field |
| BitStream.RoundTripIffFits | siphon/amr-nb/Sources/bits2prm.c:98-103 | It reads back unchanged if and only if every parameter fits its field |
| BitStream.SerialiseAfterParse | siphon/amr-nb/Sources/bits2prm.c:56-106 | For widths up to 15, expanding the parsed parameters restores the bits consumed |
| BitStream.FrameSize | siphon/amr-nb/Headers/bitno.tab:73-142 | The nine width tables add up to 95, 103, 118, 134, 148, 159, 204, 244 and 35 bits, no width above 15 |
| BitStream.FrameRoundTrip | siphon/amr-nb/Sources/bits2prm.c:89-106 | So in every mode the two conversions are inverse to each other |
| PitchSharpening.Sharpen | siphon/amr-nb/Sources/c2_11pf.c:140-145 | The in-place loop is a feedback comb filter |
| PitchSharpening.SharpenEitherSide | siphon/amr-nb/Sources/c2_11pf.c:138-166 | In exact arithmetic, sharpening the response and sharpening the code give the same convolution, for every lag, gain, code and response |
| PitchSharpening.SearchedIsTransmitted | siphon/amr-nb/Sources/c2_11pf.c:377-386 | So what `build_code` sums up from the sharpened response is the sharpened code filtered by the original one |
| PitchSharpening.SharpeningError | siphon/amr-nb/Sources/c2_11pf.c:142-144 | Without saturation sample i of the 16-bit loop is at most i / T0 units below the exact filter, never above |
| PitchSharpening.OneUnitAtPitchLags | siphon/amr-nb/Sources/c2_11pf.c:140-145 | At pitch lags from 20 on, with a response below one half, it does not saturate and is within one unit |
| PitchSharpening.SameSharpness | siphon/amr-nb/Sources/c2_9pf.c:159-160 | The plain and the saturating doubling agree if and only if the gain is in [-16384, 16383] |
| Autocorrelation.WindowPass | siphon/amr-nb/Sources/autocorr.c:93-101 | The wrapping sum turns negative exactly at the first sample where the true sum leaves 31 bits |
| Autocorrelation.ScaleSignal | siphon/amr-nb/Sources/autocorr.c:93-127 | Windowing and the `while (1)` loop, which ends after at most two passes |
| Autocorrelation.Autocorr | siphon/amr-nb/Sources/autocorr.c:80-151 | The whole routine: exponent and all (hi, lo) pairs |
| LagMeaning.LagBySuperposition | siphon/amr-nb/Sources/autocorr.c:137-141 | Lag i is half of what adding the signal to its own shift by i adds to twice its energy |
| LagMeaning.LagsOfTwo | siphon/amr-nb/Sources/autocorr.c:137-141 | For a signal of two samples at distance d lag d is their product and every other lag is zero |
| LagMeaning.PairOfLag | siphon/amr-nb/Sources/autocorr.c:137-146 | With an exact energy the pair written for lag i recomposes to that lag of the scaled signal, shifted |
| LagMeaning.PairOfTwo | siphon/amr-nb/Sources/autocorr.c:137-146 | And for two samples to their product at their distance and to zero elsewhere |
| LagMeaning.WindowedAt | siphon/amr-nb/Sources/autocorr.c:93-96 | Each windowed sample is the product with its window sample in Q15, rounded half up |
| LagMeaning.ShiftCountsPasses | siphon/amr-nb/Sources/autocorr.c:103-127 | The shift counts four for each rescaling, and a signal is rescaled exactly if twice its energy does not fit |
| Autocorrelation.TwicePassesSuffice | siphon/amr-nb/Sources/autocorr.c:109-124 | After two passes the energy fits for every input |
| Autocorrelation.ExactUnlessFooled | siphon/amr-nb/Sources/autocorr.c:103-127 | The accepted energy is exact if and only if it is not the case that the once-rescaled energy is at least 2^31 with a zero in bit 30; the shift is always 0, 4 or 8 |
| Autocorrelation.LagBound | siphon/amr-nb/Sources/autocorr.c:137-141 | Twice a partial lag sum is bounded by the energies of the two stretches it multiplies |
| Autocorrelation.NormalisedLags | siphon/amr-nb/Sources/autocorr.c:129-146 | With an exact energy no lag and no shift wraps, every normalised lag is strictly below the normalised r[0], and its (hi, lo) pair holds it exactly |
| Autocorrelation.FooledByBurst | siphon/amr-nb/Sources/autocorr.c:109-124 | A signal which under the codec's window_200_40 has its energy 4295966721 accepted as 999425 |
| WindowTables.HalfScaleIsExact | siphon/amr-nb/Headers/window.tab:25-110 | Under each of the three windows a signal of at most 16384 in magnitude gets its exact energy |
| Chebyshev.ClenshawEvaluates | siphon/amr-nb/Sources/az_lsp.c:111-135 | In exact arithmetic the recurrence and its last step give T_n + f1 T_(n-1) + ... + f_n / 2, for every n >= 2 |
| Chebyshev.TBounded | siphon/amr-nb/Sources/az_lsp.c:80-87 | The Chebyshev polynomials are at most 1 on the interval, from Pell's equation |
| Chebyshev.UBounded | siphon/amr-nb/Sources/az_lsp.c:111-127 | Those of the second kind, which the intermediate values are made of, at most m + 1 |
| Chebps.Evaluate | siphon/amr-nb/Sources/az_lsp.c:91-145 | The loop with its (hi, lo) state and wrapping shifts |
| Chebps.ConvertClips | siphon/amr-nb/Sources/az_lsp.c:137-142 | The conversion is a clip for every value but 0x01ffffff, and only that one |
| Chebps.FinalT0IsEven | siphon/amr-nb/Sources/az_lsp.c:129-135 | The accumulator is even for every input, so that value does not occur |
| Chebps.ValueIsClipped | siphon/amr-nb/Sources/az_lsp.c:137-144 | So the result is the clipped accumulator, for all inputs |
| Chebps.StateIsQ | siphon/amr-nb/Sources/az_lsp.c:104-127 | For coefficients up to 8192 no intermediate leaves 32 bits |
| Chebps.FinalIsExact | siphon/amr-nb/Sources/az_lsp.c:129-135 | Nor does the last step |
| Chebps.ChebpsAccuracy | siphon/amr-nb/Sources/az_lsp.c:91-145 | The accumulator is within 14 units of Q24 of the series, the unclipped Q14 result within 2 units |
| LspSearch.Polynomials | siphon/amr-nb/Sources/az_lsp.c:187-204 | Sum and difference polynomials, with their narrowing assignments |
| LspSearch.PolyDivides | siphon/amr-nb/Sources/az_lsp.c:170-185 | What they are: F(z) (1 + s z^-1) = A(z) + s z^-11 A(1/z) in every coefficient, rounded down to Q10, if and only if no subtraction wraps |
| LspSearch.RefineRoot | siphon/amr-nb/Sources/az_lsp.c:231-274 | Four halvings and the interpolation |
| LspSearch.AzLsp | siphon/amr-nb/Sources/az_lsp.c:160-297 | All ten roots of the scan, or the old values unchanged |
| LspSearch.BisectKeepsSign | siphon/amr-nb/Sources/az_lsp.c:231-247 | Halving keeps a sign change of the polynomial between the ends, for any bracket |
| LspSearch.FourHalvings | siphon/amr-nb/Sources/az_lsp.c:231-247 | From a gap of 32 on the bracket stays proper and inside the old one |
| LspSearch.InterpolateInside | siphon/amr-nb/Sources/az_lsp.c:253-274 | For every bracket with a sign change the interpolated root lies in it if and only if the narrowed slope times the lower value is below 1024, or, where the difference of the values does not fit 16 bits, the correction modulo 2^16 is at most the width |
| LspWitness.FirstRoot | siphon/amr-nb/Sources/az_lsp.c:220-274 | A predictor whose scan finds its first root outside its bracket: a flat final bracket with slope 42493 |
| LspWitness.AzLspFirstRoot | siphon/amr-nb/Sources/az_lsp.c:220-292 | That root is still the first one when the scan ends, so the roots are not ordered within their brackets |
| LspSearch.RootsBracketed | siphon/amr-nb/Sources/az_lsp.c:220-292 | At every point of the scan each root found comes from a sign-change bracket of its polynomial |
| LspSearch.RootsExactly | siphon/amr-nb/Sources/az_lsp.c:220-292 | At every point of the scan the roots lie in their brackets and never increase if and only if every bracket meets the condition |
| LspSearch.AzLspRoots | siphon/amr-nb/Sources/az_lsp.c:210-296 | Over the whole grid the roots are bracketed by sign changes, and in order within their brackets if and only if every bracket meets the condition |
| LspCompleteness.ScanAccount | siphon/amr-nb/Sources/az_lsp.c:220-292 | At every point of the scan: each root comes from the first interval below the root before it in which its polynomial, looked at on the grid, does not keep one strict sign, and after the last root there is none |
| LspCompleteness.AccountIsUnique | siphon/amr-nb/Sources/az_lsp.c:220-292 | This account, told by grid points and signs, determines the roots |
| LspCompleteness.AzLspFindsAll | siphon/amr-nb/Sources/az_lsp.c:210-296 | The roots Az_lsp works with are the only ones that satisfy it over the whole grid |
| LspCompleteness.FallsBackWithout | siphon/amr-nb/Sources/az_lsp.c:294-296 | It falls back on the old values only when the polynomial of the next root keeps one strict sign from the last root down to the end of the grid |
| LspSecant.InterpolateNearSecant | siphon/amr-nb/Sources/az_lsp.c:253-274 | While difference and slope fit 16 bits the root is within width / 8192 + difference / 1024 + 1 of the zero of the secant |
| Reflection.ARefl | siphon/amr-nb/Sources/a_refl.c:55-119 | All coefficients, or all zero after a bail-out |
| Reflection.StepDown | siphon/amr-nb/Sources/a_refl.c:96-111 | The inner loop: one order down, or failure |
| Reflection.Divisor | siphon/amr-nb/Sources/a_refl.c:85-94 | `div_s` is always called within its range |
| Reflection.ReflInsideUnit | siphon/amr-nb/Sources/a_refl.c:76-115 | Unless the code gives up, every coefficient is at most 32760 in magnitude |
| Reflection.CoefficientsOfFilter | siphon/amr-nb/Sources/a_refl.c:75-114 | In exact arithmetic, step-down recovers the coefficients a filter was built from, for every order |
| Reflection.FilterOfCoefficients | siphon/amr-nb/Sources/a_refl.c:75-114 | Conversely the recovered coefficients rebuild the filter |
| Reflection.LoweredNear | siphon/amr-nb/Sources/a_refl.c:85-108 | While the numerator is in range, one fixed-point step is within half a unit, plus 1 / (2 (1 - k^2)), plus about 2^-13 of the value, of the exact quotient |
| Reflection.StepNearExact | siphon/amr-nb/Sources/a_refl.c:85-108 | The same bound between the step the code makes and the exact step-down on the same numbers |
| Reflection.LoweredFilterNear | siphon/amr-nb/Sources/a_refl.c:96-113 | The inner loop on a whole filter: with numerators in range every coefficient of the lowered filter is within that bound of the exact step-down of the same filter |
| Reflection.LoweredListNear | siphon/amr-nb/Sources/a_refl.c:96-113 | The same against the list the exact step-down gives |
| Reflection.GivesUpExactly | siphon/amr-nb/Sources/a_refl.c:107-110 | The inner loop gives up exactly when a lowered coefficient exceeds 32767 in magnitude |
| Reflection.LastOnly | siphon/amr-nb/Sources/a_refl.c:75-116 | A filter with its last coefficient only gives that one, in Q15, as the last reflection coefficient and zeros before it |
| GainControl.EnergyOld | siphon/amr-nb/Sources/agc.c:76-94 | The prescaled accumulation |
| GainControl.EnergyNew | siphon/amr-nb/Sources/agc.c:96-126 | The accumulation, the overflow test and the fallback |
| GainControl.SignalEnergyIs | siphon/amr-nb/Sources/agc.c:107-125 | Overflow is recognised exactly: the result is an eighth of the sum of squares, rounded down, or the prescaled energy |
| GainControl.SilentIffTiny | siphon/amr-nb/Sources/agc.c:194-201 | The silence branch is taken exactly when the sum of squares is below 8 |
| InverseRoot.InvSqrtRange | siphon/amr-nb/Sources/inv_sqrt.c:59-97 | The table is indexed within bounds and the result lies in [0, 0x3fffffff] for every input |
| InverseRoot.InvSqrtNear | siphon/amr-nb/Sources/inv_sqrt.c:59-97 | For every x > 0 the result r is 2^30 / sqrt(x) up to r^2 x <= 2^60 (1 + 3/1024) and (r + 1)^2 x >= 2^60 (1 - 2^-14) |
| GainControl.MantissaRanges | siphon/amr-nb/Sources/agc.c:202-223 | The gain division always has numerator <= denominator |
| GainControl.AgcState.constructor | siphon/amr-nb/Sources/agc.c:161-171 | The stored gain starts at 1.0 |
| GainControl.AgcState.Agc | siphon/amr-nb/Sources/agc.c:181-251 | Output signal and stored gain of one call, in place, silent signals included |
| GainControl.Agc2 | siphon/amr-nb/Sources/agc.c:261-317 | The excitation scaling, in place |
| GainControl.SmoothingHolds | siphon/amr-nb/Sources/agc.c:230-231 | Whatever the energies, the new part of the gain leaves room for the old |
| GainControl.GainStep | siphon/amr-nb/Sources/agc.c:242-243 | The gain step never saturates |
| GainControl.GainTendency | siphon/amr-nb/Sources/agc.c:242-243 | A gain is a fixed point if and only if it lies in the unit band below g0 / (1 - fac); outside it moves towards the band |
| GainControl.GainMonotone | siphon/amr-nb/Sources/agc.c:240-246 | Within a frame the gain moves in one direction only |
| GainControl.GainBounded | siphon/amr-nb/Sources/agc.c:240-246 | It never exceeds the larger of the past gain and g0 / (1 - fac) rounded up |
| GainControl.GainSettles | siphon/amr-nb/Sources/agc.c:240-246 | It stops after at most 2^15 samples |
| GainControl.PastGainKept | siphon/amr-nb/Sources/agc.c:238-248 | The stored gain stays non-negative from call to call |
| GainControl.AmplifyIs | siphon/amr-nb/Sources/agc.c:244 | The three operators multiply by gain / 4096, round down and clip |
| GainControl.UnityGain | siphon/amr-nb/Sources/agc.c:279-305 | Equal energies give exactly 1.0 through the mantissas, `div_s` and the table |
| GainAccuracy.RatioNear | siphon/amr-nb/Sources/agc.c:279-302 | The argument of the root is 2^22 times the ratio of the energies, up to 5 / 2^14 and rounding down, unless clipped |
| GainAccuracy.GainNotBelow | siphon/amr-nb/Sources/agc.c:279-305 | Unless it is clipped the gain g has (2g + 1)^2 sOut 16387 >= (2^40 - 2^26) sIn: half a unit up it is not below sqrt(sIn / sOut) by more than 2^-12 |
| GainAccuracy.GainNotAbove | siphon/amr-nb/Sources/agc.c:279-305 | While sOut <= 511 sIn it has (2g - 1)^2 sOut 16379 <= 1028 2^30 sIn: half a unit down it is not above by more than 1 / 400 |
| GainAccuracy.GainFloor | siphon/amr-nb/Sources/agc.c:279-305 | No gain is below 181 / 4096, however large the output energy |
| GainControl.Agc2Transparent | siphon/amr-nb/Sources/agc.c:261-317 | A signal matched against one of the same energy comes out unchanged |
| GainAccuracy.QuarterEnergy | siphon/amr-nb/Sources/agc.c:76-94 | The energy of the prescaled signal is a sixteenth of the energy, within 1 / 64 and the rounding of small samples |
| GainAccuracy.Agc2Means | siphon/amr-nb/Sources/agc.c:261-317 | A whole call: the output is left alone if its squares sum to less than 8, and otherwise multiplied by one gain that matches the energies within the bounds above |
| GainAccuracy.AgcMeans | siphon/amr-nb/Sources/agc.c:181-251 | A whole call with smoothing: before each sample the gain moves by the share 1 - fac towards the matching one, then multiplies it; the last one is stored |
| GainControl.UnityDrifts | siphon/amr-nb/Sources/agc.c:230-248 | Between equal energies a smoothed gain of 1.0 becomes 4095 / 4096, for every factor |
| GainControl.UnityIsLost | siphon/amr-nb/Sources/agc.c:240-248 | And never reaches 1.0 again within the frame |
| GainControl.DriftSettles | siphon/amr-nb/Sources/agc.c:240-248 | With AGC_FAC it slides to 4089 in seven samples and stays there |
| GainAverage.DivisionDefined | siphon/amr-nb/Sources/c_g_aver.c:170-175 | `div_s` is within its range if and only if the averaged LSP is positive |
| GainAverage.DistanceIs | siphon/amr-nb/Sources/c_g_aver.c:169-187 | For every deviation and positive average the distance is deviation / average in Q13, rounded down to a multiple of 2^k and clipped |
| GainAverage.DistanceAtMostRatio | siphon/amr-nb/Sources/c_g_aver.c:169-187 | It never exceeds the true ratio, and falls short by less than 2^k units and one unit of the deviation unless clipped |
| GainAverage.DistanceIsRatio | siphon/amr-nb/Sources/c_g_aver.c:169-187 | When nothing is shifted left and no bit of the deviation is lost, the two truncations are one |
| GainAverage.SpectralDifference | siphon/amr-nb/Sources/c_g_aver.c:169-192 | The two loops over the line spectral pairs |
| GainAverage.GainAverager.constructor | siphon/amr-nb/Sources/c_g_aver.c:105-120 | The reset state |
| GainAverage.GainAverager.Push | siphon/amr-nb/Sources/c_g_aver.c:162-166 | The history is shifted by one |
| GainAverage.GainAverager.Average | siphon/amr-nb/Sources/c_g_aver.c:131-317 | Whole new state and result of one frame |
| GainAverage.CountersMean | siphon/amr-nb/Sources/c_g_aver.c:196-209 | In every run the counters are the (wrapped) number of consecutive distant frames and the (clipped) number of frames since speech |
| GainAverage.HistoryMeans | siphon/amr-nb/Sources/c_g_aver.c:162-166 | In every run the history is the last seven gains |
| GainAverage.MixIs | siphon/amr-nb/Sources/c_g_aver.c:308-312 | The mix does not saturate and is the convex combination rounded half up |
| GainAverage.MixBetween | siphon/amr-nb/Sources/c_g_aver.c:308-312 | The mix lies between the frame's gain and the mean, and is either of them at the ends |
| GainAverage.SmoothingIsEarned | siphon/amr-nb/Sources/c_g_aver.c:211-316 | In every reachable state the result lies between gain and mean, and differs from the gain only in a smoothing mode, in a frame that is not distant, at least 40 frames after speech or reset |
| GainAverage.LongSpeechIsForgotten | siphon/amr-nb/Sources/c_g_aver.c:196-209 | In every run the speech test holds if and only if the number of consecutive distant frames, modulo 2^16, lies strictly between 10 and 2^15 |
| GainAverage.EveryStreakOccurs | siphon/amr-nb/Sources/c_g_aver.c:169-209 | Every such number occurs: a frame that is distant, repeated n times |
| GainAverage.MeanWithin | siphon/amr-nb/Sources/c_g_aver.c:286-306 | The weighted mean leaves the range of the gains by at most 1 below and 2 above; of equal gains below 8192 it is that gain |
| GainAverage.EnvelopeKept | siphon/amr-nb/Sources/c_g_aver.c:284-313 | So does the result of a frame |
| GainAverage.SumIsClipped | siphon/amr-nb/Sources/c_g_aver.c:189-192 | The spectral difference is the clipped sum of the ten distances |
| GainAverage.BgMixIs | siphon/amr-nb/Sources/c_g_aver.c:212-283 | The share of a frame's own gain: 1 within 40 frames of speech or above 0.65, otherwise min(0.25, max(0, diff - begin)) / 0.25 with begin 0.55 in degraded noise and 0.40 elsewhere |
| GainAverage.ShareAtDistance | siphon/amr-nb/Sources/c_g_aver.c:212-283 | Elsewhere the share reaches 1 exactly where the distance switches smoothing off; in degraded noise it stays at most 0.4 up to there |
| GainAverage.MeanIs | siphon/amr-nb/Sources/c_g_aver.c:286-306 | In every run the mean is the average of the last seven gains after an error in noise at a low rate and of the last five otherwise, within two units |
| GainAverage.ResultInRun | siphon/amr-nb/Sources/c_g_aver.c:211-316 | In every run the five smoothing modes return the convex combination of gain and mean with that share, rounded half up, the others the gain |
| Median.Gmed | siphon/amr-nb/Sources/gmed_n.c:57-90 | The n selection rounds over a working copy |
| Median.MedianExactly | siphon/amr-nb/Sources/gmed_n.c:57-90 | The result has at most half of the values on either side if and only if -32768 makes up at most half of the input, or all of it |
| NoiseDetector.FrameEnergyIs | siphon/amr-nb/Sources/bgnscd.c:150-160 | The frame energy is the sum of squares / 8192, clipped |
| NoiseDetector.NoisyIs | siphon/amr-nb/Sources/bgnscd.c:162-206 | The noise test, without its folds and saturations |
| NoiseDetector.BgnScd.constructor | siphon/amr-nb/Sources/bgnscd.c:107-121 | The reset state |
| NoiseDetector.BgnScd.Detect | siphon/amr-nb/Sources/bgnscd.c:132-287 | Whole new state, noise decision and voicing hangover of one frame |
| NoiseDetector.BgnScd.DetectVoiced | siphon/amr-nb/Sources/bgnscd.c:233-266 | The voicing decision: median of five gains, or of nine in long noise, against the tightened limit |
| NoiseDetector.HangoversCount | siphon/amr-nb/Sources/bgnscd.c:202-284 | In every run the hangovers are min(30, consecutive noisy frames) and min(10, frames since voiced) |
| NoiseDetector.HistoryIs | siphon/amr-nb/Sources/bgnscd.c:227-231 | In every run the history is the last sixty frame energies |
| NoiseDetector.FlaggedMeans | siphon/amr-nb/Sources/bgnscd.c:222-225 | Noise is flagged if and only if the last two frames passed the test; never in the first six frames |
| NoiseDetector.VoicedByCounts | siphon/amr-nb/Sources/bgnscd.c:233-266 | Voiced means that three of the last five gains, or after more than 20 noise frames five of nine, exceed 0.85, after 8 noise frames 0.95, after 15 1.0 |
| NoiseDetector.VoicedInRun | siphon/amr-nb/Sources/bgnscd.c:233-266 | In every run the noise length that decides is the number of frames in a row that passed the noise test |
| ComfortNoise.ShiftRegister.Pseudonoise | siphon/amr-nb/Sources/b_cn_cod.c:55-97 | The register moves n steps; the bits that fell out are returned as a number, clipped to 16 bits |
| ComfortNoise.ShiftRegister.BuildCnCode | siphon/amr-nb/Sources/b_cn_cod.c:104-136 | The code vector of a register state, and the register thirty steps on |
| ComfortNoise.TenPulses | siphon/amr-nb/Sources/b_cn_cod.c:111-133 | For every seed exactly ten samples are nonzero, each 4096 in magnitude, at positions distinct modulo 10 |
| ComfortNoise.CodeFromSeed | siphon/amr-nb/Sources/b_cn_cod.c:117-133 | Bits 3 k, 3 k + 1 and 3 k + 2 of a seed without the sign bit choose position and sign of pulse k |
| ComfortNoise.StepIsPermutation | siphon/amr-nb/Sources/b_cn_cod.c:65-94 | On 31-bit states the step is a permutation, with its inverse |
| ComfortNoise.StepMovesBits | siphon/amr-nb/Sources/b_cn_cod.c:65-94 | Bit by bit what the step does |
| ComfortNoise.StepsAreLinear | siphon/amr-nb/Sources/b_cn_cod.c:65-94 | Any number of steps distributes over exclusive or |
| ComfortNoise.NeverDies | siphon/amr-nb/Sources/b_cn_cod.c:65-94 | Zero is the only fixed point and only zero leads to zero |
| ComfortNoise.Recurrence | siphon/amr-nb/Sources/b_cn_cod.c:65-94 | The output satisfies s(n + 31) = s(n) xor s(n + 28) |
| ComfortNoise.NegativeSeedSaturates | siphon/amr-nb/Sources/b_cn_cod.c:89-94 | A seed with the sign bit set turns into all ones after 31 steps, for good |
| NoisePeriod.Squared | siphon/amr-nb/Sources/b_cn_cod.c:65-94 | Doubling the number of steps squares the polynomial they act as, modulo the characteristic polynomial |
| NoisePeriod.FullCircle | siphon/amr-nb/Sources/b_cn_cod.c:55-97 | 2^31 - 1 steps lead every state back to itself |
| NoisePeriod.ExactPeriod | siphon/amr-nb/Headers/b_cn_cod.h:41-43 | A nonzero state returns after n steps if and only if 2^31 - 1 divides n |
| Mersenne.MersennePrime | siphon/amr-nb/Headers/b_cn_cod.h:41-43 | 2^31 - 1 is prime, which the exact period rests on |

## Left out

- The correlation of the target (`cor_h_x`) and the positions `set_sign` excludes are inputs here.
- GreedySearch.SearchKeepsBestChain: takes non-negative energies as a hypothesis; only for two pulses is it derived from `cor_h`, and GreedyOutcome.SearchExactly does without.
- CorrelationMatrix.PairEnergyNonNegative: says nothing about single responses between the two ranges of energies or above the upper one, where some still give proper energies.
- FilteredEnergy.ChainEnergyMeans: covers chains in which every stage keeps one of its trials.
- FilteredCode.FilteredIsConvolution: assumes |v| times each response sample within 16 bits, beyond which the sum can saturate.
- Reflection.LoweredFilterNear: bounds one step of the recursion; how the errors of ten steps add up is not stated.
- NoiseDetector.VoicedByCounts: assumes gains above -32768, the mark the median uses.
- SearchWitness.PresetDespiteRatio: its matrix is not shown to come from `cor_h`.
- LspWitness.AzLspFirstRoot: follows the scan to its first root only; that the scan goes on to find ten roots is not shown for this predictor.
- Reflection.StepNearExact: assumes a numerator that neither the subtraction nor the rounding saturates, and bounds one step, not the whole recursion.
- The eight- and ten-pulse search `search_10and8i40` and the eight-pulse coding of `c8_31pf.c` are not modelled.
- Chebps.ChebpsAccuracy: assumes coefficients up to 8192 in magnitude; larger ones can wrap, and only evenness and clipping are proved for them.
- TenPulseCode.FilteredIsConvolution: assumes a response up to 13107 in magnitude, beyond which ten terms can saturate.
- GainAverage.MeanWithin: assumes gains that are not negative, as codebook gains are.
- `abort` in `div_s` is a precondition of the division; the callers are proved never to violate it.
- `build_CN_param`, the LPC analysis, the pitch search, the quantisers, the VAD and DTX state machines, and all file and device input and output are not modelled.
- NULL checks, allocation in the `_init` functions and the overflow and complexity counters are not modelled.
- Shift counts beyond 31, undefined in C, are excluded by precondition; no caller modelled here uses them.
- The bit reordering tables of `bitno.tab` belong to the file format selected by `MMS_IO`, which this build does not use.
- The pjproject and Siphon parts of the repository are not modelled.
