# T-RECAP verification model

A Dafny model of T-RECAP's two verifiable cores, with its main promises proved for all inputs.

**Phase 1.** An LFSR feeds a centred noise map and a leaky noise shaper; the samples are paired, passed
through a two-sample integer Haar transform with a hard threshold, reconstructed with ties-away rounding and
scored by cumulative metrics. The repository holds this pipeline five times: a C++ golden model on fixed-width
integers, two Python golden models with other sequencings, the testbench's SystemVerilog reference model, and the
FPGA design itself as clocked RTL. The model has one set of unbounded definitions (`Lfsr`, `Shaper`, `Haar`,
`NoiseStream`), each implementation in its own form (`GoldenCpp` and `GoldenRun` on bounded machine integers,
`GoldenPython` with its exceptions, `RefModel` as a stateful predictor, `RtlDatapath`, `RtlChain`, `RtlFifo` and
`RtlGolden` edge by edge with explicit vector widths), and refinement proofs that connect them. `CrossModel`,
`RefModel` and `RtlGolden` state how far the five agree, and exactly when they do.

**Phase 2 tooling.** The algorithms of the checking scripts whose correctness is a statement about all inputs:
the signal dependency search (`SignalGraph`), the named-binding scanner (`NamedBindings`), local `$ref`
resolution (`JsonPointer`), Tcl quoting (`TclQuote`), ring geometry acceptance (`RingGeometry`) and the address
map's semantic projection and freeze record (`StableSort`, `AddressMap`, `AddressContent`, `AddressErrors`,
`AddressFreeze`).

`Bits` gives integers Python's two's complement bit operators, so `&`, `|`, `^` and the shifts are modelled as
written, also on negative numbers. `dafny verify dfyconfig.toml` checks the whole project.

## Findings about the source

- The seed guard of the C++ model (`phase1_golden.cpp:206`) and of the Python models tests the unmasked seed.
  Seed 0x10000 passes it; the C++ register is then stuck at zero (`GoldenRun.SeedGuard`) and the Python models
  raise from their first register step (`GoldenPython.RunV0`, `GoldenPython.RunV3`).
- `phase1_demo/verification/ref_model_phase1.sv:311` says that stepping the register before the mapping matches
  the C++ golden model. The C++ loop maps first. At the default seed 0xACE1, N = 12, SHIFT = 3 the C++ stream
  starts 156, 86 and the step-first stream starts -50 (`CrossModel.OrdersDiffer`). On one seed the two orders give
  the same samples if and only if at every position the noise words i and i + 1 move the common state alike
  (`CrossModel.OrdersAgreeIff`); on the stepped seed they always do (`CrossModel.V0IsCppOnSteppedSeed`).
- `phase1_golden.cpp` does not test SHIFT. A run is defined in C++ if and only if SHIFT is in 0..30, or is 31 and
  every noise word is non-negative, or no sample is made (`GoldenRun.ShiftRuns`, `GoldenRun.Generate`).
- The serializer's comment (`t_recap_demo_top.sv:604`) asks for a depth of at least two. For arbitrary enables
  overflow freedom holds if and only if the depth is at least four (`RtlChain.OverflowFreeIffDepth4`). Under the
  design's own tick divider it holds if and only if the depth is at least three or the ratio at least three
  (`RtlGolden.DividerOverflowFreeIff`), so the comment is right for the board's ratio and wrong for ratios 1 and 2.
- `t_recap_demo_top.sv:159` connects the pair assembler to `x_stream_raw`, which no statement drives, and line 147
  makes that net a second driver of `x_stream`, the shaper's own output. The assembler's input is therefore a net of
  its own in the model, with arbitrary N-bit values. `RtlGolden.TakesGoldenIff`, `RtlGolden.WordsMatchIff` and
  `RtlGolden.LosslessMatchIff` say exactly when the hardware agrees with the golden model, and
  `RtlGolden.UndrivenNetDiverges` shows that the net read as zero does not at the default parameters.
  `RtlGolden.RtlMatchesGolden` is about a net that carries the shaper output, as lines 27-31 of that file describe.
- The 64-bit counters of the C++ model are exact for every supported width, not only for narrow samples: a
  16-bit register confines the noise to a band of 2^16 values, and the one-time descent into that band pays for
  every larger step (`NoiseStream.EnergyBound`).

## Model

| member | source | states |
|---|---|---|
| Bits.BitwiseMeaning | phase1_demo/260124_T_RECAP_Golden_v0.py:63-64 | conjunction, disjunction and exclusive or act bit by bit on every pair of integers, negative ones included |
| Lfsr.StepForm | phase1_demo/260124_T_RECAP_Golden_v0.py:58-65 | the masked shift-and-or expression equals halving the register and adding the feedback bit at the top, and stays within W bits |
| Lfsr.Step16IsStep | phase1_demo/bit_accurate_golden_model/phase1_golden.cpp:68-75 | the 16-bit C++ spelling is the Python step at W = 16, for every argument |
| Lfsr.StepKeepsNonZero | phase1_demo/260124_T_RECAP_Golden_v0.py:58-65 | a register steps to zero exactly when it is zero, for every width |
| Lfsr.StepIsPermutation | phase1_demo/260124_T_RECAP_Golden_v0.py:58-65 | on the non-zero W-bit states the step has a two-sided inverse, for every width W >= 1 |
| Lfsr.SeedRecurs | phase1_demo/260124_T_RECAP_Golden_v0.py:58-65 | pigeonhole: every non-zero seed returns to itself within 2^W - 1 steps |
| Lfsr.PurelyPeriodic | phase1_demo/260124_T_RECAP_Golden_v0.py:58-65 | the register sequence of every non-zero seed repeats from its first word on |
| Shaper.NoiseRange | phase1_demo/260124_T_RECAP_Golden_v0.py:68-72 | masking and centring give r mod 2^N - 2^(N-1), a signed N-bit number, for every integer r |
| Shaper.StepBetween | phase1_demo/bit_accurate_golden_model/phase1_golden.cpp:85-92 | one update lands between the old state and the input; it never overshoots |
| Shaper.EmitFirstIsDelay | phase1_demo/260130_T_RECAP_Golden_MS_Test_V3.py:118-125 | emitting before updating shows the initial state and then the update-first stream without its last sample |
| Shaper.MonotoneNonExpansive | phase1_demo/bit_accurate_golden_model/phase1_golden.cpp:45-53 | under any input sequence ordered initial states stay ordered and their gap never grows |
| Shaper.ForgetsInitialState | phase1_demo/bit_accurate_golden_model/phase1_golden.cpp:85-92 | under any input sequence the gap of two trajectories shrinks by at least one per step until it is below 2^SHIFT |
| Shaper.SettledIsFixed | phase1_demo/bit_accurate_golden_model/phase1_golden.cpp:85-92 | a state is a fixed point under u exactly when 0 <= u - s < 2^SHIFT |
| Shaper.TrajectoryRecurs | phase1_demo/bit_accurate_golden_model/phase1_golden.cpp:85-92 | each state is its predecessor plus the floor of the difference to the input over 2^SHIFT |
| Shaper.HeldInputSettles | phase1_demo/bit_accurate_golden_model/phase1_golden.cpp:85-92 | a held input is approached monotonically, settled after |u - s0| steps, and hit exactly from above |
| Shaper.SameTrajectoryIff | phase1_demo/bit_accurate_golden_model/phase1_golden.cpp:85-92 | two input sequences show one state sequence if and only if at every position they move the common state alike |
| Haar.RoundDiv2Meaning | phase1_demo/bit_accurate_golden_model/phase1_golden.cpp:56-60 | division by two is exact on even numbers and rounds a half away from zero |
| Haar.SatIsNearest | phase1_demo/260124_T_RECAP_Golden_v0.py:29-37 | saturation is the unique nearest signed N-bit value, for every integer |
| Haar.PairMeaning | phase1_demo/bit_accurate_golden_model/phase1_golden.cpp:101-131 | a kept pair is reproduced; a suppressed pair becomes flat at the rounded mean |
| Haar.PairBetween | phase1_demo/bit_accurate_golden_model/phase1_golden.cpp:120-128 | both outputs lie between the two inputs of the pair |
| Haar.SaturationIsIdentity | phase1_demo/bit_accurate_golden_model/phase1_golden.cpp:36-42 | on N-bit samples both saturations of the pair stage change nothing |
| Haar.PairError | phase1_demo/bit_accurate_golden_model/phase1_golden.cpp:263-266 | exact absolute and squared error of one pair from its detail alone, and the floor(T/2) bound per sample |
| Haar.FlatOptimum | phase1_demo/bit_accurate_golden_model/phase1_golden.cpp:111-125 | a suppressed output is a least-squares optimum among all flat integer pairs |
| Haar.MetricsClosedForm | phase1_demo/bit_accurate_golden_model/phase1_golden.cpp:259-266 | all four counters in closed form over the details of the suppressed pairs, for every pair list |
| Haar.SampleErrorBound | phase1_demo/bit_accurate_golden_model/phase1_golden.cpp:254-266 | every sample of every even-length stream is reproduced to within floor(T/2) |
| Haar.ZeroThresholdLossless | phase1_demo/bit_accurate_golden_model/phase1_golden.cpp:271-284 | a threshold of zero or below reproduces the stream with all error counters zero |
| Haar.ScoreIsDistance | phase1_demo/bit_accurate_golden_model/phase1_golden.cpp:263-266 | the squared-error counter of any sample stream is the squared distance between that stream and its output |
| Haar.ReconstructionIsOptimal | phase1_demo/bit_accurate_golden_model/phase1_golden.cpp:101-131 | no integer stream that is flat on the suppressed pairs of a sample stream is nearer to it than the reconstruction |
| Haar.ThresholdMonotone | phase1_demo/260124_T_RECAP_Golden_v0.py:183-198 | raising thresholds only adds suppressed pairs and never lowers a counter |
| Haar.Reprocessing | phase1_demo/bit_accurate_golden_model/phase1_golden.cpp:101-131 | reprocessing an output stream at its threshold reproduces it, with the same flags and no further error |
| Haar.OutputsIff | phase1_demo/bit_accurate_golden_model/phase1_golden.cpp:101-131 | the output stream is the one stream that keeps every pair with a detail of at least T and is flat at the ties-away mean on every other |
| Haar.StreamMeaning | phase1_demo/bit_accurate_golden_model/phase1_golden.cpp:250-267 | on the two streams alone: pairs kept or flattened by their detail, and the counters are the number of pairs, the number with a detail below T, and the sums of absolute and squared differences |
| Haar.SameOutputsIff | phase1_demo/bit_accurate_golden_model/phase1_golden.cpp:101-131 | two sample streams have the same outputs if and only if each pair of pairs is equal or both are suppressed with one rounded mean |
| NoiseStream.StepFirstIsShift | phase1_demo/260124_T_RECAP_Golden_v0.py:162-165 | reading the noise after the step is the stream of the stepped seed |
| NoiseStream.NoisePeriodic | phase1_demo/260124_T_RECAP_Golden_v0.py:58-72 | every non-zero seed has one period after which every noise stream of it, of any length, repeats from its first word on |
| NoiseStream.SamplesFit | phase1_demo/bit_accurate_golden_model/phase1_golden.cpp:241-244 | every reachable shaper state and sample fits in N signed bits |
| NoiseStream.EnergyBound | phase1_demo/bit_accurate_golden_model/phase1_golden.cpp:241-267 | potential bound: the detail energy of any shaped stream is what the initial excess pays once plus a constant per pair |
| NoiseStream.AccumulatorsFit | phase1_demo/bit_accurate_golden_model/phase1_golden.cpp:229-232 | for every width 2..30, shift, threshold, seed and int sample count the exact sums stay below 2^62 |
| GoldenCpp.SatN | phase1_demo/bit_accurate_golden_model/phase1_golden.cpp:36-42 | 64-bit clamping to N bits, without overflow |
| GoldenCpp.Asr | phase1_demo/bit_accurate_golden_model/phase1_golden.cpp:45-53 | the emulated shift is floor division wherever its bias addition does not overflow, which is its precondition |
| GoldenCpp.RoundDiv2TiesAway | phase1_demo/bit_accurate_golden_model/phase1_golden.cpp:56-60 | the truncating C++ form equals the flooring Python form on every int but the largest, where the addition overflows |
| GoldenCpp.IAbs32 | phase1_demo/bit_accurate_golden_model/phase1_golden.cpp:62-65 | 32-bit absolute value, exact above the smallest int |
| GoldenCpp.LfsrStep16 | phase1_demo/bit_accurate_golden_model/phase1_golden.cpp:68-75 | the unsigned 32-bit step is the 16-bit register step and stays in 16 bits |
| GoldenCpp.MapLfsrToSigned | phase1_demo/bit_accurate_golden_model/phase1_golden.cpp:77-83 | the 32-bit mapping is the centred noise and fits in N bits |
| GoldenCpp.NoiseShaperStep | phase1_demo/bit_accurate_golden_model/phase1_golden.cpp:85-92 | wherever the shift is defined in C++, the by-reference update in 32 bits is the unbounded update, and its clipping is the identity |
| GoldenCpp.HaarPair | phase1_demo/bit_accurate_golden_model/phase1_golden.cpp:101-131 | the 32-bit pair stage equals the unbounded unsaturated transform |
| GoldenCpp.ScorePair | phase1_demo/bit_accurate_golden_model/phase1_golden.cpp:259-266 | the wrapping 64-bit counters hold the exact sums after the update |
| GoldenRun.NextSample | phase1_demo/bit_accurate_golden_model/phase1_golden.cpp:242-243 | for every SHIFT: the update is undefined exactly in the excluded cases, and otherwise extends the golden sample stream by one |
| GoldenRun.StepDefinedIff | phase1_demo/bit_accurate_golden_model/phase1_golden.cpp:45-53 | the shift of one update is defined in C++ if and only if SHIFT is in 0..30, or is 31 from a non-negative difference |
| GoldenRun.Turn | phase1_demo/bit_accurate_golden_model/phase1_golden.cpp:241-270 | one turn keeps the whole loop invariant, or no run of the requested length is defined |
| GoldenRun.PairStage | phase1_demo/bit_accurate_golden_model/phase1_golden.cpp:250-267 | the pair branch extends outputs, flags and counters by exactly one pair |
| GoldenRun.Generate | phase1_demo/bit_accurate_golden_model/phase1_golden.cpp:219-270 | the loop is defined if and only if the shift is, and then computes the unbounded sample stream, reconstruction, flags and counters, for every SHIFT, seed, threshold and count |
| GoldenRun.SamplesRecur | phase1_demo/bit_accurate_golden_model/phase1_golden.cpp:241-244 | each golden sample is its predecessor plus the floor of the masked, centred register word minus it, over 2^SHIFT |
| GoldenRun.SameStream | phase1_demo/bit_accurate_golden_model/phase1_golden.cpp:272-279 | the element comparison decides stream equality |
| GoldenRun.EvenCount | phase1_demo/bit_accurate_golden_model/phase1_golden.cpp:210-213 | the rounded sample count is even and at most one below the request |
| GoldenRun.SeedGuard | phase1_demo/bit_accurate_golden_model/phase1_golden.cpp:206-235 | an accepted seed keeps the register alive exactly when its low 16 bits are non-zero; 0x10000 is accepted and is stuck at zero |
| GoldenRun.ZeroThresholdPasses | phase1_demo/bit_accurate_golden_model/phase1_golden.cpp:271-284 | the lossless sanity test holds for every zero-threshold run |
| GoldenRun.RunGolden | phase1_demo/bit_accurate_golden_model/phase1_golden.cpp:189-308 | for every argument tuple: which end in which exit or in undefined behaviour, that exit code 2 is unreachable, and what a completed run has written, also stated on its streams, flags and counters alone |
| GoldenPython.PairStage | phase1_demo/260124_T_RECAP_Golden_v0.py:176-198 | the inlined pair branch with its saturations extends reconstruction and score by one pair |
| GoldenPython.RunV0 | phase1_demo/260124_T_RECAP_Golden_v0.py:143-202 | for every integer argument tuple: which exception is raised when, or the step-first samples; y keeps or flattens each pair by its detail and T, and the metrics measure x against y |
| GoldenPython.RunV3 | phase1_demo/260130_T_RECAP_Golden_MS_Test_V3.py:90-160 | the same for the emit-first order, with its own order of exceptions, at the threshold it was given |
| CrossModel.V0IsCppOnSteppedSeed | phase1_demo/260124_T_RECAP_Golden_v0.py:162-198 | v0 on a seed returns the samples, outputs and counters a C++ run on the stepped seed has written |
| CrossModel.OrdersAgreeIff | phase1_demo/verification/ref_model_phase1.sv:310-314 | on one seed the step-first and the map-first samples are equal if and only if at every position noise words i and i + 1 give one floor-shifted step from the common state |
| CrossModel.OrdersDiffer | phase1_demo/verification/ref_model_phase1.sv:310-311 | at seed 0xACE1, N = 12, SHIFT = 3 the map-first samples start 156, 86 and the step-first samples start -50 |
| CrossModel.V3IsCppDelayed | phase1_demo/260130_T_RECAP_Golden_MS_Test_V3.py:118-152 | the V3 samples are 0 and then the C++ samples of the same seed without the last |
| CrossModel.CompareV0 | phase1_demo/260124_T_RECAP_Golden_v0.py:143-202 | v0 on any live seed and C++ on the stepped seed both complete and agree in samples, outputs and counters |
| CrossModel.CompareV3 | phase1_demo/260130_T_RECAP_Golden_MS_Test_V3.py:90-160 | V3 and C++ on any live seed both complete, V3 one sample behind with 0 in front, and y and the metrics of V3 are the reconstruction and measures of those samples at T |
| CrossModel.V0ThresholdMonotone | phase1_demo/260124_T_RECAP_Golden_v0.py:162-198 | two v0 runs that differ in the threshold have equal samples and ordered counters |
| CrossModel.ExactReconstruction | phase1_demo/260124_T_RECAP_Golden_v0.py:205-212 | every v0 and V3 run at a threshold of zero or below returns y equal to x and no error |
| RefModel.Accumulate64IsWrapped | phase1_demo/verification/ref_model_phase1.sv:365-375 | accumulating in 64-bit counters is exact accumulation modulo 2^64 |
| RefModel.Predictor.StepSample | phase1_demo/verification/ref_model_phase1.sv:277-381 | each call, with its own threshold and bypass bit, appends the next step-first sample and keeps outputs, flags and counters those of all pairs so far |
| RefModel.Predictor.RunNsamp | phase1_demo/verification/ref_model_phase1.sv:401-435 | which arguments are fatal; any other run holds an even number of step-first samples, pairs kept or flattened by detail and threshold, the flags of the small details and the measures modulo 2^64 |
| RtlDatapath.LfsrNextIsStep | phase1_demo/architecture/t_recap_demo_top.sv:346-372 | the concatenation form of the register is the Python and C++ step for W >= 6 |
| RtlDatapath.NoiseTapIsNoise | phase1_demo/architecture/t_recap_demo_top.sv:126-135 | the truncated N+1-bit subtraction is the centred noise |
| RtlDatapath.NextStateIsStep | phase1_demo/architecture/t_recap_demo_top.sv:392-429 | the N+12-bit state update never wraps, equals the unbounded update and needs no saturation |
| RtlDatapath.HaarCoreIsHaarPair | phase1_demo/architecture/t_recap_demo_top.sv:544-567 | the N+1 and N+2-bit core equals the unbounded pair transform on N-bit samples |
| RtlDatapath.AccumBitsIsWrapped | phase1_demo/architecture/t_recap_demo_top.sv:727-768 | accumulating in 32- and 48-bit registers is exact accumulation modulo the widths |
| RtlChain.FrontHolds | phase1_demo/architecture/t_recap_demo_top.sv:437-598 | in every run assembler and core registers mirror the samples taken and the pairs transformed |
| RtlChain.LoadedJob | phase1_demo/architecture/t_recap_demo_top.sv:569-597 | out_valid marks exactly the edges that transformed a pair, at the threshold of that edge |
| RtlChain.JobAt | phase1_demo/architecture/t_recap_demo_top.sv:569-597 | without recursion: a pair completed at one edge is transformed at the threshold of the next and stays at its place in the job list |
| RtlChain.Conservation | phase1_demo/architecture/t_recap_demo_top.sv:606-689 | over every run emitted words, stored words and the pending pair are together all outputs, in order |
| RtlChain.MetricsExact | phase1_demo/architecture/t_recap_demo_top.sv:749-768 | over every run with clears the metrics registers hold the exact score since the last clear, modulo their widths |
| RtlChain.MetricsModulo | phase1_demo/architecture/t_recap_demo_top.sv:690-768 | the three 32-bit registers and the 48-bit one hold the exact sums modulo 2^32 and 2^48 |
| RtlChain.WindowSinceClear | phase1_demo/architecture/t_recap_demo_top.sv:749-768 | with the last clear at edge k the registers account for exactly the pairs transformed from that edge on |
| RtlChain.WindowWithoutClear | phase1_demo/architecture/t_recap_demo_top.sv:749-768 | without a clear they account for all pairs transformed before the last edge |
| RtlChain.PressureBounded | phase1_demo/architecture/t_recap_demo_top.sv:606-687 | with a depth of at least four no enable pattern ever fills the serializer beyond four or overflows it |
| RtlChain.OverflowFreeIffDepth4 | phase1_demo/architecture/t_recap_demo_top.sv:603-608 | a depth of two or more is overflow-free for all runs if and only if it is at least four |
| RtlChain.SpacedNeedsTwo | phase1_demo/architecture/t_recap_demo_top.sv:603-608 | with enables at least three edges apart a depth of two suffices |
| RtlFifo.OutFifoSerializer.Clock | phase1_demo/architecture/t_recap_demo_top.sv:625-687 | the pointer ring implements the queue: pop one, push two or flag the overflow |
| RtlGolden.TickPeriod | phase1_demo/architecture/t_recap_demo_top.sv:309-339 | the divider ticks exactly at the positive multiples of DIV |
| RtlGolden.DividerOverflowFreeIff | phase1_demo/architecture/t_recap_demo_top.sv:94-102 | under the tick divider a depth of two or more is overflow-free for all runs if and only if the depth or the ratio is at least three |
| RtlGolden.SourceIsGolden | phase1_demo/architecture/t_recap_demo_top.sv:113-145 | for every enable pattern the source registers hold the golden register and shaper state, and x_out shows the next golden sample |
| RtlGolden.TakesGoldenIff | phase1_demo/architecture/t_recap_demo_top.sv:137-163 | the samples taken from the assembler's net are the golden samples if and only if the net carries x_out at every enabled edge |
| RtlGolden.DrainedChain | phase1_demo/architecture/t_recap_demo_top.sv:150-244 | at constant threshold a drained chain has produced exactly the reconstruction and score of its samples |
| RtlGolden.DrainedMeaning | phase1_demo/architecture/t_recap_demo_top.sv:150-244 | on the samples taken, the words and the registers alone: pairs kept or flattened by their detail, and the measures modulo the widths |
| RtlGolden.WordsMatchIff | phase1_demo/architecture/t_recap_demo_top.sv:137-244 | for any net and threshold: no overflow, and the words are the golden words if and only if each pair taken is the golden pair or both are suppressed with one rounded mean |
| RtlGolden.LosslessMatchIff | phase1_demo/architecture/t_recap_demo_top.sv:137-244 | for a threshold of zero or below the words are the golden words if and only if the net carries x_out at every enabled edge |
| RtlGolden.UndrivenNetDiverges | phase1_demo/architecture/t_recap_demo_top.sv:137-160 | the undriven net read as zero gives other words than the golden model at seed 0xACE1, N = 12, SHIFT = 3, at every threshold and for all enables |
| RtlGolden.RtlMatchesGolden | phase1_demo/architecture/t_recap_demo_top.sv:27-31 | for a net that carries x_out at every enabled edge: no overflow, the hardware words are those a completed C++ run has written, and so are the counters modulo their widths |
| RtlGolden.BypassIsLossless | phase1_demo/architecture/t_recap_demo_top.sv:81-91 | in bypass every emitted word is the sample at its position and the error registers stay zero |
| Memh.DumpMemhSamples | phase1_demo/bit_accurate_golden_model/phase1_golden.cpp:134-150 | the loop writes one padded two's complement line per sample |
| Memh.LineWidth | phase1_demo/bit_accurate_golden_model/phase1_golden.cpp:145-148 | every line has exactly (N+3)/4 digits |
| Memh.LineDigits | phase1_demo/bit_accurate_golden_model/phase1_golden.cpp:145-148 | digit k from the right is the upper-case digit of the k-th hexadecimal place of the N-bit pattern |
| Memh.FileLayout | phase1_demo/bit_accurate_golden_model/phase1_golden.cpp:141-149 | the text is the lines at a fixed stride, each followed by one line feed |
| Memh.ReadMemhSigned | phase1_demo/bit_accurate_golden_model/viz.py:13-34 | for every text and width: the sign-extended values of the non-blank lines, or a failure on a line that is no number or on a negative shift count |
| Memh.LinesMeaning | phase1_demo/bit_accurate_golden_model/viz.py:20-21 | lines end at a line feed or a carriage return; an unfinished last line counts unless it is empty |
| Memh.StripMeaning | phase1_demo/bit_accurate_golden_model/viz.py:22 | stripping drops exactly the white space at both ends, and nothing is left exactly of blank text |
| Memh.ValuesConcat | phase1_demo/bit_accurate_golden_model/viz.py:21-32 | reading is a homomorphism: two lists of lines are read one after the other, and either failure is the failure |
| Memh.ValuesOfOne | phase1_demo/bit_accurate_golden_model/viz.py:22-32 | a blank line gives no value, any other its sign-extended number or a failure |
| Memh.ParseHexIff | phase1_demo/bit_accurate_golden_model/viz.py:25 | exactly the texts of an optional sign, an optional prefix and a separated digit run are numbers, with that value |
| Memh.DigitValueIff | phase1_demo/bit_accurate_golden_model/viz.py:25 | the sixteen digits in either case have their values, and no other character has one |
| Memh.SignExtendMeaning | phase1_demo/bit_accurate_golden_model/viz.py:27-31 | for every integer: 2^N is subtracted exactly when bit N - 1 is set |
| Memh.RunIff | phase1_demo/bit_accurate_golden_model/viz.py:25 | the readable digit runs are exactly those of digits with single underscores between them |
| Memh.UnderscoresSeparate | phase1_demo/bit_accurate_golden_model/viz.py:25 | a readable run has the value of its digits alone |
| Memh.Spellings | phase1_demo/bit_accurate_golden_model/viz.py:25 | a digit string keeps its value under a plus sign, 0x or 0X_ in front, and is negated by a minus sign |
| Memh.SignExtendInverts | phase1_demo/bit_accurate_golden_model/viz.py:27-31 | testing and subtracting the sign bit inverts the two's complement pattern |
| Memh.FileRoundTrip | phase1_demo/bit_accurate_golden_model/viz.py:13-34 | every list of N-bit samples printed by the C++ dump is read back unchanged |
| SignalGraph.Search | phase2/scripts/check_de1soc_audio_path.py:345-364 | terminates on cyclic graphs; True has a witnessing chain, False leaves every newly visited name explored |
| SignalGraph.SignalDependsOn | phase2/scripts/check_de1soc_audio_path.py:345-364 | True if and only if both names are non-empty and some chain of assigned identifiers ends in a hit |
| SignalGraph.ContainsIff | phase2/scripts/check_de1soc_audio_path.py:350-359 | the substring test holds exactly when the text is something, the name and something |
| SignalGraph.DependsUnfolds | phase2/scripts/check_de1soc_audio_path.py:348-364 | the chain specification satisfies the recursion equation of the code, spelled out on the assignment table |
| NamedBindings.FindMatchingParen | phase2/scripts/check_bram_replay_path.py:483-494 | the depth loop computes the matching parenthesis or the right error |
| NamedBindings.MatchingParenMeaning | phase2/scripts/check_bram_replay_path.py:483-494 | the result is the one closing parenthesis with a balanced inside; unterminated means there is none, and a wrong start is told apart |
| NamedBindings.CloseIffBalanced | phase2/scripts/check_bram_replay_path.py:486-493 | closing at k is equivalent to a balanced text before k, from any depth |
| NamedBindings.BalancedIff | phase2/scripts/check_bram_replay_path.py:486-493 | balance by counting: no prefix closes more than it opens, and both are equally many |
| NamedBindings.SkipSpace | phase2/scripts/check_bram_replay_path.py:497-500 | advances over exactly the leading white space |
| NamedBindings.CompactAnywhere | phase2/scripts/check_bram_replay_path.py:189-190 | compaction drops exactly the white-space characters, wherever they stand |
| NamedBindings.CompactPlain | phase2/scripts/check_bram_replay_path.py:189-190 | an expression without white space is kept unchanged |
| NamedBindings.ParseNamedBindings | phase2/scripts/check_bram_replay_path.py:503-525 | for every text: it is some bindings with inert text between them, and the answer is their map of compacted expressions, the first repeated name, or unterminated |
| NamedBindings.RoundTrip | phase2/scripts/check_bram_replay_path.py:503-525 | bindings separated by any text in which no dot opens a binding are read back as the map of compacted expressions; the first repeated name is rejected, and so is an unclosed binding behind them |
| NamedBindings.Decomposes | phase2/scripts/check_bram_replay_path.py:503-525 | every text is such a list of bindings with a quiet or an unclosed tail |
| NamedBindings.NothingInvented | phase2/scripts/check_bram_replay_path.py:503-525 | for every text, each reported binding is written in it: a point, an identifier, white space and a parenthesised balanced expression |
| JsonPointer.DecodeIsOnePass | phase2/scripts/check_bram_replay_path.py:198 | the two ordered replacements equal one-pass decoding on every string |
| JsonPointer.JoinSplit | phase2/scripts/check_bram_replay_path.py:197 | splitting yields slash-free pieces whose joining restores every string |
| JsonPointer.ResolveLocalRef | phase2/scripts/check_bram_replay_path.py:193-204 | Ok(v) exactly when v is an object and a chain of members along all decoded tokens leads from the root to it; the other two outcomes exactly when the chain breaks or ends in another value |
| JsonPointer.PointerRoundTrip | phase2/scripts/check_bram_replay_path.py:193-204 | escaping as section 4 of RFC 6901 defines it, joining and resolving gives v exactly when the tokens themselves lead to the object v |
| JsonPointer.ResolveNested | phase2/scripts/check_bram_replay_path.py:193-204 | for every token list and object, the escaped pointer finds the object nested under those tokens |
| TclQuote.TclString | phase2/scripts/resolve_runtime_profile.py:78-81 | the five successive replacements are one escaping pass between quotes |
| TclQuote.EscapedAnywhere | phase2/scripts/resolve_runtime_profile.py:78-81 | exactly the backslash, quote, dollar sign and brackets get a backslash, wherever they stand |
| TclQuote.ReadsBack | phase2/scripts/resolve_runtime_profile.py:78-81 | a reader with Tcl's own backslash sequences recovers the value without substitution and stops at the closing quote, whatever follows |
| RingGeometry.BitTrick | phase2/scripts/check_profiles.py:955-958 | size & (size - 1) vanishes exactly on zero and the powers of two, over all integers |
| RingGeometry.DivisorOfPower | phase2/scripts/check_profiles.py:959-962 | a divisor of a power of two is a power of two |
| RingGeometry.AcceptedGeometry | phase2/scripts/check_profiles.py:951-970 | acceptance makes size and alignment powers of two, and masking any pointer gives its ring offset |
| RingGeometry.AcceptIff | phase2/scripts/check_profiles.py:951-970 | exactly the large enough, power-of-two, aligned and guarded geometries pass; any other is rejected for the first test it fails |
| StableSort.StrLessIff | phase2/scripts/address_map_contract.py:226-231 | strings are ordered by the first differing character, a proper prefix first |
| StableSort.KeyLessIff | phase2/scripts/address_map_contract.py:226 | key tuples are ordered by their first differing component |
| StableSort.SortMeaning | phase2/scripts/address_map_contract.py:226-231 | keyed sorting is ascending in that order, a permutation and stable |
| StableSort.SortIff | phase2/scripts/address_map_contract.py:226-231 | the sorted list is the one list of all rows in ascending key order with equal keys in order of arrival |
| StableSort.OrderForgottenIff | phase2/scripts/address_map_contract.py:226-231 | sorting forgets the arrival order if and only if no two different rows share a key |
| AddressMap.SelectKeys | phase2/scripts/address_map_contract.py:62-68 | the loop selects the keys or reports the first missing one |
| AddressMap.SelectMeaning | phase2/scripts/address_map_contract.py:62-68 | success means every key is present, and the result is exactly those entries |
| AddressContent.CollectRows | phase2/scripts/address_map_contract.py:220-231 | exactly the projected rows of all items, in ascending key order with equal keys in document order, or the first error |
| AddressContent.SemanticProjection | phase2/scripts/address_map_contract.py:204-323 | the result is v exactly when v has the content of the raw document: thirteen entries, each selected from its own parent, and the two sorted row lists |
| AddressContent.RowIff | phase2/scripts/address_map_contract.py:98-201 | a raw row is projected exactly to its selected keys and, for a region, its one or three sub-objects with theirs |
| AddressContent.ProjectionIff | phase2/scripts/address_map_contract.py:204-323 | the same equivalence for the functional projection |
| AddressErrors.ErrorIsReal | phase2/scripts/address_map_contract.py:50-68 | every error names a path at which the document has that very defect |
| AddressMap.FreezeBlockIgnored | phase2/scripts/address_map_contract.py:204-323 | the projection does not depend on address_map_freeze |
| AddressMap.ClockOrderIgnored | phase2/scripts/address_map_contract.py:220-226 | permuting string clock connections changes neither success nor the projection |
| AddressMap.RegionOrderIgnored | phase2/scripts/address_map_contract.py:228-231 | permuting regions with pairwise different names changes neither success nor the projection |
| AddressMap.RowOrderForgottenIff | phase2/scripts/address_map_contract.py:220-231 | the order of a readable row list is forgotten if and only if no two different rows share a key |
| AddressMap.SameSortedSameRows | phase2/scripts/address_map_contract.py:220-231 | equal sorted rows come from equal bags of projected rows |
| AddressContent.ProjectionPinsFields | phase2/scripts/address_map_contract.py:233-323 | two documents with one projection agree on every covered field of every parent, and their clock and region lists agree up to order on every covered row field |
| AddressFreeze.FreezeFixpoint | phase2/scripts/address_map_contract.py:326-338 | writing the computed record into its source leaves the recomputed record equal, and check_freeze accepts the file if and only if its five header constants are right |
| AddressFreeze.FreezePinsProjection | phase2/scripts/check_address_map.py:209-224 | two accepted maps with one freeze block have equally digested projections |
| AddressFreeze.FreezePinsFields | phase2/scripts/check_address_map.py:209-224 | under a digest without collisions two accepted maps with one freeze block agree on every covered field, their row lists up to order |
| AddressFreeze.FreezeRecordIff | phase2/scripts/address_map_contract.py:326-338 | the record is r exactly when r has the six entries: constants, the digest of the projected value, and exactly the pinned files with their digests |
| AddressFreeze.CannotHashIff | phase2/scripts/address_map_contract.py:91-95 | hashing fails on f exactly when the map can be projected and f is the first unreadable pinned file |
| AddressFreeze.FreezeAcceptedIff | phase2/scripts/check_address_map.py:209-230 | check_freeze accepts exactly the maps with the five header constants whose block has the content of their own record |
| AddressFreeze.FreezePinsFiles | phase2/scripts/check_address_map.py:217-224 | two maps accepted under two states of the files, with one block, have equal digests of every pinned file |

## Left out

- Memh.ReadMemhSigned: non-ASCII digits, which int(s, 16) also takes, count as unreadable, and the int32 array conversion of out-of-range values is not modelled.
- RefModel.Predictor.RunNsamp: only with reset_first, and reset_model only with clear_hist; the last_* debug copies and the N-bit output ports are not modelled.
- RtlGolden.UndrivenNetDiverges: an undriven net is read as zero; the unknown value of simulation and the resolution of the two drivers of x_stream are not modelled.
- RtlChain.MetricsExact: asynchronous reset in the middle of a run is modelled only as the start of a new run.
- SignalGraph.SignalDependsOn: identifier extraction is an arbitrary function of the expression text rather than the regular expression.
- AddressFreeze.FreezeFixpoint: SHA-256, canonical JSON bytes and file reading are arbitrary functions of the projected value and of the file name; str() of values that are not strings is an arbitrary function.
- TclQuote.ReadsBack: the reader gives up on octal, hexadecimal, Unicode and line-continuation backslash sequences, which never occur in quoted text.
- C++ and Python input and output: argument parsing, CSV rows, the flag and metrics files, plots and the printed summaries.
- The V3 histories supp_hist and err_hist and all floating-point ratios, which only report.
- The debug latch, LEDs and seven-segment outputs of the RTL top, and the key synchronizer in front of the clear pulse.
- phase1_demo/260126_T_RECAP_Golden_v1.py and the verification testbench classes, which repeat the same algorithm.
- The maximal period 65535 of the 16-bit register, a single finite computation.
- The comparisons of JSON, XML, Tcl and RTL text against frozen constants that make up the rest of the phase 2 checking scripts.
