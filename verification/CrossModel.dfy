/** How the three golden models relate: the same computation on shifted streams. */
module CrossModel {
  import opened Bits
  import Lfsr
  import Shaper
  import Haar
  import NoiseStream
  import opened GoldenCpp
  import opened GoldenRun
  import opened GoldenPython

  lemma SteppedSeed(seed: uint32, word: int)
    requires 0 < word < Pow2(16) && seed as int == Lfsr.Step(word, 16)
    ensures FirstWord(seed) == Lfsr.Step(word, 16) && seed != 0
  {
    hide Lfsr.Step, FirstWord, Pow2;
    Pow2At16();
    Lfsr.StepForm(word, 16);
    Lfsr.StepKeepsNonZero(word, 16);
    FirstWordInRange(seed);
  }

  /** The v0 samples are the C++ samples of the once-stepped seed. */
  lemma V0SamplesAreShifted(word: int, N: nat, shift: nat, n: nat)
    requires N >= 1
    ensures V0Samples(word, 16, N, shift, n) == Samples(Lfsr.Step(word, 16), N, shift, n)
  {
    NoiseStream.StepFirstIsShift(word, 16, N, n);
  }

  /** v0 on seed r returns exactly what a completed C++ run on lfsr_step(r) has written: the same
      samples, the same reconstruction and the same four counters. */
  lemma V0IsCppOnSteppedSeed(cfg: Config, o: Outcome, K: int, rseed: int)
    requires GoldenResult(cfg, o) && K >= 1 && cfg.nsamp as int == 2 * K
    requires rseed % 0x1_0000 != 0 && cfg.seed as int == Lfsr.Step(rseed % 0x1_0000, 16)
    ensures var v0 := V0Outcome(K, cfg.N as int, cfg.thresh as int, cfg.shift as int, 16, rseed);
            v0.Returned? && v0.x == Ints(o.x) && v0.y == Ints(o.y) && o.counters.Holds(v0.metrics)
  {
    hide Lfsr.Step, Samples, V0Samples, FirstWord, Haar.Outputs, Haar.Score, Haar.JobsOf, Haar.Flags, Ints, Pow2;
    Pow2At16();
    SteppedSeed(cfg.seed, rseed % 0x1_0000);
    assert 0 <= cfg.shift && Amount(cfg.shift) == cfg.shift as nat;
    V0SamplesAreShifted(rseed % 0x1_0000, cfg.N as nat, cfg.shift as nat, 2 * K);
  }

  /** On one seed the step-first and the map-first order show the same samples exactly when, at every
      position, the noise words i and i + 1 move the common state alike. */
  lemma OrdersAgreeIff(word: int, N: nat, shift: nat, n: nat)
    requires N >= 1
    ensures V0Samples(word, 16, N, shift, n) == Samples(word, N, shift, n) <==>
              forall i: nat :: i < n ==> NoiseMovesAlike(word, N, shift, i)
  {
    hide Shr, Shaper.Noise, Lfsr.Iterate, Shaper.Trajectory, Shaper.StateAfter, NoiseStream.Noises,
         NoiseStream.NoisesStepFirst;
    var us, vs := NoiseStream.Noises(word, 16, N, n), NoiseStream.NoisesStepFirst(word, 16, N, n);
    Shaper.SameTrajectoryIff(0, us, vs, shift);
    forall i: nat | i < n ensures Shaper.MovesAlike(0, us, vs, shift, i) <==> NoiseMovesAlike(word, N, shift, i) {
      NoiseStream.NoiseAt(word, 16, N, n, i);
      NoiseStream.StepFirstAt(word, 16, N, n, i);
      NoiseStream.NoisesPrefix(word, 16, N, n, i);
    }
  }

  predicate NoiseMovesAlike(word: int, N: nat, shift: nat, i: nat)
    requires N >= 1
  {
    var s := Shaper.StateAfter(0, NoiseStream.Noises(word, 16, N, i), shift);
    Shr(Shaper.Noise(Lfsr.Iterate(word, 16, i), N) - s, shift)
    == Shr(Shaper.Noise(Lfsr.Iterate(word, 16, i + 1), N) - s, shift)
  }

  /** The two orders do differ: the default seed, width and shift, first samples. */
  lemma OrdersDiffer()
    ensures Samples(0xACE1, 12, 3, 2) == [156, 86]
    ensures V0Samples(0xACE1, 16, 12, 3, 1) == [-50]
    ensures V0Samples(0xACE1, 16, 12, 3, 1) != Samples(0xACE1, 12, 3, 1)
  {
    hide Samples, V0Samples, Lfsr.Step;
    DefaultWords();
    FirstSamples(0xACE1, 12, 3);
    V0SamplesAreShifted(0xACE1, 12, 3, 1);
    FirstSamples(0x5670, 12, 3);
  }

  lemma {:induction false} SamplesPrefix(word: int, N: nat, shift: nat, i: nat, n: nat)
    requires N >= 1 && i <= n
    ensures Samples(word, N, shift, n)[..i] == Samples(word, N, shift, i)
  {
    hide Samples, Shaper.Step, Shaper.Noise, Shaper.StateAfter, NoiseStream.Noises, Lfsr.Iterate;
    if i < n {
      SamplesPrefix(word, N, shift, i, n - 1);
      SamplesSnoc(word, N, shift, n - 1);
    } else {
      assert Samples(word, N, shift, n)[..n] == Samples(word, N, shift, n);
    }
  }

  /** Every longer default run starts with the same two samples. */
  lemma DefaultStream(word: int, N: nat, shift: nat, n: nat)
    requires word == 0xACE1 && N == 12 && shift == 3 && n >= 2
    ensures Samples(word, N, shift, n)[0] == 156 && Samples(word, N, shift, n)[1] == 86
  {
    hide Samples, V0Samples;
    OrdersDiffer();
    SamplesPrefix(word, N, shift, 2, n);
    var xs := Samples(word, N, shift, n);
    assert xs[..2] == [156, 86];
    assert xs[0] == xs[..2][0] && xs[1] == xs[..2][1];
  }

  /** The first two samples from the first two noise words. */
  lemma FirstSamples(word: int, N: nat, shift: nat)
    requires N >= 1
    ensures var a := Shaper.Step(0, Shaper.Noise(word, N), shift);
            && Samples(word, N, shift, 1) == [a]
            && Samples(word, N, shift, 2) == [a, Shaper.Step(a, Shaper.Noise(Lfsr.Step(word, 16), N), shift)]
  {
    hide Samples, Lfsr.Step, Shaper.Noise, Shaper.Step;
    SamplesSnoc(word, N, shift, 0);
    SamplesSnoc(word, N, shift, 1);
    EmptyAgrees(word, N, shift, 0);
    IterateNext(word, 0);
  }

  /** The default seed steps to 0x5670; the two words as 12-bit noise, and what they do to the state. */
  lemma DefaultWords()
    ensures Lfsr.Step(0xACE1, 16) == 0x5670
    ensures Shaper.Step(0, Shaper.Noise(0xACE1, 12), 3) == 156
    ensures Shaper.Step(156, Shaper.Noise(0x5670, 12), 3) == 86
    ensures Shaper.Step(0, Shaper.Noise(0x5670, 12), 3) == -50
  {
    hide Lfsr.Step, Lfsr.Feedback, Shaper.Noise;
    Pow2At16();
    Lfsr.StepForm(0xACE1, 16);
    Lfsr.FeedbackIsParity(0xACE1);
    assert Bit(0x5670, 1) == 0 && Bit(0x5670, 2) == 0 && Bit(0x5670, 4) == 1;
    assert Pow2(11) == 2048 && Pow2(12) == 4096;
    Shaper.NoiseRange(0xACE1, 12);
    Shaper.NoiseRange(0x5670, 12);
  }

  /** The V3 samples are the C++ samples of the same seed delayed by one, with 0 in front. */
  lemma V3SamplesAreDelayed(word: int, W: nat, N: nat, shift: nat, n: nat)
    requires W >= 1 && N >= 1
    ensures V3Samples(word, W, N, shift, n + 1) == [0] + Shaper.Trajectory(0, NoiseStream.Noises(word, W, N, n), shift)
  {
    hide Shaper.EmitFirst, Shaper.Trajectory, Shaper.Noise, Lfsr.Iterate;
    Shaper.EmitFirstIsDelay(0, NoiseStream.Noises(word, W, N, n), Shaper.Noise(Lfsr.Iterate(word, W, n), N), shift);
  }

  lemma V3FromCppSamples(word: int, N: nat, shift: nat, n: nat)
    requires N >= 1
    ensures V3Samples(word, 16, N, shift, n + 1) == [0] + Samples(word, N, shift, n + 1)[..n]
  {
    hide V3Samples, Shaper.Step, Shaper.Noise, Shaper.Trajectory, Shaper.StateAfter, Lfsr.Iterate;
    SamplesSnoc(word, N, shift, n);
    V3SamplesAreDelayed(word, 16, N, shift, n);
  }

  /** V3 on seed r shows 0 and then the C++ stream on r without its last sample. */
  lemma V3IsCppDelayed(cfg: Config, o: Outcome, K: int, rseed: int)
    requires GoldenResult(cfg, o) && K >= 1 && cfg.nsamp as int == 2 * K
    requires rseed % 0x1_0000 != 0 && cfg.seed as int == rseed % 0x1_0000
    ensures var v3 := V3Outcome(K, cfg.N as int, cfg.thresh as int, cfg.shift as int, 16, rseed);
            v3.Returned? && v3.x == [0] + Ints(o.x)[..2 * K - 1]
  {
    hide Samples, V3Samples, FirstWord, Haar.Outputs, Haar.Score, Haar.JobsOf, Haar.Flags, Ints, Pow2, Agrees;
    Pow2At16();
    FirstWordInRange(cfg.seed);
    assert 0 <= cfg.shift && Amount(cfg.shift) == cfg.shift as nat;
    V3FromCppSamples(rseed % 0x1_0000, cfg.N as nat, cfg.shift as nat, 2 * K - 1);
  }

  /** Threshold monotonicity of a whole v0 run: the same samples, and no counter decreases. */
  lemma V0ThresholdMonotone(K: int, N: int, T1: int, T2: int, shift: int, W: int, rseed: int)
    requires T1 <= T2
    ensures var a, b := V0Outcome(K, N, T1, shift, W, rseed), V0Outcome(K, N, T2, shift, W, rseed);
            if a.Raised? then b == a
            else
              && b.Returned? && a.x == b.x
              && a.metrics.totalPairs == b.metrics.totalPairs
              && a.metrics.suppressedPairs <= b.metrics.suppressedPairs
              && a.metrics.sumAbsErr <= b.metrics.sumAbsErr
              && a.metrics.sumSqErr <= b.metrics.sumSqErr
  {
    hide Haar.Outputs, Haar.Score, Haar.JobsOf, V0Samples, Pow2;
    var a := V0Outcome(K, N, T1, shift, W, rseed);
    if a.Returned? {
      Haar.ThresholdMonotone(Haar.JobsOf(a.x, T1), Haar.JobsOf(a.x, T2));
    }
  }

  /** Exact reconstruction of every v0 and V3 run at a threshold of zero or below. */
  lemma ExactReconstruction(K: int, N: int, T: int, shift: int, W: int, rseed: int)
    requires T <= 0
    ensures var a := V0Outcome(K, N, T, shift, W, rseed);
            a.Returned? ==> a.y == a.x && a.metrics == Haar.Metrics(K, 0, 0, 0)
    ensures var b := V3Outcome(K, N, T, shift, W, rseed);
            b.Returned? ==> b.y == b.x && b.metrics == Haar.Metrics(K, 0, 0, 0)
  {
    hide Haar.Outputs, Haar.Score, Haar.JobsOf, Pow2, Shaper.Trajectory, Shaper.EmitFirst,
         NoiseStream.Noises, NoiseStream.NoisesStepFirst;
    var a, b := V0Outcome(K, N, T, shift, W, rseed), V3Outcome(K, N, T, shift, W, rseed);
    if a.Returned? { Haar.ZeroThresholdLossless(a.x, T); }
    if b.Returned? { Haar.ZeroThresholdLossless(b.x, T); }
  }

  /** Both programs run side by side: v0 on the seed, C++ on the stepped seed. Whatever the
      parameters, both complete and agree in samples, outputs and counters. */
  method CompareV0(K: int, N: int32, T: int32, shift: int32, rseed: int) returns (py: PyResult, cpp: Outcome)
    requires 1 <= K < 0x4000_0000 && SupportedWidth(N) && SupportedShift(shift) && rseed % 0x1_0000 != 0
    ensures py.Returned? && cpp.Done?
    ensures py.x == Ints(cpp.x) && py.y == Ints(cpp.y) && cpp.counters.Holds(py.metrics)
  {
    hide Lfsr.Step, Pow2, V0Outcome, Ints, GoldenResult;
    var word := rseed % 0x1_0000;
    Pow2At16();
    Lfsr.StepForm(word, 16);
    Lfsr.StepKeepsNonZero(word, 16);
    var cfg := Config(N, shift, T, Lfsr.Step(word, 16) as uint32, (2 * K) as int32);
    py := RunV0(K, N as int, T as int, shift as int, 16, rseed);
    cpp := RunGolden(cfg);
    V0IsCppOnSteppedSeed(cfg, cpp, K, rseed);
  }

  /** The same for V3 and C++ on one seed: V3 shows 0 and then the C++ samples without the last. */
  method CompareV3(K: int, N: int32, T: int32, shift: int32, rseed: int) returns (py: PyResult, cpp: Outcome)
    requires 1 <= K < 0x4000_0000 && SupportedWidth(N) && SupportedShift(shift) && rseed % 0x1_0000 != 0
    ensures py.Returned? && cpp.Done? && |Ints(cpp.x)| == 2 * K
    ensures py.x == [0] + Ints(cpp.x)[..2 * K - 1]
    ensures Haar.Reconstructs(py.x, T as int, py.y) && Haar.Measures(py.x, T as int, py.y, py.metrics)
  {
    hide Pow2, V3Outcome, Ints, Haar.Reconstructs, Haar.Measures;
    var cfg := Config(N, shift, T, (rseed % 0x1_0000) as uint32, (2 * K) as int32);
    py := RunV3(K, N as int, T as int, shift as int, 16, rseed);
    cpp := RunGolden(cfg);
    V3IsCppDelayed(cfg, cpp, K, rseed);
  }
}
