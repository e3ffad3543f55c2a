/** The SystemVerilog reference model of the testbench: a stateful predictor that is stepped one
    sample at a time, with the threshold and bypass bit of each call. */
module RefModel {
  import opened Bits
  import Lfsr
  import Shaper
  import opened Haar
  import NoiseStream
  import opened GoldenPython
  import RtlDatapath

  const UI64 := 0x1_0000_0000_0000_0000

  /** The unsigned 64-bit counters. */
  function Wrap64(m: Metrics): Metrics {
    Metrics(m.totalPairs % UI64, m.suppressedPairs % UI64, m.sumAbsErr % UI64, m.sumSqErr % UI64)
  }

  /** One counter update on wrapping registers. */
  function Accumulate64(m: Metrics, x0: int, x1: int, o: PairOut): Metrics {
    SqErrNonNegative(x0, x1, o);
    Wrap64(Accumulate(m, x0, x1, o))
  }

  lemma Accumulate64IsWrapped(m: Metrics, x0: int, x1: int, o: PairOut)
    ensures Accumulate64(Wrap64(m), x0, x1, o) == Wrap64(Accumulate(m, x0, x1, o))
  {
    hide SqErr, AbsErr;
    RtlDatapath.WrapAdd(m.totalPairs, 1, UI64);
    RtlDatapath.WrapAdd(m.suppressedPairs, if o.suppressed then 1 else 0, UI64);
    RtlDatapath.WrapAdd(m.sumAbsErr, AbsErr(x0, x1, o), UI64);
    RtlDatapath.WrapAdd(m.sumSqErr, SqErr(x0, x1, o), UI64);
  }

  /** The jobs are the consecutive pairs of xs, at thresholds of their own. */
  ghost predicate PairsOf(js: seq<Job>, xs: seq<int>) {
    |js| == |xs| / 2 && forall i :: 0 <= i < |js| ==> js[i].x0 == xs[2 * i] && js[i].x1 == xs[2 * i + 1]
  }

  class Predictor {
    const N: nat
    const shift: nat
    const W: nat
    var lfsrState: int
    var shaperState: int
    var haveX0: bool
    var x0Hold: int
    var xStream: seq<int>
    var yStream: seq<int>
    var supPair: seq<bool>
    var metrics: Metrics
    ghost var seed: int
    ghost var jobs: seq<Job>

    /** Streams, flags and counters are those of the jobs, and the jobs pair up the samples, which are
        the step-first samples of the seed. */
    ghost predicate Valid()
      reads this
    {
      && W >= 6 && 2 <= N <= 30 && 0 < seed < Pow2(W)
      && lfsrState == Lfsr.Iterate(seed, W, |xStream|)
      && shaperState == Shaper.StateAfter(0, NoiseStream.NoisesStepFirst(seed, W, N, |xStream|), shift)
      && xStream == V0Samples(seed, W, N, shift, |xStream|)
      && haveX0 == (|xStream| % 2 == 1)
      && (haveX0 ==> x0Hold == xStream[|xStream| - 1] && Shaper.FitsSigned(x0Hold, N))
      && PairsOf(jobs, xStream)
      && yStream == Outputs(jobs) && supPair == Flags(jobs) && metrics == Wrap64(Score(jobs))
    }

    constructor (N: nat, shift: nat, W: nat)
      ensures this.N == N && this.shift == shift && this.W == W
    {
      this.N, this.shift, this.W := N, shift, W;
    }

    /** reset_model, without its two fatal tests. */
    method Reset(seed: int)
      requires W >= 6 && 0 < seed < Pow2(W)
      modifies this
      ensures lfsrState == seed && shaperState == 0 && !haveX0
      ensures xStream == [] && yStream == [] && supPair == [] && metrics == ZERO
      ensures this.seed == seed && jobs == []
      ensures 2 <= N <= 30 ==> Valid()
    {
      lfsrState, shaperState := seed, 0;
      haveX0, x0Hold := false, 0;
      xStream, yStream, supPair, metrics := [], [], [], ZERO;
      this.seed, jobs := seed, [];
      if N >= 2 { EmptyStreams(seed, W, N, shift); }
      RegisterFacts(seed, W, 0);
      ZeroCounters();
    }

    /** step_sample: the register first, then noise, shaper, sample and, on every second call, the pair
        at the threshold of this call. */
    method StepSample(threshIn: nat, bypass: bool)
      requires Valid()
      modifies this
      ensures Valid() && seed == old(seed)
      ensures |xStream| == |old(xStream)| + 1 && xStream[..|old(xStream)|] == old(xStream)
      ensures jobs == if old(haveX0)
                      then old(jobs) + [Job(old(x0Hold), xStream[|xStream| - 1], if bypass then 0 else threshIn)]
                      else old(jobs)
    {
      hide Lfsr.Iterate, Lfsr.Step, Shaper.StateAfter, Shaper.Step, Shaper.Noise, NoiseStream.NoisesStepFirst,
           V0Samples, RtlDatapath.LfsrNext, Outputs, Flags, Score, HaarPair, HaarPairSat, Sat, Pow2,
           Shaper.FitsSigned, Accumulate, Wrap64, Accumulate64;
      var n := |xStream|;
      SampleStep(seed, W, N, shift, n);
      lfsrState := RtlDatapath.LfsrNext(lfsrState, W);
      var u := Shaper.Noise(lfsrState, N);
      shaperState := Shaper.Step(shaperState, u, shift);
      var x := Sat(shaperState, N);
      ghost var before := xStream;
      xStream := xStream + [x];
      if !haveX0 {
        x0Hold := x;
        haveX0 := true;
      } else {
        haveX0 := false;
        var T := if bypass then 0 else threshIn;
        var o := HaarPairSat(x0Hold, x, T, N);
        PairStep(jobs, x0Hold, x, T, N);
        yStream := yStream + [o.y0, o.y1];
        supPair := supPair + [o.suppressed];
        metrics := Accumulate64(metrics, x0Hold, x, o);
        PairsSnoc(jobs, before, x, T);
        jobs := jobs + [Job(x0Hold, x, T)];
      }
    }

    /** run_nsamp with reset_first: a fatal stop, or the streams of an even number of step-first samples
        at one threshold. */
    method RunNsamp(nsamp: int, threshIn: nat, bypass: bool, seed: int) returns (fatal: bool)
      requires 0 <= seed < Pow2(W)
      modifies this
      ensures fatal <==> seed == 0 || W < 6 || (nsamp >= 2 && !(2 <= N <= 30))
      ensures !fatal && 2 <= N <= 30 ==>
                var T := if bypass then 0 else threshIn;
                var n := if nsamp < 2 then 0 else nsamp - nsamp % 2;
                var js := JobsOf(xStream, T);
                && xStream == V0Samples(seed, W, N, shift, n)
                && yStream == Outputs(js) && supPair == Flags(js) && metrics == Wrap64(Score(js))
      ensures !fatal && 2 <= N <= 30 ==> var T := if bypass then 0 else threshIn; IsScored(xStream, T, yStream, supPair, metrics)
      ensures !fatal && !(2 <= N <= 30) ==> xStream == [] && yStream == [] && supPair == [] && metrics == ZERO
    {
      hide Lfsr.Iterate, Shaper.StateAfter, NoiseStream.NoisesStepFirst, V0Samples, Outputs, Flags, Score, Pow2,
           Wrap64, JobsOf, IsScored;
      if seed == 0 || W < 6 { return true; }
      var n := if nsamp % 2 != 0 then nsamp - 1 else nsamp;
      if n < 0 { n := 0; }
      Reset(seed);
      if !(2 <= N <= 30) {
        return n > 0; // the first mapping is fatal; with no samples none is made
      }
      ghost var T := if bypass then 0 else threshIn;
      var k := 0;
      while k < n
        invariant 0 <= k <= n && Valid() && this.seed == seed && |xStream| == k
        invariant forall i :: 0 <= i < |jobs| ==> jobs[i].T == T
      {
        StepSample(threshIn, bypass);
        k := k + 1;
      }
      SameJobs(jobs, xStream, T);
      JobsAreScored(xStream, T);
      return false;
    }
  }

  /** The registers and the sample of one call. */
  lemma SampleStep(seed: int, W: nat, N: nat, shift: nat, n: nat)
    requires W >= 6 && N >= 1 && 0 < seed < Pow2(W)
    ensures var r := RtlDatapath.LfsrNext(Lfsr.Iterate(seed, W, n), W);
            var s := Shaper.StateAfter(0, NoiseStream.NoisesStepFirst(seed, W, N, n), shift);
            var s' := Shaper.Step(s, Shaper.Noise(r, N), shift);
            && Lfsr.Iterate(seed, W, n + 1) == r
            && Shaper.StateAfter(0, NoiseStream.NoisesStepFirst(seed, W, N, n + 1), shift) == s' == Sat(s', N)
            && Shaper.FitsSigned(s', N)
            && V0Samples(seed, W, N, shift, n + 1) == V0Samples(seed, W, N, shift, n) + [s']
  {
    hide Lfsr.Iterate, Lfsr.Step, Shaper.StateAfter, Shaper.Step, Shaper.Noise, NoiseStream.NoisesStepFirst,
         V0Samples, RtlDatapath.LfsrNext, Sat, Pow2, Shaper.FitsSigned;
    RegisterFacts(seed, W, n);
    Lfsr.IterateInRange(seed, W, n);
    RtlDatapath.LfsrNextIsStep(Lfsr.Iterate(seed, W, n), W);
    StreamSnoc(seed, W, N, shift, n);
    StateFits(seed, W, N, shift, n + 1);
    SatInRange(Shaper.StateAfter(0, NoiseStream.NoisesStepFirst(seed, W, N, n + 1), shift), N);
  }

  /** The outputs, flags and counters of one pair. */
  lemma PairStep(js: seq<Job>, x0: int, x1: int, T: int, N: nat)
    requires N >= 1 && Shaper.FitsSigned(x0, N) && Shaper.FitsSigned(x1, N)
    ensures var o := HaarPairSat(x0, x1, T, N);
            var js' := js + [Job(x0, x1, T)];
            && Outputs(js') == Outputs(js) + [o.y0, o.y1]
            && Flags(js') == Flags(js) + [o.suppressed]
            && Wrap64(Score(js')) == Accumulate64(Wrap64(Score(js)), x0, x1, o)
  {
    hide Outputs, Flags, Score, HaarPair, HaarPairSat, Shaper.FitsSigned, Accumulate, Wrap64, Accumulate64;
    SaturationIsIdentity(x0, x1, T, N);
    Snoc(js, Job(x0, x1, T));
    Accumulate64IsWrapped(Score(js), x0, x1, HaarPair(x0, x1, T));
  }

  /** Outputs, flags and counters of a stream, in terms of the streams and the threshold alone. */
  ghost predicate IsScored(xs: seq<int>, T: int, ys: seq<int>, flags: seq<bool>, m: Metrics) {
    && Reconstructs(xs, T, ys)
    && |flags| == |xs| / 2 && (forall i :: 0 <= i < |flags| ==> flags[i] == Small(xs, T, i))
    && exists exact :: Measures(xs, T, ys, exact) && m == Wrap64(exact)
  }

  lemma JobsAreScored(xs: seq<int>, T: int)
    requires |xs| % 2 == 0
    ensures var js := JobsOf(xs, T);
            IsScored(xs, T, Outputs(js), Flags(js), Wrap64(Score(js)))
  {
    hide Outputs, Flags, Score, JobsOf, HaarPair, Reconstructs, Measures, Wrap64;
    var js := JobsOf(xs, T);
    StreamMeaning(xs, T);
    forall i | 0 <= i < |js| ensures Flags(js)[i] == Small(xs, T, i) {
      PairMeaning(xs[2 * i], xs[2 * i + 1], T);
      assert js[i] == Job(xs[2 * i], xs[2 * i + 1], T);
    }
    assert Measures(xs, T, Outputs(js), Score(js));
  }

  lemma ZeroCounters()
    ensures Wrap64(Score([])) == ZERO
  {
  }

  lemma PairsSnoc(js: seq<Job>, xs: seq<int>, x: int, T: int)
    requires PairsOf(js, xs) && |xs| % 2 == 1
    ensures PairsOf(js + [Job(xs[|xs| - 1], x, T)], xs + [x])
  {
  }

  lemma SameJobs(js: seq<Job>, xs: seq<int>, T: int)
    requires PairsOf(js, xs) && forall i :: 0 <= i < |js| ==> js[i].T == T
    ensures js == JobsOf(xs, T)
  {
    hide JobsOf;
  }
}
