/** The C++ program as a whole: the generation loop and main, refined to the stream
    definitions of NoiseStream and Haar. */
module GoldenRun {
  import opened Bits
  import Lfsr
  import Shaper
  import Haar
  import NoiseStream
  import opened GoldenCpp

  datatype Config = Config(N: int32, shift: int32, thresh: int32, seed: uint32, nsamp: int32)

  /** What the process does: exit with an error code, die in an uncaught exception, run into an
      operation C++ leaves undefined, or write its streams and counters. */
  datatype Outcome =
    | Exit(code: int)
    | Uncaught
    | Undefined
    | Done(x: seq<int32>, y: seq<int32>, flags: seq<int32>, counters: Counters)

  /** Register word the loop starts from: the seed's low 16 bits. */
  function FirstWord(seed: uint32): int { And(seed as int, 0xFFFF) }

  /** The golden sample stream, free of any machine width. */
  function Samples(word: int, N: nat, shift: nat, n: nat): (xs: seq<int>)
    requires N >= 1
    ensures |xs| == n
  {
    Shaper.Trajectory(0, NoiseStream.Noises(word, 16, N, n), shift)
  }

  lemma FirstWordInRange(seed: uint32)
    ensures FirstWord(seed) == seed as int % 0x1_0000
    ensures 0 <= FirstWord(seed) < Pow2(16)
  {
    hide And;
    Pow2At16();
    AndMask(seed as int, 16);
  }

  lemma SamplesSnoc(word: int, N: nat, shift: nat, n: nat)
    requires N >= 1
    ensures var us := NoiseStream.Noises(word, 16, N, n);
            var s := Shaper.Step(Shaper.StateAfter(0, us, shift), Shaper.Noise(Lfsr.Iterate(word, 16, n), N), shift);
            && Shaper.StateAfter(0, NoiseStream.Noises(word, 16, N, n + 1), shift) == s
            && Samples(word, N, shift, n + 1) == Samples(word, N, shift, n) + [s]
  {
    hide Shaper.Step, Shaper.Noise, Lfsr.Iterate, Shaper.Trajectory, Shaper.StateAfter;
    Shaper.TrajectorySnoc(0, NoiseStream.Noises(word, 16, N, n), Shaper.Noise(Lfsr.Iterate(word, 16, n), N), shift);
  }

  /** Each sample from the one before it and the masked, centred register word. */
  lemma SamplesRecur(word: int, N: nat, shift: nat, n: nat, i: nat)
    requires N >= 1 && i < n
    ensures var xs := Samples(word, N, shift, n);
            var before := if i == 0 then 0 else xs[i - 1];
            xs[i] == before + (Lfsr.Iterate(word, 16, i) % Pow2(N) - Pow2(N - 1) - before) / Pow2(shift)
  {
    hide Pow2, Lfsr.Iterate, Shaper.Trajectory, Shaper.Noise, NoiseStream.Noises;
    Shaper.TrajectoryRecurs(0, NoiseStream.Noises(word, 16, N, n), shift, i);
    NoiseStream.NoiseAt(word, 16, N, n, i);
    Shaper.NoiseRange(Lfsr.Iterate(word, 16, i), N);
  }

  ghost predicate FlagsMatch(flags: seq<int32>, spec: seq<bool>) {
    |flags| == |spec| && forall i :: 0 <= i < |spec| ==> flags[i] == (if spec[i] then 1 else 0)
  }

  /** Streams and counters agree with the mathematical transform of the samples so far. */
  ghost predicate Agrees(xs: seq<int>, T: int, y: seq<int32>, flags: seq<int32>, c: Counters) {
    var js := Haar.JobsOf(xs, T);
    Ints(y) == Haar.Outputs(js) && FlagsMatch(flags, Haar.Flags(js)) && c.Holds(Haar.Score(js))
  }

  /** One completed pair extends the agreement by one job. */
  lemma AgreesSnoc(xs: seq<int>, x1: int32, T: int, y: seq<int32>, flags: seq<int32>, c: Counters,
                   po: PairOut, c': Counters)
    requires |xs| % 2 == 1 && Agrees(xs, T, y, flags, c)
    requires 0 <= po.suppressed <= 1
    requires var x0 := xs[|xs| - 1];
             var o := Haar.PairOut(po.y0 as int, po.y1 as int, po.suppressed == 1);
             && o == Haar.HaarPair(x0, x1 as int, T)
             && c'.Holds(Haar.Accumulate(Haar.Score(Haar.JobsOf(xs, T)), x0, x1 as int, o))
    ensures Agrees(xs + [x1 as int], T, y + [po.y0, po.y1], flags + [po.suppressed], c')
  {
    hide Haar.HaarPair, Haar.Score, Haar.Outputs, Haar.Flags, Haar.JobsOf, Haar.Accumulate;
    Haar.JobsOfSnoc(xs, x1 as int, T);
    Haar.Snoc(Haar.JobsOf(xs, T), Haar.Job(xs[|xs| - 1], x1 as int, T));
    IntsSnoc(y, po.y0);
    IntsSnoc(y + [po.y0], po.y1);
    assert y + [po.y0] + [po.y1] == y + [po.y0, po.y1];
    assert Ints(y + [po.y0, po.y1]) == Ints(y) + [po.y0 as int, po.y1 as int];
  }

  /** The pair branch of the loop body: transform, append outputs and flag, update the counters. */
  method PairStage(x0: int32, x1: int32, thresh: int32, N: int32, y: seq<int32>, flags: seq<int32>, c: Counters,
                   ghost word: int, ghost shift: nat, ghost n: nat, ghost before: seq<int>)
    returns (y': seq<int32>, flags': seq<int32>, c': Counters)
    requires SupportedWidth(N) && Fits(x0, N) && Fits(x1, N)
    requires 0 <= word < Pow2(16) && n < 0x8000_0000
    requires |before| % 2 == 1 && x0 as int == before[|before| - 1]
    requires Samples(word, N as nat, shift, n) == before + [x1 as int]
    requires Agrees(before, thresh as int, y, flags, c)
    ensures Agrees(before + [x1 as int], thresh as int, y', flags', c')
  {
    hide Haar.Score, Haar.Outputs, Haar.Flags, Haar.JobsOf, Haar.Accumulate, Haar.HaarPair, Samples, Agrees, Pow2;
    ghost var T := thresh as int;
    var po := HaarPair(x0, x1, thresh, N);
    ExactSumsFit(word, N as nat, n, shift, T, before, x1 as int);
    AgreesCounters(before, T, y, flags, c);
    assert Haar.PairOut(po.y0 as int, po.y1 as int, po.suppressed == 1) == Haar.HaarPair(x0 as int, x1 as int, T);
    c' := ScorePair(c, x0, x1, po, N, Haar.Score(Haar.JobsOf(before, T)));
    AgreesSnoc(before, x1, T, y, flags, c, po, c');
    y' := y + [po.y0, po.y1];
    flags' := flags + [po.suppressed];
  }

  /** No noise word of the first n is negative. */
  ghost predicate NonNegativeNoise(word: int, N: nat, n: nat)
    requires N >= 1
  {
    forall i: nat :: i < n ==> Shaper.Noise(Lfsr.Iterate(word, 16, i), N) >= 0
  }

  /** SHIFT values for which a run of n samples is defined. The program does not test SHIFT: 0..30
      always run, 31 runs as long as the noise is not negative, and anything else fails at once. */
  ghost predicate ShiftRuns(shift: int32, word: int, N: nat, n: nat)
    requires N >= 1
  {
    n == 0 || SupportedShift(shift) || (shift == 31 && NonNegativeNoise(word, N, n))
  }

  /** A run of n samples extends by one, or no longer run is defined. */
  lemma RunsStep(shift: int32, word: int, N: nat, n: nat, total: nat)
    requires N >= 1 && n < total && ShiftRuns(shift, word, N, n)
    ensures var defined := SupportedShift(shift) || (shift == 31 && Shaper.Noise(Lfsr.Iterate(word, 16, n), N) >= 0);
            if defined then ShiftRuns(shift, word, N, n + 1) else !ShiftRuns(shift, word, N, total)
  {
    hide Shaper.Noise, Lfsr.Iterate;
  }

  /** SHIFT as a shift amount; the value is irrelevant where no run is defined. */
  function Amount(shift: int32): nat { if shift < 0 then 0 else shift as nat }

  lemma StepDefinedIff(state: int32, u: int32, shift: int32, N: int32)
    requires SupportedWidth(N) && Fits(state, N) && Fits(u, N) && (shift == 31 ==> state == 0)
    ensures ShiftDefined(u as int - state as int, shift) <==> SupportedShift(shift) || (shift == 31 && u >= 0)
    ensures shift == 31 && u >= 0 ==> Shaper.Step(0, u as int, 31) == 0
  {
    hide Shr, Pow2;
    HalfRange(N);
    if SupportedShift(shift) { NoiseStream.SmallPowers(shift as nat); }
    Pow2At31();
    if shift == 31 && u >= 0 { Shaper.FloorShift(u as int, 31); }
  }

  lemma Pow2At31()
    ensures Pow2(31) == 0x8000_0000
  {
    Pow2At32();
    Pow2Double(32);
  }

  /** One noise word mapped and shaped: the next golden sample, if the shift is defined on it. */
  method NextSample(lfsr: uint32, state: int32, shift: int32, N: int32, ghost word: int, ghost n: nat)
    returns (defined: bool, state': int32, sample: int32)
    requires SupportedWidth(N) && Fits(state, N) && (shift == 31 ==> state == 0)
    requires lfsr as int == Lfsr.Iterate(word, 16, n)
    requires state as int == Shaper.StateAfter(0, NoiseStream.Noises(word, 16, N as nat, n), Amount(shift))
    ensures defined <==> SupportedShift(shift)
                         || (shift == 31 && Shaper.Noise(Lfsr.Iterate(word, 16, n), N as nat) >= 0)
    ensures defined ==>
              && state' as int == Shaper.StateAfter(0, NoiseStream.Noises(word, 16, N as nat, n + 1), Amount(shift))
              && sample == state' && Fits(sample, N) && (shift == 31 ==> state' == 0)
              && Samples(word, N as nat, Amount(shift), n + 1)
                 == Samples(word, N as nat, Amount(shift), n) + [sample as int]
  {
    hide Shaper.Noise, Shaper.Step, Shaper.StateAfter, NoiseStream.Noises, Samples, Lfsr.Iterate, ShiftDefined;
    var u := MapLfsrToSigned(lfsr, N);
    SamplesSnoc(word, N as nat, Amount(shift), n);
    StepDefinedIff(state, u, shift, N);
    if !ShiftDefined(u as int - state as int, shift) { return false, 0, 0; }
    defined := true;
    state', sample := NoiseShaperStep(state, u, shift, N);
  }

  /** The variables the loop carries. */
  datatype Loop = Loop(lfsr: uint32, state: int32, haveX0: bool, x0: int32,
                       x: seq<int32>, y: seq<int32>, flags: seq<int32>, c: Counters)

  /** The loop invariant after n turns. */
  ghost predicate Reached(l: Loop, N: int32, shift: int32, thresh: int32, word: int, n: nat)
    requires SupportedWidth(N)
  {
    && l.lfsr as int == Lfsr.Iterate(word, 16, n)
    && l.state as int == Shaper.StateAfter(0, NoiseStream.Noises(word, 16, N as nat, n), Amount(shift))
    && Fits(l.state, N) && (shift == 31 ==> l.state == 0)
    && ShiftRuns(shift, word, N as nat, n)
    && Ints(l.x) == Samples(word, N as nat, Amount(shift), n)
    && l.haveX0 == (n % 2 == 1)
    && (l.haveX0 ==> l.x != [] && l.x0 == l.x[|l.x| - 1] && Fits(l.x0, N))
    && Agrees(Ints(l.x), thresh as int, l.y, l.flags, l.c)
  }

  /** One turn of the loop. */
  method Turn(l: Loop, N: int32, shift: int32, thresh: int32, ghost word: int, ghost n: nat, ghost total: nat)
    returns (defined: bool, l': Loop)
    requires SupportedWidth(N) && 0 <= word < Pow2(16) && n < total < 0x8000_0000
    requires Reached(l, N, shift, thresh, word, n)
    ensures defined ==> Reached(l', N, shift, thresh, word, n + 1)
    ensures !defined ==> !ShiftRuns(shift, word, N as nat, total)
  {
    hide Lfsr.Step, Shaper.Noise, Shaper.StateAfter, NoiseStream.Noises, Samples, Agrees, Pow2, Shaper.FitsSigned,
         Lfsr.Iterate, Ints, ShiftRuns, Amount;
    RunsStep(shift, word, N as nat, n, total);
    var state, sample;
    defined, state, sample := NextSample(l.lfsr, l.state, shift, N, word, n);
    if !defined { return false, l; }
    IntsSnoc(l.x, sample);
    IterateNext(word, n);
    l' := l.(lfsr := LfsrStep16(l.lfsr), state := state, x := l.x + [sample], haveX0 := !l.haveX0);
    if !l.haveX0 {
      UnpairedAgrees(Ints(l.x), sample as int, thresh as int, l.y, l.flags, l.c);
      l' := l'.(x0 := sample);
    } else {
      var y, flags, c := PairStage(l.x0, sample, thresh, N, l.y, l.flags, l.c, word, Amount(shift), n + 1, Ints(l.x));
      l' := l'.(y := y, flags := flags, c := c);
    }
  }

  /** The generation loop. For every supported width, every SHIFT, threshold, seed and sample count it
      is defined exactly when ShiftRuns says so, and then all machine results equal the exact ones. */
  method Generate(N: int32, shift: int32, thresh: int32, seed: uint32, nsamp: int32)
    returns (defined: bool, l: Loop)
    requires SupportedWidth(N) && nsamp >= 0
    ensures defined <==> ShiftRuns(shift, FirstWord(seed), N as nat, nsamp as nat)
    ensures defined ==> Ints(l.x) == Samples(FirstWord(seed), N as nat, Amount(shift), nsamp as nat)
    ensures defined ==> Agrees(Ints(l.x), thresh as int, l.y, l.flags, l.c)
  {
    hide ShiftRuns, FirstWord, Pow2, Reached, Agrees, Samples, Ints;
    FirstWordInRange(seed);
    l := Loop(FirstWord(seed) as uint32, 0, false, 0, [], [], [], Counters(0, 0, 0, 0));
    defined := true;
    LoopStart(l, N, shift, thresh, FirstWord(seed));
    var n: int32 := 0;
    while n < nsamp
      invariant 0 <= n <= nsamp && defined
      invariant Reached(l, N, shift, thresh, FirstWord(seed), n as nat)
    {
      defined, l := Turn(l, N, shift, thresh, FirstWord(seed), n as nat, nsamp as nat);
      if !defined { return; }
      n := n + 1;
    }
    LoopEnd(l, N, shift, thresh, FirstWord(seed), n as nat);
  }

  lemma LoopStart(l: Loop, N: int32, shift: int32, thresh: int32, word: int)
    requires SupportedWidth(N) && 0 <= word < Pow2(16) && word < 0x1_0000_0000
    requires l == Loop(word as uint32, 0, false, 0, [], [], [], Counters(0, 0, 0, 0))
    ensures Reached(l, N, shift, thresh, word, 0)
  {
    hide Pow2, Samples, Agrees, Shaper.StateAfter, NoiseStream.Noises, Lfsr.Iterate;
    EmptyAgrees(word, N as nat, Amount(shift), thresh as int);
    IterateNext(word, 0);
    NoiseStream.SamplesFit(word, 16, N as nat, 0, Amount(shift));
  }

  lemma LoopEnd(l: Loop, N: int32, shift: int32, thresh: int32, word: int, n: nat)
    requires SupportedWidth(N) && Reached(l, N, shift, thresh, word, n)
    ensures ShiftRuns(shift, word, N as nat, n)
    ensures Ints(l.x) == Samples(word, N as nat, Amount(shift), n)
    ensures Agrees(Ints(l.x), thresh as int, l.y, l.flags, l.c)
  {
    hide ShiftRuns, Agrees, Samples, Ints;
  }

  lemma IterateNext(word: int, n: nat)
    ensures Lfsr.Iterate(word, 16, 0) == word
    ensures Lfsr.Iterate(word, 16, n + 1) == Lfsr.Step(Lfsr.Iterate(word, 16, n), 16)
  {
    hide Lfsr.Step;
  }

  lemma EmptyAgrees(word: int, N: nat, shift: nat, T: int)
    requires N >= 1
    ensures Samples(word, N, shift, 0) == [] == Ints([])
    ensures Agrees([], T, [], [], Counters(0, 0, 0, 0))
    ensures Shaper.StateAfter(0, NoiseStream.Noises(word, 16, N, 0), shift) == 0
  {
    assert Haar.JobsOf([], T) == [];
  }

  lemma AgreesCounters(xs: seq<int>, T: int, y: seq<int32>, flags: seq<int32>, c: Counters)
    requires Agrees(xs, T, y, flags, c)
    ensures c.Holds(Haar.Score(Haar.JobsOf(xs, T)))
  {
  }

  lemma UnpairedAgrees(xs: seq<int>, x: int, T: int, y: seq<int32>, flags: seq<int32>, c: Counters)
    requires |xs| % 2 == 0 && Agrees(xs, T, y, flags, c)
    ensures Agrees(xs + [x], T, y, flags, c)
  {
    Haar.JobsOfSnoc(xs, x, T);
  }

  /** The sums after the pair that is about to be scored still fit. */
  lemma ExactSumsFit(word: int, N: nat, n: nat, shift: nat, T: int, before: seq<int>, x1: int)
    requires 0 <= word < Pow2(16) && 2 <= N <= 30 && n < 0x8000_0000 && |before| % 2 == 1
    requires Samples(word, N, shift, n) == before + [x1]
    ensures var x0 := before[|before| - 1];
            var m := Haar.Accumulate(Haar.Score(Haar.JobsOf(before, T)), x0, x1, Haar.HaarPair(x0, x1, T));
            && m.sumAbsErr <= m.sumSqErr < 0x4000_0000_0000_0000
            && m.suppressedPairs <= m.totalPairs < 0x4000_0000_0000_0000
  {
    hide Haar.Score, Haar.JobsOf, Haar.Accumulate, Haar.HaarPair, Shaper.Trajectory;
    NoiseStream.AccumulatorsFit(word, N, n, shift, T);
    Haar.JobsOfSnoc(before, x1, T);
    Haar.Snoc(Haar.JobsOf(before, T), Haar.Job(before[|before| - 1], x1, T));
  }

  /** The element-by-element comparison of the sanity test. */
  method SameStream(x: seq<int32>, y: seq<int32>) returns (ok: bool)
    ensures ok <==> x == y
  {
    ok := true;
    if |x| != |y| {
      ok := false;
    } else {
      var i := 0;
      while i < |x|
        invariant 0 <= i <= |x|
        invariant ok && x[..i] == y[..i]
      {
        if x[i] != y[i] {
          ok := false;
          return;
        }
        i := i + 1;
      }
      assert x == x[..i] && y == y[..i];
    }
  }

  /** The even sample count the loop runs for: an odd request is rounded down. */
  function EvenCount(nsamp: int32): (n: int)
    ensures n % 2 == 0 && nsamp as int - 1 <= n <= nsamp as int
  {
    if nsamp % 2 != 0 then nsamp as int - 1 else nsamp as int
  }

  lemma IntsInjective(x: seq<int32>, y: seq<int32>)
    requires Ints(x) == Ints(y)
    ensures x == y
  {
    forall i | 0 <= i < |x| ensures x[i] == y[i] {
      assert Ints(x)[i] == Ints(y)[i];
    }
  }

  /** What a completed run has written, in terms of the unbounded definitions only. */
  ghost predicate GoldenResult(cfg: Config, o: Outcome) {
    && o.Done? && SupportedWidth(cfg.N) && EvenCount(cfg.nsamp) >= 0
    && ShiftRuns(cfg.shift, FirstWord(cfg.seed), cfg.N as nat, EvenCount(cfg.nsamp))
    && Ints(o.x) == Samples(FirstWord(cfg.seed), cfg.N as nat, Amount(cfg.shift), EvenCount(cfg.nsamp))
    && Agrees(Ints(o.x), cfg.thresh as int, o.y, o.flags, o.counters)
  }

  /** What was written, in terms of the written streams and the threshold alone. */
  ghost predicate IsWritten(x: seq<int32>, T: int, y: seq<int32>, flags: seq<int32>, c: Counters) {
    && Haar.Reconstructs(Ints(x), T, Ints(y))
    && |flags| == |x| / 2
    && (forall i :: 0 <= i < |flags| ==> flags[i] == if Haar.Small(Ints(x), T, i) then 1 else 0)
    && exists m :: c.Holds(m) && Haar.Measures(Ints(x), T, Ints(y), m)
  }

  lemma AgreesIsWritten(x: seq<int32>, T: int, y: seq<int32>, flags: seq<int32>, c: Counters)
    requires |x| % 2 == 0 && Agrees(Ints(x), T, y, flags, c)
    ensures IsWritten(x, T, y, flags, c)
  {
    hide Haar.Outputs, Haar.Score, Haar.JobsOf, Haar.Flags, Haar.Reconstructs, Haar.Measures, Haar.HaarPair;
    var xs := Ints(x);
    var js := Haar.JobsOf(xs, T);
    Haar.StreamMeaning(xs, T);
    forall i | 0 <= i < |flags| ensures flags[i] == if Haar.Small(xs, T, i) then 1 else 0 {
      Haar.PairMeaning(xs[2 * i], xs[2 * i + 1], T);
      assert js[i] == Haar.Job(xs[2 * i], xs[2 * i + 1], T);
    }
    assert c.Holds(Haar.Score(js)) && Haar.Measures(xs, T, Ints(y), Haar.Score(js));
  }

  /** The guard tests the unmasked seed. A seed it accepts keeps the register alive exactly when its
      low 16 bits are non-zero; 0x10000 passes the guard and yields a register stuck at zero. */
  lemma SeedGuard(seed: uint32)
    ensures (forall n: nat :: Lfsr.Iterate(FirstWord(seed), 16, n) != 0) <==> seed as int % 0x1_0000 != 0
    ensures seed == 0x1_0000 ==> seed != 0 && forall n: nat :: Lfsr.Iterate(FirstWord(seed), 16, n) == 0
  {
    hide FirstWord, Lfsr.Iterate;
    FirstWordInRange(seed);
    forall n: nat ensures Lfsr.Iterate(FirstWord(seed), 16, n) == 0 <==> FirstWord(seed) == 0 {
      Lfsr.IterateInRange(FirstWord(seed), 16, n);
    }
    assert Lfsr.Iterate(FirstWord(seed), 16, 0) == 0 <==> FirstWord(seed) == 0;
  }

  /** The program. The lossless sanity test at threshold zero never fires: exit code 2 is dead. */
  method RunGolden(cfg: Config) returns (o: Outcome)
    ensures o == Exit(1) <==> cfg.seed == 0 || !SupportedWidth(cfg.N)
    ensures o == Uncaught <==> cfg.seed != 0 && SupportedWidth(cfg.N) && cfg.nsamp < 0
    ensures o == Undefined <==> cfg.seed != 0 && SupportedWidth(cfg.N) && cfg.nsamp >= 0
                                && !ShiftRuns(cfg.shift, FirstWord(cfg.seed), cfg.N as nat, EvenCount(cfg.nsamp))
    ensures o != Exit(2)
    ensures o.Exit? ==> o.code == 1
    ensures o.Done? ==> GoldenResult(cfg, o)
    ensures o.Done? ==> |o.x| == EvenCount(cfg.nsamp) && IsWritten(o.x, cfg.thresh as int, o.y, o.flags, o.counters)
  {
    hide IsWritten, Agrees, Samples, ShiftRuns, FirstWord, Haar.Outputs, Haar.JobsOf, Haar.Score, Haar.Flags;
    if cfg.seed == 0 {
      return Exit(1);
    }
    // NSAMP - 1 cannot underflow: the smallest int is even.
    var nsamp := if cfg.nsamp % 2 != 0 then cfg.nsamp - 1 else cfg.nsamp;
    if cfg.N < 2 || cfg.N > 30 {
      return Exit(1);
    }
    if nsamp < 0 {
      return Uncaught; // reserve() of a negative count throws length_error
    }
    var defined, l := Generate(cfg.N, cfg.shift, cfg.thresh, cfg.seed, nsamp);
    if !defined { return Undefined; }
    var x, y, flags, c := l.x, l.y, l.flags, l.c;
    if cfg.thresh == 0 {
      var ok := SameStream(x, y);
      ZeroThresholdPasses(x, y, flags, c);
      if !ok || c.sumAbsErr != 0 || c.sumSqErr != 0 {
        assert false;
      }
    }
    AgreesIsWritten(x, cfg.thresh as int, y, flags, c);
    o := Done(x, y, flags, c);
  }

  lemma ZeroThresholdPasses(x: seq<int32>, y: seq<int32>, flags: seq<int32>, c: Counters)
    requires |x| % 2 == 0 && Agrees(Ints(x), 0, y, flags, c)
    ensures x == y && c.sumAbsErr == 0 && c.sumSqErr == 0
  {
    hide Haar.Outputs, Haar.JobsOf, Haar.Score, Haar.Flags;
    Haar.ZeroThresholdLossless(Ints(x), 0);
    IntsInjective(x, y);
  }
}
