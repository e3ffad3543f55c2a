/** The whole FPGA data path against the golden model: tick divider, noise source and
    processing chain, for every enable pattern. */
module RtlGolden {
  import opened Bits
  import Lfsr
  import Shaper
  import opened Haar
  import NoiseStream
  import GoldenCpp
  import GoldenRun
  import CrossModel
  import opened RtlDatapath
  import opened RtlChain

  // ---------- Tick divider ----------

  datatype TickGen = TickGen(cnt: int, tick: bool)

  function TickEdge(t: TickGen, div: int): TickGen {
    if t.cnt == div - 1 then TickGen(0, true) else TickGen(t.cnt + 1, false)
  }

  function TickAfter(n: nat, div: int): TickGen {
    if n == 0 then TickGen(0, false) else TickEdge(TickAfter(n - 1, div), div)
  }

  /** The divider ticks exactly at the positive multiples of its ratio. */
  lemma {:induction false} TickPeriod(n: nat, div: int)
    requires div >= 1
    ensures TickAfter(n, div) == TickGen(n % div, n > 0 && n % div == 0)
  {
    if n > 0 {
      TickPeriod(n - 1, div);
      NextRemainder(n - 1, div);
    }
  }

  lemma NextRemainder(n: int, div: int)
    requires div >= 1
    ensures (n + 1) % div == (if n % div == div - 1 then 0 else n % div + 1)
  {
    var q, r := n / div, n % div;
    if r == div - 1 {
      assert n + 1 == (q + 1) * div + 0;
      DivUnique(n + 1, div, q + 1, 0);
    } else {
      DivUnique(n + 1, div, q, r + 1);
    }
  }

  /** The chain's enable is the registered tick. */
  ghost predicate TickDriven(ins: seq<Clk>, div: int) {
    forall k :: 0 <= k < |ins| ==> ins[k].en == TickAfter(k, div).tick
  }

  lemma TicksAreSpaced(ins: seq<Clk>, div: int)
    requires div >= 3 && TickDriven(ins, div)
    ensures Spaced(ins)
  {
    hide TickAfter;
    forall j, k | 0 <= j < k < |ins| && ins[j].en && ins[k].en ensures k - j >= 3 {
      TickPeriod(j, div);
      TickPeriod(k, div);
      MultiplesApart(j, k, div);
    }
  }

  lemma MultiplesApart(j: int, k: int, div: int)
    requires div >= 1 && j < k && j % div == 0 && k % div == 0
    ensures k - j >= div
  {
    var a, b := j / div, k / div;
    assert j == a * div && k == b * div;
    assert k - j == (b - a) * div;
    if b - a <= 0 { NoiseStream.WiderFactor(b - a, 0, div); }
    NoiseStream.WiderFactor(1, b - a, div);
  }

  /** Dividing by one enables every edge but the first; each push then finds at most one word. */
  lemma {:induction false} EveryEdge(ins: seq<Clk>, N: nat, depth: nat)
    requires N >= 1 && depth >= 3 && TickDriven(ins, 1)
    ensures var s := Run(ins, N, depth);
            && !s.overflow
            && (s.phase ==> !s.pairValid && |s.fifo| <= 1)
            && (!s.phase ==> !s.outValid && |s.fifo| <= 2)
            && (|ins| <= 1 ==> !s.pairValid && s.fifo == [])
  {
    hide HaarCore, AccumBits, TickAfter;
    if ins != [] {
      EveryEdge(ins[..|ins| - 1], N, depth);
      TickPeriod(|ins| - 1, 1);
    }
  }

  /** Dividing by two alternates enabled and idle edges; each push again finds at most one word. */
  lemma {:induction false} EverySecondEdge(ins: seq<Clk>, N: nat, depth: nat)
    requires N >= 1 && depth >= 3 && TickDriven(ins, 2)
    ensures var s := Run(ins, N, depth);
            && !s.overflow
            && (|ins| % 2 == 1 ==> !s.outValid)
            && (|ins| % 2 == 0 ==> !s.pairValid)
            && (s.phase ==> !s.pairValid && !s.outValid && |s.fifo| <= 2)
            && (!s.phase ==> |s.fifo| <= 1)
            && (|ins| == 0 ==> !s.outValid)
  {
    hide HaarCore, AccumBits, TickAfter;
    if ins != [] {
      EverySecondEdge(ins[..|ins| - 1], N, depth);
      TickPeriod(|ins| - 1, 2);
    }
  }

  /** The first n edges under a divider, with zero samples. */
  function Ticks(n: nat, div: int): (ins: seq<Clk>)
    ensures |ins| == n
  {
    if n == 0 then [] else Ticks(n - 1, div) + [Clk(TickAfter(n - 1, div).tick, 0, 0, false)]
  }

  lemma {:induction false} TicksAreDriven(n: nat, div: int, N: nat)
    requires N >= 1
    ensures TickDriven(Ticks(n, div), div) && Legal(Ticks(n, div), N)
  {
    hide TickAfter;
    if n > 0 { TicksAreDriven(n - 1, div, N); }
  }

  /** One more edge of the zero-sample run. */
  lemma TickRun(n: nat, div: int, N: nat, depth: nat)
    requires N >= 1 && div >= 1
    ensures Run(Ticks(n + 1, div), N, depth)
         == Tick(Run(Ticks(n, div), N, depth), Clk(n > 0 && n % div == 0, 0, 0, false), N, depth)
  {
    hide TickAfter, Tick;
    TickPeriod(n, div);
    RunSnoc(Ticks(n, div), Clk(TickAfter(n, div).tick, 0, 0, false), N, depth);
  }

  /** A depth of two drops a pair when every edge is enabled, at the seventh edge. */
  lemma DepthTwoAtOne(N: nat)
    requires N >= 1
    ensures Run(Ticks(7, 1), N, 2).overflow
  {
    hide HaarCore, AccumBits, Run, Ticks;
    RunEmptyTicks(1, N);
    TickRun(0, 1, N, 2);
    TickRun(1, 1, N, 2);
    TickRun(2, 1, N, 2);
    TickRun(3, 1, N, 2);
    TickRun(4, 1, N, 2);
    var s := Run(Ticks(5, 1), N, 2);
    assert !s.phase && s.pairValid && !s.outValid && |s.fifo| == 2;
    TickRun(5, 1, N, 2);
    TickRun(6, 1, N, 2);
  }

  /** A depth of two drops a pair when every second edge is enabled, at the eleventh edge. */
  lemma DepthTwoAtTwo(N: nat)
    requires N >= 1
    ensures Run(Ticks(11, 2), N, 2).overflow
  {
    hide HaarCore, AccumBits, Run, Ticks;
    RunEmptyTicks(2, N);
    TickRun(0, 2, N, 2);
    TickRun(1, 2, N, 2);
    TickRun(2, 2, N, 2);
    TickRun(3, 2, N, 2);
    TickRun(4, 2, N, 2);
    var s := Run(Ticks(5, 2), N, 2);
    assert !s.phase && s.pairValid && !s.outValid && s.fifo == [];
    TickRun(5, 2, N, 2);
    TickRun(6, 2, N, 2);
    var t := Run(Ticks(7, 2), N, 2);
    assert t.phase && !t.pairValid && !t.outValid && |t.fifo| == 2;
    TickRun(7, 2, N, 2);
    TickRun(8, 2, N, 2);
    TickRun(9, 2, N, 2);
    TickRun(10, 2, N, 2);
  }

  lemma RunEmptyTicks(div: int, N: nat)
    requires N >= 1
    ensures Run(Ticks(0, div), N, 2) == RESET
  {
  }

  /** Under the design's own enable, a divided clock, a serializer of two or more words is free of
      overflow in every run if and only if it holds three or the divider is at least three. */
  lemma DividerOverflowFreeIff(div: int, N: nat, depth: nat)
    requires N >= 1 && div >= 1 && depth >= 2
    ensures (forall ins :: Legal(ins, N) && TickDriven(ins, div) ==> !Run(ins, N, depth).overflow)
            <==> depth >= 3 || div >= 3
  {
    hide Run, TickDriven, Legal, Ticks;
    if div >= 3 {
      forall ins | Legal(ins, N) && TickDriven(ins, div) ensures !Run(ins, N, depth).overflow {
        TicksAreSpaced(ins, div);
        SpacedNeedsTwo(ins, N, depth);
      }
    } else if depth >= 3 {
      forall ins | Legal(ins, N) && TickDriven(ins, div) ensures !Run(ins, N, depth).overflow {
        if div == 1 { EveryEdge(ins, N, depth); } else { EverySecondEdge(ins, N, depth); }
      }
    } else if div == 1 {
      DepthTwoAtOne(N);
      TicksAreDriven(7, 1, N);
    } else {
      DepthTwoAtTwo(N);
      TicksAreDriven(11, 2, N);
    }
  }

  // ---------- Noise source ----------

  /** Board-side controls at one edge; the sample comes from the noise source. */
  datatype Ctl = Ctl(en: bool, thresh: int, clr: bool)

  datatype Source = Source(rnd: int, state: int)

  /** x_out is combinational: the saturated next state. */
  function XOut(g: Source, N: nat, shift: nat): int
    requires N >= 1
  {
    Sat(NextState(g.state, NoiseTap(g.rnd, N), shift, N), N)
  }

  function SourceEdge(g: Source, en: bool, N: nat, shift: nat): Source
    requires N >= 1
  {
    if en then Source(LfsrNext(g.rnd, 16), NextState(g.state, NoiseTap(g.rnd, N), shift, N)) else g
  }

  function SourceAfter(cs: seq<Ctl>, seed: int, N: nat, shift: nat): Source
    requires N >= 1
  {
    if cs == [] then Source(seed, 0)
    else SourceEdge(SourceAfter(cs[..|cs| - 1], seed, N, shift), cs[|cs| - 1].en, N, shift)
  }

  function Enables(cs: seq<Ctl>): nat {
    if cs == [] then 0 else Enables(cs[..|cs| - 1]) + B(cs[|cs| - 1].en)
  }

  /** Whatever the enable pattern, the source registers are the golden register and shaper state after
      as many updates, and x_out shows the next golden sample. */
  lemma {:induction false} SourceIsGolden(cs: seq<Ctl>, seed: int, N: nat, shift: nat)
    requires 1 <= N <= 16 && 0 <= seed < Pow2(16)
    ensures var g, k := SourceAfter(cs, seed, N, shift), Enables(cs);
            && g.rnd == Lfsr.Iterate(seed, 16, k)
            && g.state == Shaper.StateAfter(0, NoiseStream.Noises(seed, 16, N, k), shift)
            && GoldenRun.Samples(seed, N, shift, k + 1) == GoldenRun.Samples(seed, N, shift, k) + [XOut(g, N, shift)]
  {
    hide Lfsr.Iterate, Shaper.StateAfter, NoiseStream.Noises, GoldenRun.Samples, LfsrNext, NextState, NoiseTap,
         XOut, Sat, Pow2, Shaper.Noise, Shaper.Step, Shaper.FitsSigned;
    if cs == [] {
      SourceStart(seed, N, shift);
    } else {
      var before := cs[..|cs| - 1];
      SourceIsGolden(before, seed, N, shift);
      SourceStep(SourceAfter(before, seed, N, shift), seed, N, shift, Enables(before));
    }
    SourceStep(SourceAfter(cs, seed, N, shift), seed, N, shift, Enables(cs));
  }

  // ---------- The net between source and chain ----------

  /** The chain sees the board's controls; its sample input is a net of its own. */
  ghost predicate SameControls(ins: seq<Clk>, cs: seq<Ctl>) {
    |ins| == |cs| && forall k :: 0 <= k < |cs| ==>
      ins[k].en == cs[k].en && ins[k].thresh == cs[k].thresh && ins[k].clr == cs[k].clr
  }

  /** The net carries the shaper output at every enabled edge. */
  ghost predicate Carries(ins: seq<Clk>, cs: seq<Ctl>, seed: int, N: nat, shift: nat)
    requires N >= 1 && |ins| == |cs|
  {
    forall k :: 0 <= k < |cs| && cs[k].en ==> ins[k].x == XOut(SourceAfter(cs[..k], seed, N, shift), N, shift)
  }

  /** The chain takes the golden samples exactly when the net carries the shaper output. */
  lemma {:induction false} TakesGoldenIff(ins: seq<Clk>, cs: seq<Ctl>, seed: int, N: nat, shift: nat)
    requires 1 <= N <= 16 && 0 <= seed < Pow2(16) && SameControls(ins, cs)
    ensures |Taken(ins)| == Enables(cs)
    ensures Taken(ins) == GoldenRun.Samples(seed, N, shift, Enables(cs)) <==> Carries(ins, cs, seed, N, shift)
  {
    hide GoldenRun.Samples, XOut, SourceAfter, Pow2, Lfsr.Iterate, Shaper.StateAfter, NoiseStream.Noises;
    if cs == [] {
      SourceStart(seed, N, shift);
    } else {
      var n := |cs| - 1;
      var cs0, ins0 := cs[..n], ins[..n];
      TakesGoldenIff(ins0, cs0, seed, N, shift);
      SourceIsGolden(cs0, seed, N, shift);
      var x := XOut(SourceAfter(cs0, seed, N, shift), N, shift);
      CarriesSnoc(ins, cs, seed, N, shift);
      if cs[n].en {
        Shaper.SnocEqual(Taken(ins0), ins[n].x, GoldenRun.Samples(seed, N, shift, Enables(cs0)), x);
      }
    }
  }

  lemma CarriesSnoc(ins: seq<Clk>, cs: seq<Ctl>, seed: int, N: nat, shift: nat)
    requires N >= 1 && |ins| == |cs| > 0
    ensures var n := |cs| - 1;
            Carries(ins, cs, seed, N, shift) <==>
              && Carries(ins[..n], cs[..n], seed, N, shift)
              && (cs[n].en ==> ins[n].x == XOut(SourceAfter(cs[..n], seed, N, shift), N, shift))
  {
    hide XOut, SourceAfter;
    var n := |cs| - 1;
    forall k | 0 <= k < n ensures cs[..n][..k] == cs[..k] && ins[..n][k] == ins[k] && cs[..n][k] == cs[k] {
    }
  }

  lemma SourceStart(seed: int, N: nat, shift: nat)
    requires N >= 1
    ensures Lfsr.Iterate(seed, 16, 0) == seed
    ensures Shaper.StateAfter(0, NoiseStream.Noises(seed, 16, N, 0), shift) == 0
    ensures GoldenRun.Samples(seed, N, shift, 0) == []
  {
  }

  lemma SourceStep(g: Source, seed: int, N: nat, shift: nat, k: nat)
    requires 1 <= N <= 16 && 0 <= seed < Pow2(16)
    requires g.rnd == Lfsr.Iterate(seed, 16, k)
    requires g.state == Shaper.StateAfter(0, NoiseStream.Noises(seed, 16, N, k), shift)
    ensures var g' := SourceEdge(g, true, N, shift);
            && g'.rnd == Lfsr.Iterate(seed, 16, k + 1)
            && g'.state == Shaper.StateAfter(0, NoiseStream.Noises(seed, 16, N, k + 1), shift)
            && GoldenRun.Samples(seed, N, shift, k + 1) == GoldenRun.Samples(seed, N, shift, k) + [XOut(g, N, shift)]
            && Shaper.FitsSigned(XOut(g, N, shift), N)
  {
    hide Lfsr.Iterate, Lfsr.Step, Shaper.StateAfter, NoiseStream.Noises, GoldenRun.Samples, LfsrNext, NextState,
         NoiseTap, Sat, Pow2, Shaper.Noise, Shaper.Step, Shaper.FitsSigned;
    Lfsr.IterateInRange(seed, 16, k);
    LfsrNextIsStep(g.rnd, 16);
    GoldenRun.IterateNext(seed, k);
    GoldenRun.SamplesSnoc(seed, N, shift, k);
    NoiseTapIsNoise(g.rnd, N);
    Shaper.NoiseRange(g.rnd, N);
    NoiseStream.SamplesFit(seed, 16, N, k, shift);
    NextStateIsStep(g.state, NoiseTap(g.rnd, N), shift, N);
  }

  // ---------- Constant threshold, no clears ----------

  ghost predicate Constant(ins: seq<Clk>, T: int) {
    forall k :: 0 <= k < |ins| ==> ins[k].thresh == T && !ins[k].clr
  }

  /** Under a constant threshold the jobs, with the one still in the assembler, are the pairing of
      the samples taken. */
  lemma {:induction false} JobsArePairing(ins: seq<Clk>, T: int)
    requires Constant(ins, T)
    ensures |Taken(ins)| >= 2 || !Completes(ins)
    ensures var xs := Taken(ins);
            JobsOf(xs, T) == Jobs(ins) + (if Completes(ins) then [Job(xs[|xs| - 2], xs[|xs| - 1], T)] else [])
  {
    hide JobsOf;
    if ins == [] {
    } else {
      var before, i := ins[..|ins| - 1], ins[|ins| - 1];
      JobsArePairing(before, T);
      if i.en { JobsOfSnoc(Taken(before), i.x, T); }
    }
  }

  /** Without clears the metrics window lags the jobs by at most the one just transformed. */
  lemma {:induction false} WindowLags(ins: seq<Clk>, T: int)
    requires Constant(ins, T)
    ensures var js := Jobs(ins);
            (Loads(ins) ==> js != []) && js == Window(ins) + (if Loads(ins) then [js[|js| - 1]] else [])
  {
    hide Taken, Completes;
    if ins == [] {
    } else {
      var before := ins[..|ins| - 1];
      JobsArePairing(before, T);
      WindowLags(before, T);
    }
  }

  /** Nothing is in flight: the last two edges took no sample. */
  predicate Drained(ins: seq<Clk>) {
    |ins| >= 2 && !ins[|ins| - 1].en && !ins[|ins| - 2].en
  }

  lemma DrainedChain(ins: seq<Clk>, T: int, N: nat, depth: nat)
    requires N >= 1 && depth >= 4 && Legal(ins, N) && Constant(ins, T) && Drained(ins)
    ensures var s, js := Run(ins, N, depth), JobsOf(Taken(ins), T);
            && !s.overflow
            && Emitted(ins, N, depth) + s.fifo == Outputs(js)
            && s.m == Wrap(Score(js))
  {
    hide Run, Emitted, Outputs, Score, JobsOf, Jobs, Window, Taken, Wrap;
    PressureBounded(ins, N, depth);
    FrontHolds(ins, N, depth);
    Conservation(ins, N, depth);
    MetricsExact(ins, N, depth);
    JobsArePairing(ins, T);
    WindowLags(ins, T);
    assert !Completes(ins) && !Loads(ins);
    assert Jobs(ins) + [] == Jobs(ins) && Window(ins) + [] == Window(ins);
    var e := Emitted(ins, N, depth) + Run(ins, N, depth).fifo;
    assert e + [] == e;
  }

  /** The same in terms of the samples, words and registers alone: the words are the reconstruction of
      the samples taken, an odd last one left out, and the registers measure it modulo their widths. */
  lemma DrainedMeaning(ins: seq<Clk>, T: int, N: nat, depth: nat)
    requires N >= 1 && depth >= 4 && Legal(ins, N) && Constant(ins, T) && Drained(ins)
    ensures var s, xs := Run(ins, N, depth), Taken(ins)[..2 * (|Taken(ins)| / 2)];
            var ys := Emitted(ins, N, depth) + s.fifo;
            Reconstructs(xs, T, ys) && exists m :: Measures(xs, T, ys, m) && s.m == Wrap(m)
  {
    hide Run, Emitted, Outputs, Score, JobsOf, Taken, Wrap, Reconstructs, Measures, Legal, Constant, Drained;
    DrainedChain(ins, T, N, depth);
    EvenPrefix(Taken(ins), T);
    var xs := Taken(ins)[..2 * (|Taken(ins)| / 2)];
    StreamMeaning(xs, T);
    assert Measures(xs, T, Outputs(JobsOf(xs, T)), Score(JobsOf(xs, T)));
  }

  /** A drained run of the chain beside a completed C++ run on the same seed: as many enables as golden
      samples, the golden threshold at every edge, no clears. */
  ghost predicate SideBySide(ins: seq<Clk>, cs: seq<Ctl>, cfg: GoldenRun.Config, o: GoldenRun.Outcome)
  {
    && GoldenRun.GoldenResult(cfg, o) && cfg.N <= 16
    && SameControls(ins, cs) && Legal(ins, cfg.N as nat) && Drained(ins)
    && Constant(ins, cfg.thresh as int)
    && Enables(cs) == GoldenRun.EvenCount(cfg.nsamp)
  }

  /** For any net: the chain never overflows, and its words are the golden words exactly when every
      pair it took has the words of the golden pair: the same pair, or both suppressed with one mean. */
  lemma WordsMatchIff(ins: seq<Clk>, cs: seq<Ctl>, cfg: GoldenRun.Config, o: GoldenRun.Outcome, depth: nat)
    requires SideBySide(ins, cs, cfg, o) && depth >= 4
    ensures var N, T := cfg.N as nat, cfg.thresh as int;
            var s, xs, zs := Run(ins, N, depth), Taken(ins), GoldenCpp.Ints(o.x);
            && !s.overflow && |xs| == |zs|
            && (Emitted(ins, N, depth) + s.fifo == GoldenCpp.Ints(o.y) <==>
                forall i :: 0 <= i < |xs| / 2 ==> SameWords(xs[2 * i], xs[2 * i + 1], zs[2 * i], zs[2 * i + 1], T))
            && s.m == Wrap(Score(JobsOf(xs, T)))
  {
    hide Run, Emitted, Outputs, Score, JobsOf, Taken, Wrap, Flags, GoldenRun.Samples, GoldenRun.FirstWord,
         GoldenRun.EvenCount, GoldenRun.ShiftRuns, GoldenCpp.Ints, Legal, Pow2, SameWords, Carries;
    var N, shift, T := cfg.N as nat, GoldenRun.Amount(cfg.shift), cfg.thresh as int;
    GoldenRun.FirstWordInRange(cfg.seed);
    TakesGoldenIff(ins, cs, GoldenRun.FirstWord(cfg.seed), N, shift);
    DrainedChain(ins, T, N, depth);
    SameOutputsIff(Taken(ins), GoldenCpp.Ints(o.x), T);
  }

  /** With a threshold of zero or below the words match exactly when the net carries the shaper output
      at every enabled edge. */
  lemma LosslessMatchIff(ins: seq<Clk>, cs: seq<Ctl>, cfg: GoldenRun.Config, o: GoldenRun.Outcome, depth: nat)
    requires SideBySide(ins, cs, cfg, o) && depth >= 4 && cfg.thresh <= 0
    ensures Emitted(ins, cfg.N as nat, depth) + Run(ins, cfg.N as nat, depth).fifo == GoldenCpp.Ints(o.y) <==>
              Carries(ins, cs, GoldenRun.FirstWord(cfg.seed), cfg.N as nat, GoldenRun.Amount(cfg.shift))
  {
    hide Run, Emitted, Outputs, Score, JobsOf, Taken, Wrap, Flags, GoldenRun.Samples, GoldenRun.FirstWord,
         GoldenRun.EvenCount, GoldenRun.ShiftRuns, GoldenCpp.Ints, Legal, Pow2, Carries;
    var N, shift, T := cfg.N as nat, GoldenRun.Amount(cfg.shift), cfg.thresh as int;
    GoldenRun.FirstWordInRange(cfg.seed);
    TakesGoldenIff(ins, cs, GoldenRun.FirstWord(cfg.seed), N, shift);
    DrainedChain(ins, T, N, depth);
    ZeroThresholdLossless(Taken(ins), T);
    ZeroThresholdLossless(GoldenCpp.Ints(o.x), T);
  }

  /** For a net that carries the shaper output at every enabled edge the hardware is bit-accurate to the
      C++ golden model: nothing overflowed, the words emitted so far followed by those still stored are
      the golden y stream, and the metrics registers are the golden counters modulo their widths. */
  lemma RtlMatchesGolden(ins: seq<Clk>, cs: seq<Ctl>, cfg: GoldenRun.Config, o: GoldenRun.Outcome, depth: nat)
    requires SideBySide(ins, cs, cfg, o) && depth >= 4
    requires Carries(ins, cs, GoldenRun.FirstWord(cfg.seed), cfg.N as nat, GoldenRun.Amount(cfg.shift))
    ensures var s := Run(ins, cfg.N as nat, depth);
            && !s.overflow
            && Emitted(ins, cfg.N as nat, depth) + s.fifo == GoldenCpp.Ints(o.y)
            && exists m :: o.counters.Holds(m) && s.m == Wrap(m)
  {
    hide Run, Emitted, Outputs, Score, JobsOf, Taken, Wrap, Flags, GoldenRun.Samples, GoldenRun.FirstWord,
         GoldenRun.EvenCount, GoldenRun.ShiftRuns, GoldenCpp.Ints, Legal, Pow2, Carries;
    var N, shift, T := cfg.N as nat, GoldenRun.Amount(cfg.shift), cfg.thresh as int;
    GoldenRun.FirstWordInRange(cfg.seed);
    TakesGoldenIff(ins, cs, GoldenRun.FirstWord(cfg.seed), N, shift);
    DrainedChain(ins, T, N, depth);
    assert o.counters.Holds(Score(JobsOf(Taken(ins), T)));
  }

  /** The net of the file as written has no driver. Read as constant zero it diverges from the golden
      model at the default seed, width and shift, at every threshold and whatever the enables. */
  lemma UndrivenNetDiverges(ins: seq<Clk>, cs: seq<Ctl>, cfg: GoldenRun.Config, o: GoldenRun.Outcome, depth: nat)
    requires SideBySide(ins, cs, cfg, o) && depth >= 4
    requires cfg.seed == 0xACE1 && cfg.N == 12 && cfg.shift == 3 && cfg.nsamp >= 2
    requires forall k :: 0 <= k < |ins| ==> ins[k].x == 0
    ensures Emitted(ins, 12, depth) + Run(ins, 12, depth).fifo != GoldenCpp.Ints(o.y)
  {
    hide Run, Emitted, Taken, Wrap, GoldenCpp.Ints, Pow2, SameWords, Score, JobsOf, SideBySide;
    WordsMatchIff(ins, cs, cfg, o, depth);
    DefaultStart(ins, cs, cfg, o);
    ZeroTaken(ins);
    ZeroPairDiffers(cfg.thresh as int);
    var xs, zs := Taken(ins), GoldenCpp.Ints(o.x);
    assert !SameWords(xs[2 * 0], xs[2 * 0 + 1], zs[2 * 0], zs[2 * 0 + 1], cfg.thresh as int);
  }

  lemma DefaultStart(ins: seq<Clk>, cs: seq<Ctl>, cfg: GoldenRun.Config, o: GoldenRun.Outcome)
    requires SideBySide(ins, cs, cfg, o)
    requires cfg.seed == 0xACE1 && cfg.N == 12 && cfg.shift == 3 && cfg.nsamp >= 2
    ensures o.Done?
    ensures var zs := GoldenCpp.Ints(o.x);
            |zs| >= 2 && zs[0] == 156 && zs[1] == 86
  {
    hide GoldenRun.Samples, GoldenRun.FirstWord, GoldenRun.ShiftRuns, GoldenCpp.Ints, Legal, Pow2, GoldenRun.Agrees,
         SameControls, Drained, Constant, Enables;
    GoldenRun.FirstWordInRange(cfg.seed);
    CrossModel.DefaultStream(GoldenRun.FirstWord(cfg.seed), cfg.N as nat, GoldenRun.Amount(cfg.shift),
                             GoldenRun.EvenCount(cfg.nsamp));
  }

  lemma ZeroPairDiffers(T: int)
    ensures !SameWords(0, 0, 156, 86, T)
  {
    hide RoundDiv2;
    RoundDiv2Meaning(0);
    RoundDiv2Meaning(242);
  }

  lemma {:induction false} ZeroTaken(ins: seq<Clk>)
    requires forall k :: 0 <= k < |ins| ==> ins[k].x == 0
    ensures forall k :: 0 <= k < |Taken(ins)| ==> Taken(ins)[k] == 0
  {
    if ins != [] { ZeroTaken(ins[..|ins| - 1]); }
  }

  // ---------- Bypass mode ----------

  ghost predicate Bypassed(ins: seq<Clk>) { forall k :: 0 <= k < |ins| ==> ins[k].thresh == 0 && !ins[k].clr }

  /** In bypass the emitted words are a prefix of the samples taken, and no error is ever counted. */
  lemma BypassIsLossless(ins: seq<Clk>, N: nat, depth: nat)
    requires N >= 1 && depth >= 4 && Legal(ins, N) && Bypassed(ins)
    ensures Emitted(ins, N, depth) <= Taken(ins)
    ensures Run(ins, N, depth).m.sumAbsErr == 0 && Run(ins, N, depth).m.sumSqErr == 0
  {
    hide Run, Emitted, Outputs, Score, JobsOf, Jobs, Window, Taken, HaarPair;
    PressureBounded(ins, N, depth);
    Conservation(ins, N, depth);
    MetricsExact(ins, N, depth);
    JobsArePairing(ins, 0);
    WindowLags(ins, 0);
    var xs, js := Taken(ins), Jobs(ins);
    OutputsPrefix(js, JobsOf(xs, 0));
    OutputsAreInputs(xs);
    assert Emitted(ins, N, depth) <= Outputs(js) <= xs;
    assert forall k :: 0 <= k < |Window(ins)| ==> Window(ins)[k] == js[k] == JobsOf(xs, 0)[k];
    NoThresholdNoSuppression(Window(ins));
    MetricsClosedForm(Window(ins));
  }

  lemma OutputsAreInputs(xs: seq<int>)
    ensures Outputs(JobsOf(xs, 0)) <= xs
  {
    hide Outputs, JobsOf;
    EvenPrefix(xs, 0);
    ZeroThresholdLossless(xs[..2 * (|xs| / 2)], 0);
  }

  lemma EvenPrefix(xs: seq<int>, T: int)
    ensures JobsOf(xs[..2 * (|xs| / 2)], T) == JobsOf(xs, T)
  {
    hide JobsOf;
    var a, b := JobsOf(xs[..2 * (|xs| / 2)], T), JobsOf(xs, T);
    assert |a| == |b|;
    assert forall i :: 0 <= i < |a| ==> a[i] == b[i];
  }

  lemma {:induction false} OutputsPrefix(js: seq<Job>, ks: seq<Job>)
    requires js <= ks
    ensures Outputs(js) <= Outputs(ks)
  {
    hide HaarPair;
    if |js| < |ks| {
      OutputsPrefix(js, ks[..|ks| - 1]);
    } else {
      assert js == ks;
    }
  }
}
