/** The clocked Phase 1 processing chain: pair assembler, Haar core, output serializer and metrics
    registers, stepped once per CLOCK_50 edge. All registers update from their old values. */
module RtlChain {
  import opened Bits
  import Shaper
  import opened Haar
  import opened RtlDatapath

  /** What the chain sees at one clock edge. */
  datatype Clk = Clk(en: bool, x: int, thresh: int, clr: bool)

  /** The registers. The serializer's ring is its contents, oldest first (see RtlFifo). */
  datatype State = State(
    phase: bool, pairValid: bool, x0: int, x1: int,
    outValid: bool, out: PairOut, ax0: int, ax1: int,
    fifo: seq<int>, overflow: bool, yValid: bool, yOut: int,
    m: Metrics)

  const RESET := State(false, false, 0, 0, false, PairOut(0, 0, false), 0, 0, [], false, false, 0, ZERO)

  /** Contents of the serializer after one edge: pop one on sample_en, push two when there is room. */
  function FifoNext(fifo: seq<int>, en: bool, push: bool, y0: int, y1: int, depth: nat): seq<int> {
    var popped := if en && fifo != [] then fifo[1..] else fifo;
    if push && |fifo| + 2 <= depth then popped + [y0, y1] else popped
  }

  function Tick(s: State, i: Clk, N: nat, depth: nat): State
    requires N >= 1
  {
    State(
      phase := if i.en then !s.phase else s.phase,
      pairValid := i.en && s.phase,
      x0 := if i.en && !s.phase then i.x else s.x0,
      x1 := if i.en && s.phase then i.x else s.x1,
      outValid := s.pairValid,
      out := if s.pairValid then HaarCore(s.x0, s.x1, i.thresh, N) else s.out,
      ax0 := if s.pairValid then s.x0 else s.ax0,
      ax1 := if s.pairValid then s.x1 else s.ax1,
      fifo := FifoNext(s.fifo, i.en, s.outValid, s.out.y0, s.out.y1, depth),
      overflow := s.overflow || (s.outValid && |s.fifo| + 2 > depth),
      yValid := i.en && s.fifo != [],
      yOut := if i.en && s.fifo != [] then s.fifo[0] else s.yOut,
      m := if i.clr then ZERO
           else if s.outValid then AccumBits(s.m, s.ax0, s.ax1, s.out, N)
           else s.m)
  }

  /** State after a whole run from reset. */
  function Run(ins: seq<Clk>, N: nat, depth: nat): State
    requires N >= 1
  {
    if ins == [] then RESET else Tick(Run(ins[..|ins| - 1], N, depth), ins[|ins| - 1], N, depth)
  }

  /** Words presented on y_out, in order. */
  function Emitted(ins: seq<Clk>, N: nat, depth: nat): seq<int>
    requires N >= 1
  {
    if ins == [] then []
    else
      var s := Run(ins, N, depth);
      Emitted(ins[..|ins| - 1], N, depth) + (if s.yValid then [s.yOut] else [])
  }

  // ---------- What a run should do, read off its inputs alone ----------

  /** Samples taken: those present at an enabled edge. */
  function Taken(ins: seq<Clk>): seq<int> {
    if ins == [] then []
    else
      var i := ins[|ins| - 1];
      Taken(ins[..|ins| - 1]) + (if i.en then [i.x] else [])
  }

  /** The last edge took the second sample of a pair. */
  predicate Completes(ins: seq<Clk>) {
    ins != [] && ins[|ins| - 1].en && |Taken(ins)| % 2 == 0
  }

  /** Pairs transformed so far, each at the threshold present one edge after it was completed. */
  function Jobs(ins: seq<Clk>): seq<Job> {
    if ins == [] then []
    else
      var before := ins[..|ins| - 1];
      var xs := Taken(before);
      if Completes(before) && |xs| >= 2 then Jobs(before) + [Job(xs[|xs| - 2], xs[|xs| - 1], ins[|ins| - 1].thresh)]
      else Jobs(before)
  }

  /** The last edge transformed a pair. */
  predicate Loads(ins: seq<Clk>) { ins != [] && Completes(ins[..|ins| - 1]) }

  /** Pairs the metrics registers account for: everything registered since the last clear. A pair
      whose accumulation edge coincides with a clear is not counted. */
  function Window(ins: seq<Clk>): seq<Job> {
    if ins == [] then []
    else
      var before := ins[..|ins| - 1];
      var js := Jobs(before);
      if ins[|ins| - 1].clr then []
      else if Loads(before) && js != [] then Window(before) + [js[|js| - 1]]
      else Window(before)
  }

  ghost predicate Legal(ins: seq<Clk>, N: nat)
    requires N >= 1
  {
    forall k :: 0 <= k < |ins| ==> Shaper.FitsSigned(ins[k].x, N)
  }

  // ---------- The invariant ----------

  function B(b: bool): nat { if b then 1 else 0 }

  /** Words waiting in, or already on their way to, the serializer. */
  function Pressure(s: State): nat { |s.fifo| + 2 * B(s.pairValid) + 2 * B(s.outValid) + B(s.phase) }

  /** Front end: assembler and core registers mirror the input history. */
  ghost predicate FrontOk(ins: seq<Clk>, s: State, N: nat)
    requires N >= 1
  {
    var xs, js := Taken(ins), Jobs(ins);
    && s.phase == (|xs| % 2 == 1)
    && (s.phase ==> s.x0 == xs[|xs| - 1])
    && s.pairValid == Completes(ins)
    && (s.pairValid ==> |xs| >= 2 && s.x0 == xs[|xs| - 2] && s.x1 == xs[|xs| - 1])
    && s.outValid == Loads(ins)
    && (s.outValid ==> js != [] && s.out == js[|js| - 1].Out()
                       && s.ax0 == js[|js| - 1].x0 && s.ax1 == js[|js| - 1].x1)
    && Shaper.FitsSigned(s.x0, N) && Shaper.FitsSigned(s.x1, N)
    && Shaper.FitsSigned(s.ax0, N) && Shaper.FitsSigned(s.ax1, N)
    && Shaper.FitsSigned(s.out.y0, N) && Shaper.FitsSigned(s.out.y1, N)
  }

  lemma {:induction false} FrontHolds(ins: seq<Clk>, N: nat, depth: nat)
    requires N >= 1 && Legal(ins, N)
    ensures FrontOk(ins, Run(ins, N, depth), N)
  {
    hide HaarCore, HaarPair, AccumBits, FifoNext;
    if ins == [] {
      assert Pow2(N - 1) >= 1;
    } else {
      var before, i := ins[..|ins| - 1], ins[|ins| - 1];
      FrontHolds(before, N, depth);
      FrontStep(before, Run(before, N, depth), i, N, depth);
      assert ins == before + [i];
    }
  }

  lemma FrontStep(ins: seq<Clk>, s: State, i: Clk, N: nat, depth: nat)
    requires N >= 1 && FrontOk(ins, s, N) && Shaper.FitsSigned(i.x, N)
    ensures FrontOk(ins + [i], Tick(s, i, N, depth), N)
  {
    hide HaarCore, HaarPair, AccumBits, FifoNext, Shaper.FitsSigned;
    assert (ins + [i])[..|ins|] == ins;
    if s.pairValid { HaarCoreIsHaarPair(s.x0, s.x1, i.thresh, N); }
  }

  /** One edge of the serializer loses, duplicates and reorders nothing while a push finds room. */
  lemma FifoConserves(e: seq<int>, fifo: seq<int>, en: bool, push: bool, y0: int, y1: int, depth: nat)
    requires push ==> |fifo| + 2 <= depth
    ensures e + (if en && fifo != [] then [fifo[0]] else []) + FifoNext(fifo, en, push, y0, y1, depth)
         == e + fifo + (if push then [y0, y1] else [])
  {
    if en && fifo != [] { assert fifo == [fifo[0]] + fifo[1..]; }
  }

  /** Conservation over whole runs: as long as nothing overflowed, the words emitted, the words
      stored and the pair about to be pushed are together exactly the outputs of all transformed
      pairs, in order. */
  lemma {:induction false} Conservation(ins: seq<Clk>, N: nat, depth: nat)
    requires N >= 1 && Legal(ins, N) && !Run(ins, N, depth).overflow
    ensures var s := Run(ins, N, depth);
            Emitted(ins, N, depth) + s.fifo + (if s.outValid then [s.out.y0, s.out.y1] else []) == Outputs(Jobs(ins))
  {
    hide HaarCore, HaarPair, AccumBits, Outputs, Jobs, Taken, FifoNext, Completes, Shaper.FitsSigned;
    if ins == [] {
      EmptyHistory();
    } else {
      var before, i := ins[..|ins| - 1], ins[|ins| - 1];
      var s, s' := Run(before, N, depth), Run(ins, N, depth);
      Conservation(before, N, depth);
      FifoConserves(Emitted(before, N, depth), s.fifo, i.en, s.outValid, s.out.y0, s.out.y1, depth);
      assert Emitted(ins, N, depth) + s'.fifo == Outputs(Jobs(before));
      LoadedJob(ins, N, depth);
      if s'.outValid {
        Snoc(Jobs(before), Job(s'.ax0, s'.ax1, i.thresh));
      }
    }
  }

  /** outValid marks the edges that transformed a new pair, and out holds its result. */
  lemma LoadedJob(ins: seq<Clk>, N: nat, depth: nat)
    requires N >= 1 && Legal(ins, N) && ins != []
    ensures var before, i, s := ins[..|ins| - 1], ins[|ins| - 1], Run(ins, N, depth);
            if s.outValid
            then Jobs(ins) == Jobs(before) + [Job(s.ax0, s.ax1, i.thresh)] && s.out == Job(s.ax0, s.ax1, i.thresh).Out()
            else Jobs(ins) == Jobs(before)
  {
    hide HaarCore, HaarPair, AccumBits, Taken, FifoNext, Shaper.FitsSigned;
    FrontHolds(ins[..|ins| - 1], N, depth);
    FrontHolds(ins, N, depth);
  }

  lemma EmptyHistory()
    ensures Outputs(Jobs([])) == []
  {
  }

  /** The metrics registers hold the exact score of their window, modulo their widths. */
  lemma {:induction false} MetricsExact(ins: seq<Clk>, N: nat, depth: nat)
    requires N >= 1 && Legal(ins, N)
    ensures Run(ins, N, depth).m == Wrap(Score(Window(ins)))
  {
    hide HaarCore, HaarPair, AccumBits, FifoNext, Jobs, Taken, Score, Accumulate, Shaper.FitsSigned;
    if ins == [] {
      ZeroWrap();
    } else {
      var before, i := ins[..|ins| - 1], ins[|ins| - 1];
      MetricsExact(before, N, depth);
      FrontHolds(before, N, depth);
      var s, w := Run(before, N, depth), Window(before);
      ZeroWrap();
      if s.outValid && !i.clr {
        var j := Jobs(before)[|Jobs(before)| - 1];
        Snoc(w, j);
        AccumBitsIsWrapped(Score(w), s.ax0, s.ax1, s.out, N);
      }
    }
  }

  /** The same with the register widths written out: 32 bits, and 48 for the squared error. */
  lemma MetricsModulo(ins: seq<Clk>, N: nat, depth: nat)
    requires N >= 1 && Legal(ins, N)
    ensures var m, exact := Run(ins, N, depth).m, Score(Window(ins));
            && m.totalPairs == exact.totalPairs % Pow2(32) && m.suppressedPairs == exact.suppressedPairs % Pow2(32)
            && m.sumAbsErr == exact.sumAbsErr % Pow2(32) && m.sumSqErr == exact.sumSqErr % Pow2(48)
  {
    hide Run, Score, Window, Pow2;
    MetricsExact(ins, N, depth);
    Pow2At16();
    Pow2At32();
    Pow2Add(16, 32);
  }

  lemma ZeroWrap()
    ensures Wrap(Score([])) == ZERO
  {
  }

  lemma {:induction false} JobCount(ins: seq<Clk>)
    ensures |Jobs(ins)| == if ins == [] then 0 else |Taken(ins[..|ins| - 1])| / 2
  {
    if |ins| > 1 { JobCount(ins[..|ins| - 1]); }
  }

  /** The jobs without their recursion: if the edge before e took the second sample of a pair, that
      pair is transformed at the threshold of edge e and never changes afterwards. */
  lemma {:induction false} JobAt(ins: seq<Clk>, e: nat)
    requires e < |ins| && Completes(ins[..e])
    ensures var n := |Taken(ins[..e])|;
            && n >= 2 && Taken(ins[..e]) <= Taken(ins) && n / 2 <= |Jobs(ins)|
            && Jobs(ins)[n / 2 - 1] == Job(Taken(ins)[n - 2], Taken(ins)[n - 1], ins[e].thresh)
  {
    var before := ins[..|ins| - 1];
    TakenTwo(ins[..e]);
    if e < |ins| - 1 {
      assert before[..e] == ins[..e];
      JobAt(before, e);
    } else {
      JobCount(before);
      if before != [] { JobCount(ins); }
    }
  }

  /** The window without its recursion: with the last clear at edge k, the jobs transformed from that
      edge on, except one transformed at the very last edge. */
  lemma {:induction false} WindowSinceClear(ins: seq<Clk>, k: nat)
    requires k < |ins| && ins[k].clr && forall t :: k < t < |ins| ==> !ins[t].clr
    ensures |Jobs(ins[..k])| <= |Jobs(ins[..|ins| - 1])|
    ensures Window(ins) == Jobs(ins[..|ins| - 1])[|Jobs(ins[..k])|..]
  {
    hide Taken, Completes;
    var n := |ins| - 1;
    if k < n {
      var before := ins[..n];
      assert before[..k] == ins[..k];
      WindowSinceClear(before, k);
      JobsGrow(before);
    }
  }

  /** Without any clear it is all of them. */
  lemma {:induction false} WindowWithoutClear(ins: seq<Clk>)
    requires ins != [] && forall t :: 0 <= t < |ins| ==> !ins[t].clr
    ensures Window(ins) == Jobs(ins[..|ins| - 1])
  {
    hide Taken, Completes;
    var n := |ins| - 1;
    if n > 0 {
      WindowWithoutClear(ins[..n]);
      JobsGrow(ins[..n]);
    }
  }

  /** An edge transforms a pair exactly when it loads one. */
  lemma {:induction false} JobsGrow(ins: seq<Clk>)
    requires ins != []
    ensures var js, before := Jobs(ins), Jobs(ins[..|ins| - 1]);
            if Loads(ins) then |js| == |before| + 1 && js[..|before|] == before else js == before
  {
    var before := ins[..|ins| - 1];
    if Completes(before) { TakenTwo(before); }
  }

  lemma TakenTwo(ins: seq<Clk>)
    requires Completes(ins)
    ensures |Taken(ins)| >= 2
  {
  }

  // ---------- Room in the serializer ----------

  /** Control registers never leave this envelope, whatever the enable pattern is. */
  lemma {:induction false} PressureBounded(ins: seq<Clk>, N: nat, depth: nat)
    requires N >= 1 && depth >= 4
    ensures var s := Run(ins, N, depth);
            Pressure(s) <= 4 && !s.overflow && !(s.pairValid && (s.phase || s.outValid))
  {
    hide HaarCore, AccumBits;
    if ins != [] { PressureBounded(ins[..|ins| - 1], N, depth); }
  }

  lemma RunSnoc(ins: seq<Clk>, i: Clk, N: nat, depth: nat)
    requires N >= 1
    ensures Run(ins + [i], N, depth) == Tick(Run(ins, N, depth), i, N, depth)
  {
    hide Tick;
    assert (ins + [i])[..|ins|] == ins;
  }

  /** Six edges: four back-to-back samples and two idle edges. */
  function Burst(): seq<Clk> {
    var s, idle := Clk(true, 0, 0, false), Clk(false, 0, 0, false);
    [] + [s] + [s] + [s] + [s] + [idle] + [idle]
  }

  lemma BurstOverflows(N: nat, depth: nat)
    requires N >= 1 && 2 <= depth < 4
    ensures Legal(Burst(), N) && Run(Burst(), N, depth).overflow
  {
    hide HaarCore, AccumBits, Run;
    var s, idle := Clk(true, 0, 0, false), Clk(false, 0, 0, false);
    assert Run([], N, depth) == RESET by { RunEmpty(N, depth); }
    RunSnoc([], s, N, depth);
    RunSnoc([] + [s], s, N, depth);
    RunSnoc([] + [s] + [s], s, N, depth);
    RunSnoc([] + [s] + [s] + [s], s, N, depth);
    RunSnoc([] + [s] + [s] + [s] + [s], idle, N, depth);
    RunSnoc([] + [s] + [s] + [s] + [s] + [idle], idle, N, depth);
  }

  lemma RunEmpty(N: nat, depth: nat)
    requires N >= 1
    ensures Run([], N, depth) == RESET
  {
  }

  /** A serializer of at least two words is free of overflow in every run exactly when it holds at
      least four: the documented minimum of two is not enough for arbitrary enables. */
  lemma OverflowFreeIffDepth4(N: nat, depth: nat)
    requires N >= 1 && depth >= 2
    ensures (forall ins :: Legal(ins, N) ==> !Run(ins, N, depth).overflow) <==> depth >= 4
  {
    if depth >= 4 {
      forall ins | Legal(ins, N) ensures !Run(ins, N, depth).overflow { PressureBounded(ins, N, depth); }
    } else {
      BurstOverflows(N, depth);
    }
  }

  /** Enabled edges are at least three apart. */
  ghost predicate Spaced(ins: seq<Clk>) {
    forall j, k :: 0 <= j < k < |ins| && ins[j].en && ins[k].en ==> k - j >= 3
  }

  /** With enables at least three edges apart a depth of two does suffice. */
  lemma {:induction false} SpacedNeedsTwo(ins: seq<Clk>, N: nat, depth: nat)
    requires N >= 1 && depth >= 2 && Spaced(ins)
    ensures var s := Run(ins, N, depth);
            && Pressure(s) <= 2 && !s.overflow
            && (s.pairValid ==> ins != [] && ins[|ins| - 1].en)
            && (s.outValid ==> |ins| >= 2 && ins[|ins| - 2].en)
  {
    hide HaarCore, AccumBits;
    if ins != [] {
      var before := ins[..|ins| - 1];
      SpacedNeedsTwo(before, N, depth);
    }
  }
}
