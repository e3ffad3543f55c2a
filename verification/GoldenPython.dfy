/** The two Python golden models, total over all integer arguments: every ValueError they can
    raise is a result. v0 steps the register first; V3 emits the state before updating it. */
module GoldenPython {
  import opened Bits
  import Lfsr
  import Shaper
  import Haar
  import NoiseStream

  datatype PyError =
    | PairCountNotPositive
    | SeedIsZero
    | NegativeShiftCount
    | RegisterIsZero
    | NegativeAsrAmount

  datatype PyResult =
    | Raised(error: PyError)
    | Returned(x: seq<int>, y: seq<int>, metrics: Haar.Metrics)

  /** The result for a sample stream: its reconstruction and its score. */
  function Scored(xs: seq<int>, T: int): PyResult {
    var js := Haar.JobsOf(xs, T);
    Returned(xs, Haar.Outputs(js), Haar.Score(js))
  }

  function V0Samples(word: int, W: nat, N: nat, shift: nat, n: nat): seq<int>
    requires W >= 1 && N >= 1
  {
    Shaper.Trajectory(0, NoiseStream.NoisesStepFirst(word, W, N, n), shift)
  }

  function V3Samples(word: int, W: nat, N: nat, shift: nat, n: nat): seq<int>
    requires W >= 1 && N >= 1
  {
    Shaper.EmitFirst(0, NoiseStream.Noises(word, W, N, n), shift)
  }

  /** Outcome of run_trecap_phase1 for every argument tuple. Only a masked seed of zero lets the
      register guard fire, and then at the first step. */
  function V0Outcome(K: int, N: int, T: int, shift: int, W: int, rseed: int): PyResult {
    if K <= 0 then Raised(PairCountNotPositive)
    else if rseed == 0 then Raised(SeedIsZero)
    else if W < 0 then Raised(NegativeShiftCount)
    else if rseed % Pow2(W) == 0 then Raised(RegisterIsZero)
    else if N < 1 then Raised(NegativeShiftCount)
    else if shift < 0 then Raised(NegativeAsrAmount)
    else
      WidthOfNonZero(rseed, W);
      Scored(V0Samples(rseed % Pow2(W), W, N, shift, 2 * K), T)
  }

  /** V3 reads the noise before it steps the register, so its errors come in another order. */
  function V3Outcome(K: int, N: int, T: int, shift: int, W: int, rseed: int): PyResult {
    if K <= 0 then Raised(PairCountNotPositive)
    else if rseed == 0 then Raised(SeedIsZero)
    else if W < 0 then Raised(NegativeShiftCount)
    else if N < 1 then Raised(NegativeShiftCount)
    else if shift < 0 then Raised(NegativeAsrAmount)
    else if rseed % Pow2(W) == 0 then Raised(RegisterIsZero)
    else
      WidthOfNonZero(rseed, W);
      Scored(V3Samples(rseed % Pow2(W), W, N, shift, 2 * K), T)
  }

  lemma WidthOfNonZero(z: int, W: int)
    requires W >= 0 && z % Pow2(W) != 0
    ensures W >= 1
  {
  }

  /** A returned result, in terms of its own streams and the threshold: 2K samples, each pair kept or
      flattened as its detail says, and the four metrics measured on the two streams. */
  ghost predicate IsRun(res: PyResult, K: int, T: int) {
    res.Returned? ==>
      && |res.x| == 2 * K
      && Haar.Reconstructs(res.x, T, res.y)
      && Haar.Measures(res.x, T, res.y, res.metrics)
  }

  lemma ScoredIsRun(xs: seq<int>, K: int, T: int)
    requires |xs| == 2 * K
    ensures IsRun(Scored(xs, T), K, T)
  {
    hide Haar.Outputs, Haar.Score, Haar.JobsOf, Haar.Reconstructs, Haar.Measures;
    Haar.StreamMeaning(xs, T);
  }

  /** Which arguments of v0 end in which exception. */
  ghost predicate V0Raises(res: PyResult, K: int, N: int, shift: int, W: int, rseed: int) {
    && (res == Raised(PairCountNotPositive) <==> K <= 0)
    && (res == Raised(SeedIsZero) <==> K > 0 && rseed == 0)
    && (res == Raised(RegisterIsZero) <==> K > 0 && rseed != 0 && W >= 0 && rseed % Pow2(W) == 0)
    && (res == Raised(NegativeAsrAmount) <==> K > 0 && W >= 0 && rseed % Pow2(W) != 0 && N >= 1 && shift < 0)
    && (res.Returned? <==> K > 0 && W >= 0 && rseed % Pow2(W) != 0 && N >= 1 && shift >= 0)
  }

  /** The same for V3. */
  ghost predicate V3Raises(res: PyResult, K: int, N: int, shift: int, W: int, rseed: int) {
    && (res == Raised(PairCountNotPositive) <==> K <= 0)
    && (res == Raised(SeedIsZero) <==> K > 0 && rseed == 0)
    && (res == Raised(NegativeAsrAmount) <==> K > 0 && rseed != 0 && W >= 0 && N >= 1 && shift < 0)
    && (res == Raised(RegisterIsZero) <==>
          K > 0 && rseed != 0 && W >= 0 && N >= 1 && shift >= 0 && rseed % Pow2(W) == 0)
    && (res.Returned? <==> K > 0 && W >= 0 && N >= 1 && shift >= 0 && rseed % Pow2(W) != 0)
  }

  lemma ZeroRemainder(W: nat)
    ensures 0 % Pow2(W) == 0
  {
    DivUnique(0, Pow2(W), 0, 0);
  }

  lemma V0Meaning(K: int, N: int, T: int, shift: int, W: int, rseed: int)
    ensures IsRun(V0Outcome(K, N, T, shift, W, rseed), K, T)
    ensures V0Raises(V0Outcome(K, N, T, shift, W, rseed), K, N, shift, W, rseed)
  {
    hide IsRun, V0Samples, Pow2;
    if W >= 0 { ZeroRemainder(W); }
    var res := V0Outcome(K, N, T, shift, W, rseed);
    if res.Returned? {
      WidthOfNonZero(rseed, W);
      StreamLengths(rseed % Pow2(W), W, N, shift, 2 * K);
      ScoredIsRun(res.x, K, T);
    } else {
      assert IsRun(res, K, T) by { NoRun(res, K, T); }
    }
  }

  lemma V3Meaning(K: int, N: int, T: int, shift: int, W: int, rseed: int)
    ensures IsRun(V3Outcome(K, N, T, shift, W, rseed), K, T)
    ensures V3Raises(V3Outcome(K, N, T, shift, W, rseed), K, N, shift, W, rseed)
  {
    hide IsRun, V3Samples, Pow2;
    if W >= 0 { ZeroRemainder(W); }
    var res := V3Outcome(K, N, T, shift, W, rseed);
    if res.Returned? {
      WidthOfNonZero(rseed, W);
      StreamLengths(rseed % Pow2(W), W, N, shift, 2 * K);
      ScoredIsRun(res.x, K, T);
    } else {
      assert IsRun(res, K, T) by { NoRun(res, K, T); }
    }
  }

  lemma NoRun(res: PyResult, K: int, T: int)
    requires res.Raised?
    ensures IsRun(res, K, T)
  {
  }

  lemma StreamLengths(word: int, W: nat, N: nat, shift: nat, n: nat)
    requires W >= 1 && N >= 1
    ensures |V0Samples(word, W, N, shift, n)| == n && |V3Samples(word, W, N, shift, n)| == n
  {
  }

  lemma MaskedSeed(rseed: int, W: nat)
    ensures And(rseed, Shl(1, W) - 1) == rseed % Pow2(W)
    ensures 0 <= rseed % Pow2(W) < Pow2(W)
  {
    AndMask(rseed, W);
  }

  /** The inlined pair branch both Python loops share, saturations included. */
  method PairStage(x0: int, x1: int, T: int, N: nat, y: seq<int>, m: Haar.Metrics, ghost before: seq<int>)
    returns (y': seq<int>, m': Haar.Metrics)
    requires N >= 1 && Shaper.FitsSigned(x0, N) && Shaper.FitsSigned(x1, N)
    requires |before| % 2 == 1 && before[|before| - 1] == x0
    requires Scored(before, T) == Returned(before, y, m)
    ensures Scored(before + [x1], T) == Returned(before + [x1], y', m')
  {
    hide Haar.HaarPair, Haar.HaarPairSat, Haar.Outputs, Haar.Score, Haar.JobsOf, Haar.Accumulate;
    var o := Haar.HaarPairSat(x0, x1, T, N);
    Haar.SaturationIsIdentity(x0, x1, T, N);
    Haar.JobsOfSnoc(before, x1, T);
    Haar.Snoc(Haar.JobsOf(before, T), Haar.Job(x0, x1, T));
    y' := y + [o.y0, o.y1];
    m' := Haar.Accumulate(m, x0, x1, o);
  }

  lemma Unpaired(xs: seq<int>, x: int, T: int, y: seq<int>, m: Haar.Metrics)
    requires |xs| % 2 == 0 && Scored(xs, T) == Returned(xs, y, m)
    ensures Scored(xs + [x], T) == Returned(xs + [x], y, m)
  {
    Haar.JobsOfSnoc(xs, x, T);
  }

  lemma ScoredEmpty(T: int)
    ensures Scored([], T) == Returned([], [], Haar.ZERO)
  {
    assert Haar.JobsOf([], T) == [];
  }

  lemma SatInRange(z: int, N: nat)
    requires N >= 1 && Shaper.FitsSigned(z, N)
    ensures Haar.Sat(z, N) == z
  {
  }

  /** One more update in either noise order. */
  lemma StreamSnoc(word: int, W: nat, N: nat, shift: nat, n: nat)
    requires W >= 1 && N >= 1
    ensures var s := Shaper.StateAfter(0, NoiseStream.NoisesStepFirst(word, W, N, n), shift);
            var s' := Shaper.Step(s, Shaper.Noise(Lfsr.Iterate(word, W, n + 1), N), shift);
            && Shaper.StateAfter(0, NoiseStream.NoisesStepFirst(word, W, N, n + 1), shift) == s'
            && V0Samples(word, W, N, shift, n + 1) == V0Samples(word, W, N, shift, n) + [s']
    ensures var s := Shaper.StateAfter(0, NoiseStream.Noises(word, W, N, n), shift);
            var s' := Shaper.Step(s, Shaper.Noise(Lfsr.Iterate(word, W, n), N), shift);
            && Shaper.StateAfter(0, NoiseStream.Noises(word, W, N, n + 1), shift) == s'
            && V3Samples(word, W, N, shift, n + 1) == V3Samples(word, W, N, shift, n) + [s]
  {
    hide Shaper.Step, Shaper.Noise, Lfsr.Iterate, Shaper.Trajectory, Shaper.StateAfter, Shaper.EmitFirst;
    Shaper.TrajectorySnoc(0, NoiseStream.NoisesStepFirst(word, W, N, n),
                          Shaper.Noise(Lfsr.Iterate(word, W, n + 1), N), shift);
    Shaper.TrajectorySnoc(0, NoiseStream.Noises(word, W, N, n), Shaper.Noise(Lfsr.Iterate(word, W, n), N), shift);
  }

  lemma StateFits(word: int, W: nat, N: nat, shift: nat, n: nat)
    requires W >= 1 && N >= 1 && 0 <= word < Pow2(W)
    ensures Shaper.FitsSigned(Shaper.StateAfter(0, NoiseStream.NoisesStepFirst(word, W, N, n), shift), N)
    ensures Shaper.FitsSigned(Shaper.StateAfter(0, NoiseStream.Noises(word, W, N, n), shift), N)
  {
    hide Shaper.StateAfter, Lfsr.Step, NoiseStream.Noises, NoiseStream.NoisesStepFirst;
    Lfsr.StepForm(word, W);
    NoiseStream.StepFirstIsShift(word, W, N, n);
    NoiseStream.SamplesFit(Lfsr.Step(word, W), W, N, n, shift);
    NoiseStream.SamplesFit(word, W, N, n, shift);
  }

  lemma RegisterFacts(word: int, W: nat, n: nat)
    requires W >= 1 && 0 <= word < Pow2(W)
    ensures Lfsr.Iterate(word, W, 0) == word
    ensures Lfsr.Iterate(word, W, n + 1) == Lfsr.Step(Lfsr.Iterate(word, W, n), W)
    ensures Lfsr.Iterate(word, W, n) == 0 <==> word == 0
  {
    hide Lfsr.Step;
    Lfsr.IterateInRange(word, W, n);
  }

  lemma EmptyStreams(word: int, W: nat, N: nat, shift: nat)
    requires W >= 1 && N >= 1
    ensures V0Samples(word, W, N, shift, 0) == [] == V3Samples(word, W, N, shift, 0)
    ensures Shaper.StateAfter(0, NoiseStream.NoisesStepFirst(word, W, N, 0), shift) == 0
    ensures Shaper.StateAfter(0, NoiseStream.Noises(word, W, N, 0), shift) == 0
  {
  }

  /** run_trecap_phase1 of the v0 model. */
  method RunV0(K: int, N: int, T: int, shift: int, W: int, rseed: int) returns (res: PyResult)
    ensures res == V0Outcome(K, N, T, shift, W, rseed)
    ensures IsRun(res, K, T) && V0Raises(res, K, N, shift, W, rseed)
  {
    V0Meaning(K, N, T, shift, W, rseed);
    hide IsRun, V0Raises, Haar.Outputs, Haar.Score, Haar.JobsOf, And, Scored, V0Samples, Pow2, Lfsr.Iterate, Lfsr.Step,
         Shaper.StateAfter, Shaper.Step, Shaper.Noise, NoiseStream.NoisesStepFirst, Haar.Sat, Shaper.FitsSigned;
    if K <= 0 { return Raised(PairCountNotPositive); }
    if rseed == 0 { return Raised(SeedIsZero); }
    if W < 0 { return Raised(NegativeShiftCount); }
    var r := And(rseed, Shl(1, W) - 1);
    MaskedSeed(rseed, W);
    ghost var word := r;
    if r == 0 { return Raised(RegisterIsZero); } // the first lfsr_step raises
    WidthOfNonZero(rseed, W);
    if N < 1 { return Raised(NegativeShiftCount); }
    if shift < 0 { return Raised(NegativeAsrAmount); }
    var s, x, y, m := 0, [], [], Haar.ZERO;
    var haveX0, x0 := false, 0;
    var n := 0;
    EmptyStreams(word, W, N, shift);
    RegisterFacts(word, W, 0);
    ScoredEmpty(T);
    while n < 2 * K
      invariant 0 <= n <= 2 * K
      invariant r == Lfsr.Iterate(word, W, n) && r != 0
      invariant s == Shaper.StateAfter(0, NoiseStream.NoisesStepFirst(word, W, N, n), shift)
      invariant x == V0Samples(word, W, N, shift, n) && |x| == n
      invariant haveX0 == (|x| % 2 == 1)
      invariant haveX0 ==> x0 == x[|x| - 1] && Shaper.FitsSigned(x0, N)
      invariant Scored(x, T) == Returned(x, y, m)
    {
      RegisterFacts(word, W, n);
      RegisterFacts(word, W, n + 1);
      StreamSnoc(word, W, N, shift, n);
      StateFits(word, W, N, shift, n + 1);
      r := Lfsr.Step(r, W);
      var u := Shaper.Noise(r, N);
      s := Shaper.Step(s, u, shift);
      SatInRange(s, N);
      var sample := Haar.Sat(s, N);
      if !haveX0 {
        Unpaired(x, sample, T, y, m);
        x0 := sample;
        haveX0 := true;
      } else {
        haveX0 := false;
        y, m := PairStage(x0, sample, T, N, y, m, x);
      }
      x := x + [sample];
      n := n + 1;
    }
    res := Returned(x, y, m);
  }

  /** run_trecap_phase1_csv of the V3 model, without the CSV rows and plot histories. */
  method RunV3(K: int, N: int, T: int, shift: int, W: int, rseed: int) returns (res: PyResult)
    ensures res == V3Outcome(K, N, T, shift, W, rseed)
    ensures IsRun(res, K, T) && V3Raises(res, K, N, shift, W, rseed)
  {
    V3Meaning(K, N, T, shift, W, rseed);
    hide IsRun, V3Raises, Haar.Outputs, Haar.Score, Haar.JobsOf, And, Scored, V3Samples, Pow2, Lfsr.Iterate, Lfsr.Step,
         Shaper.StateAfter, Shaper.Step, Shaper.Noise, NoiseStream.Noises, Haar.Sat, Shaper.FitsSigned;
    if K <= 0 { return Raised(PairCountNotPositive); }
    if rseed == 0 { return Raised(SeedIsZero); }
    if W < 0 { return Raised(NegativeShiftCount); }
    var r := And(rseed, Shl(1, W) - 1);
    MaskedSeed(rseed, W);
    ghost var word := r;
    if N < 1 { return Raised(NegativeShiftCount); }
    if shift < 0 { return Raised(NegativeAsrAmount); }
    if r == 0 { return Raised(RegisterIsZero); } // raised at the end of the first iteration
    WidthOfNonZero(rseed, W);
    var s, x, y, m := 0, [], [], Haar.ZERO;
    var haveX0, x0 := false, 0;
    var n := 0;
    EmptyStreams(word, W, N, shift);
    RegisterFacts(word, W, 0);
    ScoredEmpty(T);
    while n < 2 * K
      invariant 0 <= n <= 2 * K
      invariant r == Lfsr.Iterate(word, W, n) && r != 0
      invariant s == Shaper.StateAfter(0, NoiseStream.Noises(word, W, N, n), shift)
      invariant x == V3Samples(word, W, N, shift, n) && |x| == n
      invariant haveX0 == (|x| % 2 == 1)
      invariant haveX0 ==> x0 == x[|x| - 1] && Shaper.FitsSigned(x0, N)
      invariant Scored(x, T) == Returned(x, y, m)
    {
      RegisterFacts(word, W, n);
      RegisterFacts(word, W, n + 1);
      StreamSnoc(word, W, N, shift, n);
      StateFits(word, W, N, shift, n);
      var u := Shaper.Noise(r, N);
      SatInRange(s, N);
      var sample := Haar.Sat(s, N);
      s := Shaper.Step(s, u, shift);
      r := Lfsr.Step(r, W);
      if !haveX0 {
        Unpaired(x, sample, T, y, m);
        x0 := sample;
        haveX0 := true;
      } else {
        haveX0 := false;
        y, m := PairStage(x0, sample, T, N, y, m, x);
      }
      x := x + [sample];
      n := n + 1;
    }
    res := Returned(x, y, m);
  }
}
