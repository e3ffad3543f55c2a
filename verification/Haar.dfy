/** The two-sample integer Haar transform with a hard threshold, its reconstruction with
    ties-away rounding, and the cumulative error metrics, over unbounded integers.
    Saturation is absent here: the machine models are proved equal to this module, which
    is how every saturation they perform is shown to be the identity. */
module Haar {
  import opened Bits
  import Shaper

  /** Divide by two, rounding a half away from zero. Only even numbers are ever halved, so
      floor and truncating division agree. */
  function RoundDiv2(q: int): int {
    if And(q, 1) == 0 then q / 2
    else if q >= 0 then (q + 1) / 2
    else (q - 1) / 2
  }

  datatype PairOut = PairOut(y0: int, y1: int, suppressed: bool)

  function HaarPair(x0: int, x1: int, T: int): PairOut {
    var a, d := x0 + x1, x0 - x1;
    var suppressed := Abs(d) < T;
    var d' := if suppressed then 0 else d;
    PairOut(RoundDiv2(a + d'), RoundDiv2(a - d'), suppressed)
  }

  function Sat(z: int, N: nat): int
    requires N >= 1
  {
    var lo: int := -Shl(1, N - 1);
    var hi: int := Shl(1, N - 1) - 1;
    if z < lo then lo else if z > hi then hi else z
  }

  /** The pair stage as the code performs it, with both outputs saturated to N bits. */
  function HaarPairSat(x0: int, x1: int, T: int, N: nat): PairOut
    requires N >= 1
  {
    var a, d := x0 + x1, x0 - x1;
    var sk := if Abs(d) < T then 1 else 0;
    var d' := (1 - sk) * d;
    PairOut(Sat(RoundDiv2(a + d'), N), Sat(RoundDiv2(a - d'), N), sk == 1)
  }

  // ---------- One pair ----------

  lemma RoundDiv2Meaning(q: int)
    ensures q % 2 == 0 ==> 2 * RoundDiv2(q) == q
    ensures q % 2 == 1 && q > 0 ==> 2 * RoundDiv2(q) == q + 1
    ensures q % 2 == 1 && q < 0 ==> 2 * RoundDiv2(q) == q - 1
  {
    hide And;
    AndMask(q, 1);
  }

  lemma PairMeaning(x0: int, x1: int, T: int)
    ensures var o := HaarPair(x0, x1, T);
            && o.suppressed == (Abs(x0 - x1) < T)
            && (!o.suppressed ==> o.y0 == x0 && o.y1 == x1)
            && (o.suppressed ==> o.y0 == o.y1 && Abs(2 * o.y0 - (x0 + x1)) == (x0 - x1) % 2)
  {
    hide RoundDiv2;
    RoundDiv2Meaning(x0 + x1);
    RoundDiv2Meaning(2 * x0);
    RoundDiv2Meaning(2 * x1);
    assert x0 + x1 + (x0 - x1) == 2 * x0 && x0 + x1 - (x0 - x1) == 2 * x1;
  }

  /** Saturation picks the nearest N-bit value, and only that. */
  lemma SatIsNearest(z: int, N: nat, v: int)
    requires N >= 1 && Shaper.FitsSigned(v, N)
    ensures Shaper.FitsSigned(Sat(z, N), N)
    ensures Abs(z - Sat(z, N)) <= Abs(z - v)
    ensures Abs(z - Sat(z, N)) == Abs(z - v) ==> v == Sat(z, N)
  {
    hide Pow2;
    assert Shl(1, N - 1) == Pow2(N - 1);
  }

  /** Both outputs lie between the two inputs of their pair. */
  lemma PairBetween(x0: int, x1: int, T: int)
    ensures var o := HaarPair(x0, x1, T);
            && (x0 <= x1 ==> x0 <= o.y0 <= x1 && x0 <= o.y1 <= x1)
            && (x1 <= x0 ==> x1 <= o.y0 <= x0 && x1 <= o.y1 <= x0)
  {
    hide HaarPair;
    PairMeaning(x0, x1, T);
  }

  /** On N-bit samples neither saturation changes anything. */
  lemma SaturationIsIdentity(x0: int, x1: int, T: int, N: nat)
    requires N >= 1 && Shaper.FitsSigned(x0, N) && Shaper.FitsSigned(x1, N)
    ensures HaarPairSat(x0, x1, T, N) == HaarPair(x0, x1, T)
    ensures Shaper.FitsSigned(HaarPair(x0, x1, T).y0, N) && Shaper.FitsSigned(HaarPair(x0, x1, T).y1, N)
  {
    hide RoundDiv2;
    PairBetween(x0, x1, T);
  }

  function AbsErr(x0: int, x1: int, o: PairOut): nat { Abs(x0 - o.y0) + Abs(x1 - o.y1) }

  function Sq(e: int): int { e * e }

  function SqErr(x0: int, x1: int, o: PairOut): int {
    Sq(x0 - o.y0) + Sq(x1 - o.y1)
  }

  /** Exact error of one pair: nothing when kept, |d| and (d^2 + d mod 2) / 2 when suppressed. */
  lemma PairError(x0: int, x1: int, T: int)
    ensures var o, d := HaarPair(x0, x1, T), x0 - x1;
            && AbsErr(x0, x1, o) == (if Abs(d) < T then Abs(d) else 0)
            && 2 * SqErr(x0, x1, o) == (if Abs(d) < T then Sq(d) + d % 2 else 0)
            && Abs(x0 - o.y0) <= (if T > 0 then T / 2 else 0)
            && Abs(x1 - o.y1) <= (if T > 0 then T / 2 else 0)
  {
    hide HaarPair, Sq;
    PairMeaning(x0, x1, T);
    var o, d := HaarPair(x0, x1, T), x0 - x1;
    if o.suppressed {
      var w := 2 * o.y0 - (x0 + x1);
      assert w == 0 || w == 1 || w == -1;
      assert 2 * (x0 - o.y0) == d - w && 2 * (x1 - o.y1) == -d - w;
      SquareHalves(x0 - o.y0, x1 - o.y1, d, w);
      assert Sq(w) == d % 2 by { SquareOfUnit(w); }
    } else {
      SquareOfUnit(0);
    }
  }

  lemma SquareOfUnit(w: int)
    requires -1 <= w <= 1
    ensures Sq(w) == Abs(w)
  {
  }

  lemma SquareHalves(e0: int, e1: int, d: int, w: int)
    requires 2 * e0 == d - w && 2 * e1 == -d - w
    ensures 2 * (Sq(e0) + Sq(e1)) == Sq(d) + Sq(w)
  {
    assert w == -e0 - e1 && d == e0 - e1;
  }

  /** A suppressed output is a least-squares optimum among all flat integer pairs. */
  lemma FlatOptimum(x0: int, x1: int, T: int, c: int)
    requires HaarPair(x0, x1, T).suppressed
    ensures SqErr(x0, x1, HaarPair(x0, x1, T)) <= Sq(x0 - c) + Sq(x1 - c)
  {
    hide HaarPair, Sq;
    PairMeaning(x0, x1, T);
    PairError(x0, x1, T);
    var d, w := x0 - x1, 2 * c - (x0 + x1);
    SquareHalves(x0 - c, x1 - c, d, w);
    assert w % 2 == d % 2;
    SquareAtLeastParity(w);
  }

  lemma SquareAtLeastParity(w: int)
    ensures Sq(w) >= w % 2
  {
    assert w >= 1 ==> w * w >= w;
    assert w <= -1 ==> w * w >= -w;
  }

  // ---------- Whole streams ----------

  /** One pair handed to the transform, with the threshold in force for it. */
  datatype Job = Job(x0: int, x1: int, T: int) {
    function Out(): PairOut { HaarPair(x0, x1, T) }
  }

  /** Non-overlapping pairing of a sample stream; an odd last sample stays unpaired. */
  function JobsOf(xs: seq<int>, T: int): (js: seq<Job>)
    ensures |js| == |xs| / 2
    ensures forall i :: 0 <= i < |js| ==> js[i] == Job(xs[2 * i], xs[2 * i + 1], T)
  {
    var n := |xs|;
    if n < 2 then []
    else if n % 2 == 1 then JobsOf(xs[..n - 1], T)
    else JobsOf(xs[..n - 2], T) + [Job(xs[n - 2], xs[n - 1], T)]
  }

  function Outputs(js: seq<Job>): (ys: seq<int>)
    ensures |ys| == 2 * |js|
    ensures forall i :: 0 <= i < |js| ==> ys[2 * i] == js[i].Out().y0 && ys[2 * i + 1] == js[i].Out().y1
  {
    if js == [] then []
    else
      var o := js[|js| - 1].Out();
      Outputs(js[..|js| - 1]) + [o.y0, o.y1]
  }

  function Flags(js: seq<Job>): (fs: seq<bool>)
    ensures |fs| == |js|
    ensures forall i :: 0 <= i < |js| ==> fs[i] == js[i].Out().suppressed
  {
    if js == [] then [] else Flags(js[..|js| - 1]) + [js[|js| - 1].Out().suppressed]
  }

  datatype Metrics = Metrics(totalPairs: nat, suppressedPairs: nat, sumAbsErr: nat, sumSqErr: nat)

  const ZERO := Metrics(0, 0, 0, 0)

  /** One accumulation, in the code's own terms. */
  function Accumulate(m: Metrics, x0: int, x1: int, o: PairOut): Metrics {
    SqErrNonNegative(x0, x1, o);
    Metrics(m.totalPairs + 1,
            m.suppressedPairs + (if o.suppressed then 1 else 0),
            m.sumAbsErr + AbsErr(x0, x1, o),
            m.sumSqErr + SqErr(x0, x1, o))
  }

  lemma SqErrNonNegative(x0: int, x1: int, o: PairOut)
    ensures SqErr(x0, x1, o) >= 0
    ensures AbsErr(x0, x1, o) <= SqErr(x0, x1, o)
  {
    SquareAtLeastSelf(x0 - o.y0);
    SquareAtLeastSelf(x1 - o.y1);
  }

  lemma SquareAtLeastSelf(e: int)
    ensures Sq(e) >= Abs(e)
  {
  }

  function Score(js: seq<Job>): Metrics {
    if js == [] then ZERO
    else
      var j := js[|js| - 1];
      Accumulate(Score(js[..|js| - 1]), j.x0, j.x1, j.Out())
  }

  /** Appending one job appends one pair of outputs, one flag and one accumulation. */
  lemma Snoc(js: seq<Job>, j: Job)
    ensures Outputs(js + [j]) == Outputs(js) + [j.Out().y0, j.Out().y1]
    ensures Flags(js + [j]) == Flags(js) + [j.Out().suppressed]
    ensures Score(js + [j]) == Accumulate(Score(js), j.x0, j.x1, j.Out())
  {
    assert (js + [j])[..|js|] == js;
  }

  lemma JobsOfSnoc(xs: seq<int>, x: int, T: int)
    ensures |xs| % 2 == 0 ==> JobsOf(xs + [x], T) == JobsOf(xs, T)
    ensures |xs| % 2 == 1 ==> JobsOf(xs + [x], T) == JobsOf(xs, T) + [Job(xs[|xs| - 1], x, T)]
  {
  }

  /** The samples a job list consumed. */
  function Inputs(js: seq<Job>): (xs: seq<int>)
    ensures |xs| == 2 * |js|
    ensures forall i :: 0 <= i < |js| ==> xs[2 * i] == js[i].x0 && xs[2 * i + 1] == js[i].x1
  {
    if js == [] then [] else Inputs(js[..|js| - 1]) + [js[|js| - 1].x0, js[|js| - 1].x1]
  }

  lemma PairingLosesNothing(xs: seq<int>, T: int)
    requires |xs| % 2 == 0
    ensures Inputs(JobsOf(xs, T)) == xs
  {
    hide Inputs, JobsOf;
    var js := JobsOf(xs, T);
    forall k | 0 <= k < |xs| ensures Inputs(js)[k] == xs[k] {
      var i := k / 2;
      assert js[i] == Job(xs[2 * i], xs[2 * i + 1], T);
      assert k == 2 * i || k == 2 * i + 1;
    }
  }

  // Reference sums over the details d, defined without mentioning any reconstruction.

  function SuppressedDetail(js: seq<Job>): nat {
    if js == [] then 0
    else
      var j := js[|js| - 1];
      SuppressedDetail(js[..|js| - 1]) + (if Abs(j.x0 - j.x1) < j.T then Abs(j.x0 - j.x1) else 0)
  }

  function SuppressedEnergy(js: seq<Job>): int {
    if js == [] then 0
    else
      var j := js[|js| - 1];
      var d := j.x0 - j.x1;
      SuppressedEnergy(js[..|js| - 1]) + (if Abs(d) < j.T then Sq(d) + d % 2 else 0)
  }

  function SuppressedCount(js: seq<Job>): nat {
    if js == [] then 0
    else
      var j := js[|js| - 1];
      SuppressedCount(js[..|js| - 1]) + (if Abs(j.x0 - j.x1) < j.T then 1 else 0)
  }

  /** Closed forms of all four metrics, for every list of pairs and thresholds. */
  lemma {:induction false} MetricsClosedForm(js: seq<Job>)
    ensures var m := Score(js);
            && m.totalPairs == |js|
            && m.suppressedPairs == SuppressedCount(js) <= |js|
            && m.sumAbsErr == SuppressedDetail(js)
            && 2 * m.sumSqErr == SuppressedEnergy(js)
            && m.sumAbsErr <= m.sumSqErr
  {
    hide HaarPair, SqErr, AbsErr, Sq;
    if js != [] {
      var j := js[|js| - 1];
      MetricsClosedForm(js[..|js| - 1]);
      PairError(j.x0, j.x1, j.T);
      SqErrNonNegative(j.x0, j.x1, j.Out());
      PairMeaning(j.x0, j.x1, j.T);
    }
  }

  /** Every sample of every run is reproduced to within floor(T / 2). */
  lemma SampleErrorBound(xs: seq<int>, T: int, k: nat)
    requires |xs| % 2 == 0 && k < |xs|
    ensures Abs(xs[k] - Outputs(JobsOf(xs, T))[k]) <= (if T > 0 then T / 2 else 0)
  {
    hide HaarPair, JobsOf, Outputs;
    var js := JobsOf(xs, T);
    var j := js[k / 2];
    PairError(j.x0, j.x1, T);
    assert k == 2 * (k / 2) || k == 2 * (k / 2) + 1;
  }

  /** A threshold of zero or below is lossless, with all error metrics zero. */
  lemma {:induction false} ZeroThresholdLossless(xs: seq<int>, T: int)
    requires |xs| % 2 == 0 && T <= 0
    ensures Outputs(JobsOf(xs, T)) == xs
    ensures Score(JobsOf(xs, T)) == Metrics(|xs| / 2, 0, 0, 0)
  {
    var js := JobsOf(xs, T);
    forall k | 0 <= k < |xs| ensures Outputs(js)[k] == xs[k] {
      SampleErrorBound(xs, T, k);
    }
    NoThresholdNoSuppression(js);
    MetricsClosedForm(js);
  }

  lemma {:induction false} NoThresholdNoSuppression(js: seq<Job>)
    requires forall i :: 0 <= i < |js| ==> js[i].T <= 0
    ensures SuppressedCount(js) == 0 && SuppressedDetail(js) == 0 && SuppressedEnergy(js) == 0
  {
    if js != [] { NoThresholdNoSuppression(js[..|js| - 1]); }
  }

  /** Sum of squared distances between two streams. */
  function SqDistance(xs: seq<int>, zs: seq<int>): int
    requires |xs| == |zs|
  {
    if xs == [] then 0
    else
      var n := |xs| - 1;
      SqDistance(xs[..n], zs[..n]) + Sq(xs[n] - zs[n])
  }

  lemma SqDistanceSnoc(xs: seq<int>, x: int, zs: seq<int>, z: int)
    requires |xs| == |zs|
    ensures SqDistance(xs + [x], zs + [z]) == SqDistance(xs, zs) + Sq(x - z)
  {
    hide Sq;
    assert (xs + [x])[..|xs|] == xs && (zs + [z])[..|zs|] == zs;
  }

  lemma SqDistanceSnoc2(xs: seq<int>, x0: int, x1: int, zs: seq<int>, z0: int, z1: int)
    requires |xs| == |zs|
    ensures SqDistance(xs + [x0, x1], zs + [z0, z1]) == SqDistance(xs, zs) + (Sq(x0 - z0) + Sq(x1 - z1))
  {
    hide Sq, SqDistance;
    SqDistanceSnoc(xs, x0, zs, z0);
    SqDistanceSnoc(xs + [x0], x1, zs + [z0], z1);
    assert xs + [x0] + [x1] == xs + [x0, x1] && zs + [z0] + [z1] == zs + [z0, z1];
  }

  lemma {:induction false} JobsDistance(js: seq<Job>)
    ensures Score(js).sumSqErr == SqDistance(Inputs(js), Outputs(js))
  {
    hide HaarPair, Sq;
    if js != [] {
      var rest := js[..|js| - 1];
      JobsDistance(rest);
      var j := js[|js| - 1];
      SqDistanceSnoc2(Inputs(rest), j.x0, j.x1, Outputs(rest), j.Out().y0, j.Out().y1);
    }
  }

  /** The squared-error metric is the true distance of the output stream from the sample stream. */
  lemma ScoreIsDistance(xs: seq<int>, T: int)
    requires |xs| % 2 == 0
    ensures var js := JobsOf(xs, T);
            Score(js).sumSqErr == SqDistance(xs, Outputs(js))
  {
    hide Score, Outputs, JobsOf, SqDistance, Inputs;
    PairingLosesNothing(xs, T);
    JobsDistance(JobsOf(xs, T));
  }

  /** The error of one job against any two words that are flat if the job is suppressed. */
  lemma JobOptimum(j: Job, z0: int, z1: int)
    requires j.Out().suppressed ==> z0 == z1
    ensures SqErr(j.x0, j.x1, j.Out()) <= Sq(j.x0 - z0) + Sq(j.x1 - z1)
  {
    hide HaarPair, Sq;
    PairMeaning(j.x0, j.x1, j.T);
    if j.Out().suppressed {
      FlatOptimum(j.x0, j.x1, j.T, z0);
    } else {
      SquareOfUnit(0);
      SquareAtLeastSelf(j.x0 - z0);
      SquareAtLeastSelf(j.x1 - z1);
    }
  }

  lemma {:induction false} JobsOptimal(js: seq<Job>, zs: seq<int>)
    requires |zs| == 2 * |js|
    requires forall i :: 0 <= i < |js| && js[i].Out().suppressed ==> zs[2 * i] == zs[2 * i + 1]
    ensures Score(js).sumSqErr <= SqDistance(Inputs(js), zs)
  {
    hide HaarPair, Sq, SqErr, AbsErr, SqDistance;
    if js == [] {
      assert SqDistance([], zs) == 0 by { EmptyDistance(zs); }
    } else {
      var n := |js| - 1;
      var rest, j := js[..n], js[n];
      var before, z0, z1 := zs[..2 * n], zs[2 * n], zs[2 * n + 1];
      forall i | 0 <= i < |rest| && rest[i].Out().suppressed ensures before[2 * i] == before[2 * i + 1] {
        assert js[i].Out().suppressed;
      }
      JobsOptimal(rest, before);
      JobOptimum(j, z0, z1);
      SqDistanceSnoc2(Inputs(rest), j.x0, j.x1, before, z0, z1);
      assert zs == before + [z0, z1];
    }
  }

  lemma EmptyDistance(zs: seq<int>)
    requires zs == []
    ensures SqDistance([], zs) == 0
  {
  }

  /** Among all integer streams that are flat on the suppressed pairs, the reconstruction is
      nearest to the samples in squared error. */
  lemma ReconstructionIsOptimal(xs: seq<int>, T: int, zs: seq<int>)
    requires |xs| % 2 == 0 && |zs| == |xs|
    requires forall i :: 0 <= i < |xs| / 2 && Abs(xs[2 * i] - xs[2 * i + 1]) < T ==> zs[2 * i] == zs[2 * i + 1]
    ensures SqDistance(xs, Outputs(JobsOf(xs, T))) <= SqDistance(xs, zs)
  {
    hide Score, Outputs, JobsOf, SqDistance, Inputs, HaarPair;
    var js := JobsOf(xs, T);
    PairingLosesNothing(xs, T);
    ScoreIsDistance(xs, T);
    forall i | 0 <= i < |js| && js[i].Out().suppressed ensures zs[2 * i] == zs[2 * i + 1] {
      PairMeaning(js[i].x0, js[i].x1, T);
    }
    JobsOptimal(js, zs);
  }

  // ---------- The result of a stream, sample by sample ----------

  /** Pair i of the stream has a detail below the threshold. */
  predicate Small(xs: seq<int>, T: int, i: int)
    requires 0 <= i < |xs| / 2
  {
    Abs(xs[2 * i] - xs[2 * i + 1]) < T
  }

  /** y is half of a, a half rounded away from zero. */
  predicate IsHalf(y: int, a: int) {
    2 * y == (if a % 2 == 0 then a else if a > 0 then a + 1 else a - 1)
  }

  /** Pairs with a large detail are reproduced, all others are flat at their rounded mean. */
  ghost predicate Reconstructs(xs: seq<int>, T: int, ys: seq<int>) {
    && |ys| == |xs| && |xs| % 2 == 0
    && forall i :: 0 <= i < |xs| / 2 ==>
         if Small(xs, T, i) then ys[2 * i] == ys[2 * i + 1] && IsHalf(ys[2 * i], xs[2 * i] + xs[2 * i + 1])
         else ys[2 * i] == xs[2 * i] && ys[2 * i + 1] == xs[2 * i + 1]
  }

  /** Sum of absolute differences of two streams. */
  function AbsDistance(xs: seq<int>, ys: seq<int>): int
    requires |xs| == |ys|
  {
    if xs == [] then 0
    else
      var n := |xs| - 1;
      AbsDistance(xs[..n], ys[..n]) + Abs(xs[n] - ys[n])
  }

  /** The four counters read off the two streams. */
  ghost predicate Measures(xs: seq<int>, T: int, ys: seq<int>, m: Metrics)
    requires |xs| == |ys|
  {
    && m.totalPairs == |xs| / 2
    && m.suppressedPairs == |set i | 0 <= i < |xs| / 2 && Small(xs, T, i)|
    && m.sumAbsErr == AbsDistance(xs, ys)
    && m.sumSqErr == SqDistance(xs, ys)
  }

  lemma HalfIsRounded(y: int, a: int)
    ensures IsHalf(y, a) <==> y == RoundDiv2(a)
  {
    hide RoundDiv2;
    RoundDiv2Meaning(a);
  }

  /** Outputs is the only stream that reconstructs xs. */
  lemma OutputsIff(xs: seq<int>, T: int, ys: seq<int>)
    requires |xs| % 2 == 0
    ensures ys == Outputs(JobsOf(xs, T)) <==> Reconstructs(xs, T, ys)
  {
    hide JobsOf, Outputs, IsHalf, RoundDiv2;
    var js := JobsOf(xs, T);
    var zs := Outputs(js);
    forall i | 0 <= i < |js|
      ensures if Small(xs, T, i) then zs[2 * i] == zs[2 * i + 1] == RoundDiv2(xs[2 * i] + xs[2 * i + 1])
              else zs[2 * i] == xs[2 * i] && zs[2 * i + 1] == xs[2 * i + 1]
    {
      PairMeaning(xs[2 * i], xs[2 * i + 1], T);
      assert js[i] == Job(xs[2 * i], xs[2 * i + 1], T);
    }
    if ys == zs || Reconstructs(xs, T, ys) {
      forall i | 0 <= i < |js| ensures IsHalf(ys[2 * i], xs[2 * i] + xs[2 * i + 1])
                                       <==> ys[2 * i] == RoundDiv2(xs[2 * i] + xs[2 * i + 1]) {
        HalfIsRounded(ys[2 * i], xs[2 * i] + xs[2 * i + 1]);
      }
    }
    if Reconstructs(xs, T, ys) {
      forall k | 0 <= k < |ys| ensures ys[k] == zs[k] {
        var i := k / 2;
        assert Small(xs, T, i) || !Small(xs, T, i);
        assert k == 2 * i || k == 2 * i + 1;
      }
    }
  }

  lemma AbsDistanceSnoc(xs: seq<int>, x: int, ys: seq<int>, y: int)
    requires |xs| == |ys|
    ensures AbsDistance(xs + [x], ys + [y]) == AbsDistance(xs, ys) + Abs(x - y)
  {
    assert (xs + [x])[..|xs|] == xs && (ys + [y])[..|ys|] == ys;
  }

  lemma {:induction false} JobsAbsDistance(js: seq<Job>)
    ensures Score(js).sumAbsErr == AbsDistance(Inputs(js), Outputs(js))
  {
    hide HaarPair, AbsDistance, SqErr;
    if js == [] {
      assert AbsDistance([], []) == 0 by { EmptyAbsDistance(); }
    } else {
      var rest, j := js[..|js| - 1], js[|js| - 1];
      JobsAbsDistance(rest);
      var a, b, o := Inputs(rest), Outputs(rest), j.Out();
      AbsDistanceSnoc(a, j.x0, b, o.y0);
      AbsDistanceSnoc(a + [j.x0], j.x1, b + [o.y0], o.y1);
      assert a + [j.x0] + [j.x1] == Inputs(js) && b + [o.y0] + [o.y1] == Outputs(js);
    }
  }

  lemma EmptyAbsDistance()
    ensures AbsDistance([], []) == 0
  {
  }

  predicate SmallJob(j: Job) { Abs(j.x0 - j.x1) < j.T }

  lemma {:induction false} CountIsCardinality(js: seq<Job>, n: nat)
    requires n <= |js|
    ensures SuppressedCount(js[..n]) == |set i | 0 <= i < n && SmallJob(js[i])|
  {
    var b := set i | 0 <= i < n && SmallJob(js[i]);
    assert n == 0 ==> b == {};
    if n > 0 {
      CountIsCardinality(js, n - 1);
      CountSnoc(js, n - 1);
      hide SmallJob, SuppressedCount;
      var a := set i | 0 <= i < n - 1 && SmallJob(js[i]);
      if SmallJob(js[n - 1]) { assert b == a + {n - 1}; } else { assert b == a; }
    }
  }

  lemma {:induction false} CountSnoc(js: seq<Job>, n: nat)
    requires n < |js|
    ensures SuppressedCount(js[..n + 1]) == SuppressedCount(js[..n]) + (if SmallJob(js[n]) then 1 else 0)
  {
    assert js[..n + 1][..n] == js[..n];
  }

  /** Reconstruction and score of every even-length stream, in terms of the two streams alone. */
  lemma StreamMeaning(xs: seq<int>, T: int)
    requires |xs| % 2 == 0
    ensures var js := JobsOf(xs, T);
            Reconstructs(xs, T, Outputs(js)) && Measures(xs, T, Outputs(js), Score(js))
  {
    hide JobsOf, Outputs, Score, Reconstructs, AbsDistance, SqDistance, Inputs;
    var js := JobsOf(xs, T);
    OutputsIff(xs, T, Outputs(js));
    assert |Outputs(js)| == |xs|;
    ScoreIsDistance(xs, T);
    PairingLosesNothing(xs, T);
    JobsAbsDistance(js);
    MetricsClosedForm(js);
    CountIsCardinality(js, |js|);
    assert js[..|js|] == js;
    assert (set i | 0 <= i < |js| && SmallJob(js[i]))
        == (set i | 0 <= i < |xs| / 2 && Small(xs, T, i));
  }

  // ---------- When two sample streams give the same words ----------

  /** Two pairs give the same output words: they are equal, or both are suppressed with one mean. */
  predicate SameWords(x0: int, x1: int, z0: int, z1: int, T: int) {
    || (x0 == z0 && x1 == z1)
    || (Abs(x0 - x1) < T && Abs(z0 - z1) < T && RoundDiv2(x0 + x1) == RoundDiv2(z0 + z1))
  }

  lemma SameWordsIff(x0: int, x1: int, z0: int, z1: int, T: int)
    ensures var a, b := HaarPair(x0, x1, T), HaarPair(z0, z1, T);
            a.y0 == b.y0 && a.y1 == b.y1 <==> SameWords(x0, x1, z0, z1, T)
  {
    hide RoundDiv2;
    PairMeaning(x0, x1, T);
    PairMeaning(z0, z1, T);
  }

  /** Exactly when two even-length streams reconstruct to the same words. */
  lemma SameOutputsIff(xs: seq<int>, zs: seq<int>, T: int)
    requires |xs| == |zs| && |xs| % 2 == 0
    ensures Outputs(JobsOf(xs, T)) == Outputs(JobsOf(zs, T)) <==>
              forall i :: 0 <= i < |xs| / 2 ==> SameWords(xs[2 * i], xs[2 * i + 1], zs[2 * i], zs[2 * i + 1], T)
  {
    hide JobsOf, Outputs, HaarPair, SameWords;
    var js, ks := JobsOf(xs, T), JobsOf(zs, T);
    var a, b := Outputs(js), Outputs(ks);
    forall i | 0 <= i < |js|
      ensures a[2 * i] == b[2 * i] && a[2 * i + 1] == b[2 * i + 1]
              <==> SameWords(xs[2 * i], xs[2 * i + 1], zs[2 * i], zs[2 * i + 1], T)
    {
      SameWordsIff(xs[2 * i], xs[2 * i + 1], zs[2 * i], zs[2 * i + 1], T);
      assert js[i] == Job(xs[2 * i], xs[2 * i + 1], T) && ks[i] == Job(zs[2 * i], zs[2 * i + 1], T);
    }
    if forall i :: 0 <= i < |js| ==> SameWords(xs[2 * i], xs[2 * i + 1], zs[2 * i], zs[2 * i + 1], T) {
      forall k | 0 <= k < |a| ensures a[k] == b[k] {
        assert SameWords(xs[2 * (k / 2)], xs[2 * (k / 2) + 1], zs[2 * (k / 2)], zs[2 * (k / 2) + 1], T);
        assert k == 2 * (k / 2) || k == 2 * (k / 2) + 1;
      }
    }
  }

  /** The same pairs at thresholds that are nowhere lower. */
  ghost predicate NotLower(js: seq<Job>, ks: seq<Job>) {
    && |js| == |ks|
    && forall i :: 0 <= i < |js| ==> js[i].x0 == ks[i].x0 && js[i].x1 == ks[i].x1 && js[i].T <= ks[i].T
  }

  /** One pair at two thresholds. */
  lemma JobMonotone(j: Job, k: Job)
    requires j.x0 == k.x0 && j.x1 == k.x1 && j.T <= k.T
    ensures j.Out().suppressed ==> k.Out().suppressed
    ensures AbsErr(j.x0, j.x1, j.Out()) <= AbsErr(k.x0, k.x1, k.Out())
    ensures SqErr(j.x0, j.x1, j.Out()) <= SqErr(k.x0, k.x1, k.Out())
  {
    hide HaarPair, Sq, AbsErr, SqErr;
    PairError(j.x0, j.x1, j.T);
    PairError(k.x0, k.x1, k.T);
    PairMeaning(j.x0, j.x1, j.T);
    PairMeaning(k.x0, k.x1, k.T);
    SqErrNonNegative(k.x0, k.x1, k.Out());
  }

  /** Raising the threshold only ever adds suppressed pairs and error. */
  lemma {:induction false} ThresholdMonotone(js: seq<Job>, ks: seq<Job>)
    requires NotLower(js, ks)
    ensures forall i :: 0 <= i < |js| && Flags(js)[i] ==> Flags(ks)[i]
    ensures Score(js).totalPairs == Score(ks).totalPairs
    ensures Score(js).suppressedPairs <= Score(ks).suppressedPairs
    ensures Score(js).sumAbsErr <= Score(ks).sumAbsErr
    ensures Score(js).sumSqErr <= Score(ks).sumSqErr
  {
    hide HaarPair, Sq, AbsErr, SqErr, Flags;
    forall i | 0 <= i < |js| && Flags(js)[i] ensures Flags(ks)[i] {
      JobMonotone(js[i], ks[i]);
    }
    if js != [] {
      var n := |js| - 1;
      ThresholdMonotone(js[..n], ks[..n]);
      JobMonotone(js[n], ks[n]);
    }
  }

  /** Feeding an output pair back at its own threshold. */
  function Again(j: Job): Job { Job(j.Out().y0, j.Out().y1, j.T) }

  lemma AgainIsStable(j: Job)
    ensures Again(j).Out() == j.Out()
    ensures AbsErr(Again(j).x0, Again(j).x1, Again(j).Out()) == 0
  {
    hide HaarPair;
    PairMeaning(j.x0, j.x1, j.T);
    var k := Again(j);
    PairMeaning(k.x0, k.x1, k.T);
    PairError(k.x0, k.x1, k.T);
  }

  /** Reprocessing an output stream at the same threshold reproduces it, with the same flags and
      without any further error. */
  lemma {:induction false} Reprocessing(xs: seq<int>, T: int)
    ensures var ys := Outputs(JobsOf(xs, T));
            && Outputs(JobsOf(ys, T)) == ys
            && Flags(JobsOf(ys, T)) == Flags(JobsOf(xs, T))
            && Score(JobsOf(ys, T)).sumAbsErr == 0 && Score(JobsOf(ys, T)).sumSqErr == 0
            && Score(JobsOf(ys, T)).suppressedPairs == Score(JobsOf(xs, T)).suppressedPairs
  {
    hide HaarPair, Sq;
    var js := JobsOf(xs, T);
    var ys := Outputs(js);
    var ks := JobsOf(ys, T);
    forall i | 0 <= i < |js| ensures ks[i] == Again(js[i]) {
    }
    StableScore(js, ks);
  }

  lemma {:induction false} StableScore(js: seq<Job>, ks: seq<Job>)
    requires |js| == |ks| && forall i :: 0 <= i < |js| ==> ks[i] == Again(js[i])
    ensures Outputs(ks) == Outputs(js) && Flags(ks) == Flags(js)
    ensures Score(ks) == Metrics(|js|, Score(js).suppressedPairs, 0, 0)
  {
    hide HaarPair, Sq;
    if js != [] {
      var n := |js| - 1;
      StableScore(js[..n], ks[..n]);
      AgainIsStable(js[n]);
      var k := ks[n];
      PairError(k.x0, k.x1, k.T);
    }
  }
}
