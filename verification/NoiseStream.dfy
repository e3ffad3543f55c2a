/** The generator: register words mapped to noise and shaped into samples, and the bound on
    the error energy any such sample stream can produce. */
module NoiseStream {
  import opened Bits
  import Lfsr
  import Shaper
  import opened Haar

  /** Noise read from the register before each step (C++, V3 and the RTL). */
  function Noises(r: int, W: nat, N: nat, n: nat): (us: seq<int>)
    requires W >= 1 && N >= 1
    ensures |us| == n
  {
    if n == 0 then [] else Noises(r, W, N, n - 1) + [Shaper.Noise(Lfsr.Iterate(r, W, n - 1), N)]
  }

  /** Noise read from the register after each step (v0). */
  function NoisesStepFirst(r: int, W: nat, N: nat, n: nat): (us: seq<int>)
    requires W >= 1 && N >= 1
    ensures |us| == n
  {
    if n == 0 then [] else NoisesStepFirst(r, W, N, n - 1) + [Shaper.Noise(Lfsr.Iterate(r, W, n), N)]
  }

  /** Stepping before reading is the same stream started one word later. */
  lemma {:induction false} StepFirstIsShift(r: int, W: nat, N: nat, n: nat)
    requires W >= 1 && N >= 1
    ensures NoisesStepFirst(r, W, N, n) == Noises(Lfsr.Step(r, W), W, N, n)
  {
    hide Shaper.Noise, Lfsr.Step;
    if n > 0 {
      StepFirstIsShift(r, W, N, n - 1);
      Lfsr.IterateShift(r, W, n - 1);
    }
  }

  lemma {:induction false} NoiseAt(r: int, W: nat, N: nat, n: nat, i: nat)
    requires W >= 1 && N >= 1 && i < n
    ensures Noises(r, W, N, n)[i] == Shaper.Noise(Lfsr.Iterate(r, W, i), N)
  {
    hide Shaper.Noise, Lfsr.Iterate;
    if i < n - 1 { NoiseAt(r, W, N, n - 1, i); }
  }

  lemma {:induction false} StepFirstAt(r: int, W: nat, N: nat, n: nat, i: nat)
    requires W >= 1 && N >= 1 && i < n
    ensures NoisesStepFirst(r, W, N, n)[i] == Shaper.Noise(Lfsr.Iterate(r, W, i + 1), N)
  {
    hide Shaper.Noise, Lfsr.Iterate;
    if i < n - 1 { StepFirstAt(r, W, N, n - 1, i); }
  }

  lemma {:induction false} NoisesPrefix(r: int, W: nat, N: nat, n: nat, i: nat)
    requires W >= 1 && N >= 1 && i <= n
    ensures Noises(r, W, N, n)[..i] == Noises(r, W, N, i)
  {
    hide Shaper.Noise, Lfsr.Iterate;
    if i < n { NoisesPrefix(r, W, N, n - 1, i); }
  }

  /** The noise stream of every non-zero seed is purely periodic, without a transient. */
  lemma NoisePeriodic(r: int, W: nat, N: nat) returns (p: nat)
    requires W >= 1 && N >= 1 && Lfsr.IsState(r, W)
    ensures 1 <= p <= Pow2(W) - 1
    ensures forall n: nat, i: nat :: i + p < n ==> Noises(r, W, N, n)[i + p] == Noises(r, W, N, n)[i]
  {
    hide Shaper.Noise, Lfsr.Iterate, Noises;
    p := Lfsr.PurelyPeriodic(r, W);
    forall n: nat, i: nat | i + p < n ensures Noises(r, W, N, n)[i + p] == Noises(r, W, N, n)[i] {
      NoiseAt(r, W, N, n, i + p);
      NoiseAt(r, W, N, n, i);
      assert Lfsr.Iterate(r, W, p + i) == Lfsr.Iterate(r, W, i);
    }
  }

  function Lowest(N: nat): int
    requires N >= 1
  {
    -(Pow2(N - 1) as int)
  }

  /** Largest noise value: a register narrower than the sample reaches only the bottom of the range. */
  function Highest(W: nat, N: nat): int
    requires N >= 1
  {
    Lowest(N) + (if N <= W then Pow2(N) else Pow2(W)) - 1
  }

  lemma {:induction false} NoisesWithin(r: int, W: nat, N: nat, n: nat)
    requires W >= 1 && N >= 1 && 0 <= r < Pow2(W)
    ensures Shaper.AllWithin(Noises(r, W, N, n), Lowest(N), Highest(W, N))
    ensures Highest(W, N) <= Pow2(N - 1) - 1
  {
    hide Shaper.Noise, Lfsr.Iterate;
    if N > W { Pow2Monotone(W, N); }
    if n > 0 {
      NoisesWithin(r, W, N, n - 1);
      var q := Lfsr.Iterate(r, W, n - 1);
      Lfsr.IterateInRange(r, W, n - 1);
      Shaper.NoiseRange(q, N);
      if N > W { DivUnique(q, Pow2(N), 0, q); }
    }
  }

  /** Every reachable shaper state and every sample fits in N signed bits. */
  lemma SamplesFit(r: int, W: nat, N: nat, n: nat, shift: nat)
    requires W >= 1 && N >= 1 && 0 <= r < Pow2(W)
    ensures Shaper.FitsSigned(Shaper.StateAfter(0, Noises(r, W, N, n), shift), N)
    ensures Shaper.AllWithin(Shaper.Trajectory(0, Noises(r, W, N, n), shift), Lowest(N), Pow2(N - 1) - 1)
  {
    hide Noises, Shaper.StateAfter, Shaper.Trajectory;
    NoisesWithin(r, W, N, n);
    Shaper.StaysWithin(0, Noises(r, W, N, n), shift, Lowest(N), Pow2(N - 1) - 1);
  }

  // ---------- How much error energy a run can accumulate ----------

  /** How far a state still is above the band the inputs live in. */
  function Excess(s: int, hi: int): nat { if s > hi then s - hi else 0 }

  /** A step never raises the excess, and moves by at most what it sheds plus the band width. */
  lemma StepSpendsExcess(s: int, u: int, shift: nat, lo: int, hi: int)
    requires lo <= s && lo <= u <= hi
    ensures lo <= Shaper.Step(s, u, shift)
    ensures Excess(Shaper.Step(s, u, shift), hi) <= Excess(s, hi)
    ensures Abs(s - Shaper.Step(s, u, shift)) <= Excess(s, hi) - Excess(Shaper.Step(s, u, shift), hi) + (hi - lo)
  {
    hide Shaper.Step;
    Shaper.StepBetween(s, u, shift);
  }

  lemma DetailEnergy(d: int, shed: int, limit: int, band: int)
    requires 0 <= shed <= limit && 0 <= band && Abs(d) <= shed + band
    ensures Sq(d) + d % 2 <= shed * (limit + 2 * band) + (Sq(band) + 1)
  {
    var a: int := Abs(d);
    assert Sq(d) == a * a;
    assert a * a <= (shed + band) * (shed + band) by { SquareMonotone(a, shed + band); }
    assert (shed + band) * (shed + band) == shed * shed + 2 * (shed * band) + band * band;
    assert shed * shed <= shed * limit;
    assert shed * (limit + 2 * band) == shed * limit + 2 * (shed * band);
  }

  lemma SquareMonotone(a: int, b: int)
    requires 0 <= a <= b
    ensures a * a <= b * b
  {
  }

  /** The energy potential: excess is shed at most once, everything else is bounded per pair. */
  lemma {:induction false} EnergyBound(s: int, us: seq<int>, shift: nat, T: int, lo: int, hi: int)
    requires lo <= s && lo <= hi && Shaper.AllWithin(us, lo, hi)
    ensures lo <= Shaper.StateAfter(s, us, shift)
    ensures Excess(Shaper.StateAfter(s, us, shift), hi) <= Excess(s, hi)
    ensures SuppressedEnergy(JobsOf(Shaper.Trajectory(s, us, shift), T)) <=
            (Excess(s, hi) - Excess(Shaper.StateAfter(s, us, shift), hi)) * (Excess(s, hi) + 2 * (hi - lo))
            + |us| / 2 * (Sq(hi - lo) + 1)
    decreases |us|
  {
    hide Shaper.Step, Sq, Excess;
    var n := |us|;
    if n > 0 {
      var us1 := us[..n - 1];
      EnergyBound(s, us1, shift, T, lo, hi);
      var s1, s2 := Shaper.StateAfter(s, us1, shift), Shaper.StateAfter(s, us, shift);
      StepSpendsExcess(s1, us[n - 1], shift, lo, hi);
      JobsOfSnoc(Shaper.Trajectory(s, us1, shift), s2, T);
      var limit, band := Excess(s, hi), hi - lo;
      if n % 2 == 1 {
        WiderFactor(limit - Excess(s1, hi), limit - Excess(s2, hi), limit + 2 * band);
      } else {
        EnergyBoundPair(s, us, shift, T, lo, hi);
      }
    }
  }

  lemma WiderFactor(a: int, b: int, c: int)
    requires a <= b && 0 <= c
    ensures a * c <= b * c
  {
  }

  lemma {:induction false} EnergyBoundPair(s: int, us: seq<int>, shift: nat, T: int, lo: int, hi: int)
    requires lo <= s && lo <= hi && Shaper.AllWithin(us, lo, hi)
    requires |us| >= 2 && |us| % 2 == 0
    ensures SuppressedEnergy(JobsOf(Shaper.Trajectory(s, us, shift), T)) <=
            (Excess(s, hi) - Excess(Shaper.StateAfter(s, us, shift), hi)) * (Excess(s, hi) + 2 * (hi - lo))
            + |us| / 2 * (Sq(hi - lo) + 1)
    decreases |us|, 0
  {
    hide Shaper.Step, Sq, Excess, SuppressedEnergy, Shaper.Trajectory, JobsOf;
    var n := |us|;
    var us2 := us[..n - 2];
    EnergyBound(s, us2, shift, T, lo, hi);
    var s0, s1, s2 := LastTwoStates(s, us, shift, T);
    StepSpendsExcess(s0, us[n - 2], shift, lo, hi);
    StepSpendsExcess(s1, us[n - 1], shift, lo, hi);
    var js := JobsOf(Shaper.Trajectory(s, us2, shift), T);
    SuppressedEnergySnoc(js, Job(s1, s2, T));
    var e, e0, e1, e2 := Excess(s, hi), Excess(s0, hi), Excess(s1, hi), Excess(s2, hi);
    DetailEnergy(s1 - s2, e1 - e2, e, hi - lo);
    PotentialStep(e - e0, e - e1, e - e2, e + 2 * (hi - lo), n / 2 - 1, Sq(hi - lo) + 1,
                  SuppressedEnergy(js), SuppressedEnergy(js + [Job(s1, s2, T)]));
  }

  /** Two more inputs add one job, made of the last two states. */
  lemma LastTwoStates(s: int, us: seq<int>, shift: nat, T: int) returns (s0: int, s1: int, s2: int)
    requires |us| >= 2 && |us| % 2 == 0
    ensures s0 == Shaper.StateAfter(s, us[..|us| - 2], shift) && s2 == Shaper.StateAfter(s, us, shift)
    ensures s1 == Shaper.Step(s0, us[|us| - 2], shift) && s2 == Shaper.Step(s1, us[|us| - 1], shift)
    ensures JobsOf(Shaper.Trajectory(s, us, shift), T)
         == JobsOf(Shaper.Trajectory(s, us[..|us| - 2], shift), T) + [Job(s1, s2, T)]
  {
    hide Shaper.Step, JobsOf;
    var n := |us|;
    var us2, us1 := us[..n - 2], us[..n - 1];
    assert us1[..n - 2] == us2;
    s0, s1, s2 := Shaper.StateAfter(s, us2, shift), Shaper.StateAfter(s, us1, shift), Shaper.StateAfter(s, us, shift);
    JobsOfSnoc(Shaper.Trajectory(s, us2, shift), s1, T);
    JobsOfSnoc(Shaper.Trajectory(s, us1, shift), s2, T);
  }

  lemma PotentialStep(a0: int, a1: int, a2: int, c: int, k: int, q: int, energy: int, energy': int)
    requires a0 <= a1 && 0 <= c
    requires energy <= a0 * c + k * q
    requires energy' - energy <= (a2 - a1) * c + q
    ensures energy' <= a2 * c + (k + 1) * q
  {
    WiderFactor(a0, a1, c);
    assert (a2 - a1) * c == a2 * c - a1 * c;
  }

  lemma SuppressedEnergySnoc(js: seq<Job>, j: Job)
    ensures 0 <= SuppressedEnergy(js + [j]) - SuppressedEnergy(js) <= Sq(j.x0 - j.x1) + (j.x0 - j.x1) % 2
  {
    assert (js + [j])[..|js|] == js;
    SquareAtLeastSelf(j.x0 - j.x1);
  }

  lemma {:induction false} SmallPowers(k: nat)
    requires k <= 32
    ensures Pow2(k) <= 0x1_0000_0000
    ensures k <= 30 ==> Pow2(k) <= 0x4000_0000
    ensures k <= 29 ==> Pow2(k) <= 0x2000_0000
    ensures k <= 16 ==> Pow2(k) <= 0x1_0000
  {
    Pow2At16();
    Pow2Add(16, 16);
    Pow2Add(16, 14);
    Pow2Add(16, 13);
    assert Pow2(14) == 0x4000 && Pow2(13) == 0x2000;
    Pow2Monotone(k, 32);
    if k <= 30 { Pow2Monotone(k, 30); }
    if k <= 29 { Pow2Monotone(k, 29); }
    if k <= 16 { Pow2Monotone(k, 16); }
  }

  /** With a 16-bit register, at most 2^31 samples and any supported width, shift, threshold and
      seed, the exact sums stay far below 2^64. */
  lemma AccumulatorsFit(r: int, N: nat, n: nat, shift: nat, T: int)
    requires 0 <= r < Pow2(16) && 2 <= N <= 30 && n < 0x8000_0000
    ensures var m := Score(JobsOf(Shaper.Trajectory(0, Noises(r, 16, N, n), shift), T));
            m.sumAbsErr <= m.sumSqErr < 0x4000_0000_0000_0000 && m.suppressedPairs <= m.totalPairs == n / 2
  {
    hide Noises, Shaper.Trajectory, Shaper.StateAfter, SuppressedEnergy, Score, JobsOf, Sq,
         Pow2, Lowest, Highest, Excess;
    var us := Noises(r, 16, N, n);
    var lo, hi := Lowest(N), Highest(16, N);
    NoisesWithin(r, 16, N, n);
    BandIsSmall(N);
    EnergyBound(0, us, shift, T, lo, hi);
    MetricsClosedForm(JobsOf(Shaper.Trajectory(0, us, shift), T));
    EnergyIsSmall(SuppressedEnergy(JobsOf(Shaper.Trajectory(0, us, shift), T)),
                  Excess(0, hi) - Excess(Shaper.StateAfter(0, us, shift), hi), Excess(0, hi), hi - lo, n / 2);
  }

  lemma BandIsSmall(N: nat)
    requires 2 <= N <= 30
    ensures Lowest(N) <= 0
    ensures 0 <= Highest(16, N) - Lowest(N) <= 0xFFFF
    ensures 0 <= Excess(0, Highest(16, N)) <= 0x2000_0000
  {
    SmallPowers(N - 1);
    SmallPowers(if N <= 16 then N else 16);
  }

  lemma EnergyIsSmall(energy: int, shed: int, e: int, band: int, pairs: int)
    requires 0 <= shed <= e <= 0x2000_0000 && 0 <= band <= 0xFFFF && 0 <= pairs <= 0x4000_0000
    requires energy <= shed * (e + 2 * band) + pairs * (Sq(band) + 1)
    ensures energy < 0x8000_0000_0000_0000
  {
    hide Sq;
    BandSquare(band, 0xFFFF);
    BoundedProduct(shed, 0x2000_0000, e + 2 * band, 0x2000_0000 + 2 * 0xFFFF);
    BoundedProduct(pairs, 0x4000_0000, Sq(band) + 1, 0xFFFF * 0xFFFF + 1);
  }

  lemma BandSquare(a: int, b: int)
    requires 0 <= a <= b
    ensures 0 <= Sq(a) <= b * b
  {
    SquareMonotone(a, b);
  }

  lemma BoundedProduct(a: int, a': int, b: int, b': int)
    requires 0 <= a <= a' && 0 <= b <= b'
    ensures a * b <= a' * b'
  {
    WiderFactor(a, a', b);
    WiderFactor(b, b', a');
  }
}
