/** The leaky noise shaper: a first-order integrator s := s + floor((u - s) / 2^SHIFT),
    as a mathematical trajectory over unbounded integers. */
module Shaper {
  import opened Bits

  /** Centred signed noise taken from the low N bits of a register word. */
  function Noise(r: int, N: nat): int
    requires N >= 1
  {
    And(r, Shl(1, N) - 1) - Shl(1, N - 1)
  }

  function Step(s: int, u: int, shift: nat): int { s + Shr(u - s, shift) }

  /** The state after consuming all of us. */
  function StateAfter(s: int, us: seq<int>, shift: nat): int {
    if us == [] then s else Step(StateAfter(s, us[..|us| - 1], shift), us[|us| - 1], shift)
  }

  /** Every state reached: one per input, starting after the first update. */
  function Trajectory(s: int, us: seq<int>, shift: nat): (xs: seq<int>)
    ensures |xs| == |us|
  {
    if us == [] then [] else Trajectory(s, us[..|us| - 1], shift) + [StateAfter(s, us, shift)]
  }

  /** The samples a model shows when it emits the state before updating it. */
  function EmitFirst(s: int, us: seq<int>, shift: nat): (xs: seq<int>)
    ensures |xs| == |us|
  {
    if us == [] then [] else EmitFirst(s, us[..|us| - 1], shift) + [StateAfter(s, us[..|us| - 1], shift)]
  }

  predicate FitsSigned(z: int, N: nat)
    requires N >= 1
  {
    -(Pow2(N - 1) as int) <= z < Pow2(N - 1)
  }

  ghost predicate AllWithin(us: seq<int>, lo: int, hi: int) {
    forall i :: 0 <= i < |us| ==> lo <= us[i] <= hi
  }

  lemma NoiseRange(r: int, N: nat)
    requires N >= 1
    ensures Noise(r, N) == r % Pow2(N) - Pow2(N - 1)
    ensures FitsSigned(Noise(r, N), N)
  {
    AndMask(r, N);
  }

  /** The leaky recurrence between neighbouring states, with its floor division written out. */
  lemma {:induction false} TrajectoryRecurs(s: int, us: seq<int>, shift: nat, i: nat)
    requires i < |us|
    ensures var xs := Trajectory(s, us, shift);
            var before := if i == 0 then s else xs[i - 1];
            xs[i] == before + (us[i] - before) / Pow2(shift)
    ensures StateAfter(s, us, shift) == Trajectory(s, us, shift)[|us| - 1]
  {
    hide Pow2;
    var n := |us| - 1;
    if i < n {
      TrajectoryRecurs(s, us[..n], shift, i);
    } else if n > 0 {
      TrajectoryRecurs(s, us[..n], shift, n - 1);
    }
  }

  /** What floor division guarantees, in linear form. */
  lemma FloorShift(v: int, shift: nat)
    ensures v >= 0 ==> 0 <= Shr(v, shift) <= v
    ensures v < 0 ==> v <= Shr(v, shift) <= -1
    ensures v >= Pow2(shift) ==> Shr(v, shift) >= 1
    ensures 0 <= v < Pow2(shift) ==> Shr(v, shift) == 0
  {
    hide Pow2;
    var m: int := Pow2(shift);
    var q := Shr(v, shift);
    Floor(v, m);
    if q >= 0 { MulAtLeast(q, m); } else { MulAtLeast(-q - 1, m); }
  }

  lemma Floor(v: int, m: int)
    requires m >= 1
    ensures v / m * m <= v < v / m * m + m
  {
  }

  lemma MulAtLeast(q: int, m: int)
    requires q >= 0 && m >= 1
    ensures q * m >= q && (q >= 1 ==> q * m >= m) && (-q - 1) * m == -(q * m) - m
  {
  }

  /** A step lands between the old state and the input: no overshoot, ever. */
  lemma StepBetween(s: int, u: int, shift: nat)
    ensures s <= u ==> s <= Step(s, u, shift) <= u
    ensures s > u ==> u <= Step(s, u, shift) < s
  {
    FloorShift(u - s, shift);
  }

  lemma {:induction false} StaysWithin(s: int, us: seq<int>, shift: nat, lo: int, hi: int)
    requires lo <= s <= hi && AllWithin(us, lo, hi)
    ensures lo <= StateAfter(s, us, shift) <= hi
    ensures AllWithin(Trajectory(s, us, shift), lo, hi)
  {
    hide Step;
    if us != [] {
      var rest := us[..|us| - 1];
      StaysWithin(s, rest, shift, lo, hi);
      StepBetween(StateAfter(s, rest, shift), us[|us| - 1], shift);
    }
  }

  lemma TrajectorySnoc(s: int, us: seq<int>, u: int, shift: nat)
    ensures StateAfter(s, us + [u], shift) == Step(StateAfter(s, us, shift), u, shift)
    ensures Trajectory(s, us + [u], shift) == Trajectory(s, us, shift) + [StateAfter(s, us + [u], shift)]
    ensures EmitFirst(s, us + [u], shift) == EmitFirst(s, us, shift) + [StateAfter(s, us, shift)]
  {
    assert (us + [u])[..|us|] == us;
  }

  /** Emitting before updating delays the stream by one and shows the initial state first. */
  lemma {:induction false} EmitFirstIsDelay(s: int, us: seq<int>, u: int, shift: nat)
    ensures EmitFirst(s, us + [u], shift) == [s] + Trajectory(s, us, shift)
  {
    hide Step;
    TrajectorySnoc(s, us, u, shift);
    if us != [] {
      var rest, last := us[..|us| - 1], us[|us| - 1];
      assert us == rest + [last];
      EmitFirstIsDelay(s, rest, last, shift);
    }
  }

  /** At position i the two inputs move the state reached under us by the same floor-shifted step. */
  predicate MovesAlike(s: int, us: seq<int>, vs: seq<int>, shift: nat, i: nat)
    requires i < |us| == |vs|
  {
    var z := StateAfter(s, us[..i], shift);
    Shr(us[i] - z, shift) == Shr(vs[i] - z, shift)
  }

  /** Two input sequences give the same samples exactly when they move alike at every position. */
  lemma {:induction false} SameTrajectoryIff(s: int, us: seq<int>, vs: seq<int>, shift: nat)
    requires |us| == |vs|
    ensures Trajectory(s, us, shift) == Trajectory(s, vs, shift) <==>
              forall i :: 0 <= i < |us| ==> MovesAlike(s, us, vs, shift, i)
    ensures Trajectory(s, us, shift) == Trajectory(s, vs, shift) ==>
              StateAfter(s, us, shift) == StateAfter(s, vs, shift)
  {
    hide Shr;
    if us != [] {
      var n := |us| - 1;
      var a, b := us[..n], vs[..n];
      SameTrajectoryIff(s, a, b, shift);
      forall i | 0 <= i < n ensures MovesAlike(s, a, b, shift, i) == MovesAlike(s, us, vs, shift, i) {
        assert a[..i] == us[..i];
      }
      SnocEqual(Trajectory(s, a, shift), StateAfter(s, us, shift), Trajectory(s, b, shift), StateAfter(s, vs, shift));
      assert (forall i :: 0 <= i < |us| ==> MovesAlike(s, us, vs, shift, i)) <==>
             (forall i :: 0 <= i < n ==> MovesAlike(s, a, b, shift, i)) && MovesAlike(s, us, vs, shift, n);
      assert us[..n] == a;
    }
  }

  lemma SnocEqual(a: seq<int>, x: int, b: seq<int>, y: int)
    requires |a| == |b|
    ensures a + [x] == b + [y] <==> a == b && x == y
  {
    if a + [x] == b + [y] {
      assert a == (a + [x])[..|a|] && b == (b + [y])[..|b|];
      assert x == (a + [x])[|a|] && y == (b + [y])[|b|];
    }
  }

  // ---------- Two trajectories under one input sequence ----------

  /** floor((v + g) / m) - floor(v / m) for a gap g >= 0. */
  lemma FloorGap(v: int, g: nat, shift: nat)
    ensures 0 <= Shr(v + g, shift) - Shr(v, shift) <= g
    ensures g >= Pow2(shift) ==> Shr(v + g, shift) - Shr(v, shift) >= 1
  {
    hide Pow2;
    var m: int := Pow2(shift);
    var k := Shr(v + g, shift) - Shr(v, shift);
    Floor(v, m);
    Floor(v + g, m);
    assert g - m < k * m < g + m;
    if k < 0 { MulAtLeast(-k - 1, m); } else { MulAtLeast(k, m); }
    if k > g {
      assert k * m == (k - 1) * m + m;
      MulAtLeast(k - 1, m);
    }
  }

  /** Ordered initial states stay ordered and their gap never grows, at every step of every
      input sequence; so saturation-free shaping is monotone and non-expansive. */
  lemma {:induction false} MonotoneNonExpansive(s: int, t: int, us: seq<int>, shift: nat)
    requires s <= t
    ensures 0 <= StateAfter(t, us, shift) - StateAfter(s, us, shift) <= t - s
  {
    if us != [] {
      var rest, u := us[..|us| - 1], us[|us| - 1];
      MonotoneNonExpansive(s, t, rest, shift);
      var a, b := StateAfter(s, rest, shift), StateAfter(t, rest, shift);
      FloorGap(u - b, b - a, shift);
    }
  }

  /** The initial state is forgotten: a gap of g0 shrinks by at least one per step until it is
      below 2^SHIFT, whatever the inputs are. */
  lemma {:induction false} ForgetsInitialState(s: int, t: int, us: seq<int>, shift: nat)
    requires s <= t
    ensures var gap := StateAfter(t, us, shift) - StateAfter(s, us, shift);
            0 <= gap && (gap < Pow2(shift) || gap <= t - s - |us|)
  {
    if us != [] {
      var rest, u := us[..|us| - 1], us[|us| - 1];
      ForgetsInitialState(s, t, rest, shift);
      var a, b := StateAfter(s, rest, shift), StateAfter(t, rest, shift);
      FloorGap(u - b, b - a, shift);
    }
  }

  // ---------- Held input ----------

  function Held(u: int, n: nat): seq<int> { if n == 0 then [] else Held(u, n - 1) + [u] }

  lemma HeldSnoc(s: int, u: int, n: nat, shift: nat)
    requires n > 0
    ensures StateAfter(s, Held(u, n), shift) == Step(StateAfter(s, Held(u, n - 1), shift), u, shift)
  {
    TrajectorySnoc(s, Held(u, n - 1), u, shift);
  }

  /** Where a held input has settled: at u, or short of it by less than one shift quantum. */
  predicate Settled(s: int, u: int, shift: nat) { 0 <= u - s < Pow2(shift) }

  lemma SettledIsFixed(s: int, u: int, shift: nat)
    ensures Settled(s, u, shift) <==> Step(s, u, shift) == s
  {
    FloorShift(u - s, shift);
  }

  /** Under a held input the state moves monotonically toward u, is settled after |u - s0|
      steps at the latest, stays there, and lands exactly on u when it started at or above it. */
  lemma {:induction false} HeldInputSettles(s: int, u: int, n: nat, shift: nat)
    ensures var z := StateAfter(s, Held(u, n), shift);
            && (s <= u ==> s <= z <= u)
            && (s >= u ==> u <= z <= s)
            && (Settled(z, u, shift) || (s < u && z >= s + n) || (s > u && z <= s - n))
    ensures n >= Abs(u - s) ==> Settled(StateAfter(s, Held(u, n), shift), u, shift)
    ensures n >= Abs(u - s) && s >= u ==> StateAfter(s, Held(u, n), shift) == u
  {
    hide Step;
    if n > 0 {
      HeldInputSettles(s, u, n - 1, shift);
      HeldSnoc(s, u, n, shift);
      var z := StateAfter(s, Held(u, n - 1), shift);
      StepBetween(z, u, shift);
      SettledIsFixed(z, u, shift);
    }
  }
}
