/** The C++ golden model on its own machine types. Every operator below is Dafny arithmetic on
    a bounded type, so verifying the module is the proof that no signed operation overflows;
    the unsigned 64-bit accumulators wrap explicitly and are proved never to. */
module GoldenCpp {
  import opened Bits
  import Lfsr
  import Shaper
  import Haar
  import NoiseStream

  newtype int32 = z: int | -0x8000_0000 <= z < 0x8000_0000
  newtype uint32 = z: int | 0 <= z < 0x1_0000_0000
  newtype int64 = z: int | -0x8000_0000_0000_0000 <= z < 0x8000_0000_0000_0000
  newtype uint64 = z: int | 0 <= z < 0x1_0000_0000_0000_0000

  function Ints(s: seq<int32>): (r: seq<int>)
    ensures |r| == |s| && forall i :: 0 <= i < |s| ==> r[i] == s[i] as int
  {
    seq(|s|, i requires 0 <= i < |s| => s[i] as int)
  }

  lemma IntsSnoc(s: seq<int32>, z: int32)
    ensures Ints(s + [z]) == Ints(s) + [z as int]
  {
  }

  predicate SupportedWidth(N: int32) { 2 <= N <= 30 }
  predicate SupportedShift(shift: int32) { 0 <= shift <= 30 }

  predicate Fits(z: int32, N: int32)
    requires SupportedWidth(N)
  {
    Shaper.FitsSigned(z as int, N as nat)
  }

  lemma HalfRange(N: int32)
    requires SupportedWidth(N)
    ensures 2 <= Pow2((N - 1) as nat) <= 0x2000_0000 && Pow2(N as nat) <= 0x4000_0000
  {
    NoiseStream.SmallPowers((N - 1) as nat);
    NoiseStream.SmallPowers(N as nat);
    Pow2Monotone(1, (N - 1) as nat);
  }

  function SatN(v: int64, N: int32): (r: int32)
    requires SupportedWidth(N)
    ensures r as int == Haar.Sat(v as int, N as nat)
  {
    HalfRange(N);
    var lo: int64 := -(Pow2((N - 1) as nat) as int64);
    var hi: int64 := (Pow2((N - 1) as nat) as int64) - 1;
    if v < lo then lo as int32 else if v > hi then hi as int32 else v as int32
  }

  /** Emulated arithmetic shift. The bias addition is the operation that bounds its domain. */
  function Asr(v: int32, sh: uint32): (r: int32)
    requires sh <= 31
    requires sh != 0 && v < 0 ==> -(v as int) + Pow2(sh as nat) - 1 < 0x8000_0000
    ensures r as int == Shr(v as int, sh as nat)
  {
    var m := Pow2(sh as nat);
    if sh == 0 then v
    else if v >= 0 then
      Shaper.FloorShift(v as int, sh as nat);
      (v as int / m) as int32
    else
      NoiseStream.SmallPowers(sh as nat);
      var av: int32 := -v;
      var bias: int32 := (m - 1) as int32;
      CeilingIsNegatedFloor(v as int, m);
      Shaper.FloorShift((av + bias) as int, sh as nat);
      -(((av + bias) as int / m) as int32)
  }

  /** -floor((-v + m - 1) / m) is floor(v / m). */
  lemma CeilingIsNegatedFloor(v: int, m: int)
    requires m >= 1
    ensures -((-v + (m - 1)) / m) == v / m
  {
    var q := v / m;
    assert -v + (m - 1) == (-q) * m + (m - 1 - v % m);
    DivUnique(-v + (m - 1), m, -q, m - 1 - v % m);
  }

  /** C++ division truncates toward zero. */
  function TruncDiv2(z: int): int { if z >= 0 then z / 2 else -((-z) / 2) }

  function RoundDiv2TiesAway(num: int32): (r: int32)
    requires num < 0x7FFF_FFFF
    ensures r as int == Haar.RoundDiv2(num as int)
  {
    AndMask(num as int, 1);
    if And(num as int, 1) == 0 then TruncDiv2(num as int) as int32
    else if num >= 0 then TruncDiv2((num + 1) as int) as int32
    else TruncDiv2((num - 1) as int) as int32
  }

  function IAbs32(v: int32): (r: int32)
    requires v > -0x8000_0000
    ensures r as int == Abs(v as int)
  {
    if v < 0 then -v else v
  }

  function LfsrStep16(s: uint32): (r: uint32)
    ensures r as int == Lfsr.Step(s as int, 16) < Pow2(16)
  {
    Lfsr.Step16IsStep(s as int);
    Pow2At16();
    AndMask(Or(Shr(s as int, 1), Shl(Lfsr.Feedback(s as int), 15)), 16);
    Lfsr.Step16(s as int) as uint32
  }

  function MapLfsrToSigned(lfsr: uint32, N: int32): (u: int32)
    requires SupportedWidth(N)
    ensures u as int == Shaper.Noise(lfsr as int, N as nat)
    ensures Fits(u, N)
  {
    HalfRange(N);
    Shaper.NoiseRange(lfsr as int, N as nat);
    AndMask(lfsr as int, N as nat);
    var mask: uint32 := Pow2(N as nat) as uint32 - 1;
    var u: uint32 := And(lfsr as int, mask as int) as uint32;
    u as int32 - Pow2((N - 1) as nat) as int32
  }

  /** Where asr(diff, (unsigned)SHIFT) is defined in C++: a shift count below 32 and a bias addition
      that stays in 32 bits. */
  predicate ShiftDefined(diff: int, shift: int32) {
    0 <= shift <= 31 && (shift != 0 && diff < 0 ==> -diff + Pow2(shift as nat) - 1 < 0x8000_0000)
  }

  /** The by-reference shaper update: returns the new state and the clipped sample. */
  method NoiseShaperStep(state: int32, u: int32, shift: int32, N: int32) returns (state': int32, x: int32)
    requires SupportedWidth(N) && Fits(state, N) && Fits(u, N) && ShiftDefined(u as int - state as int, shift)
    ensures state' as int == Shaper.Step(state as int, u as int, shift as nat)
    ensures x == state' && Fits(x, N)
  {
    HalfRange(N);
    NoiseStream.SmallPowers(shift as nat);
    Shaper.StepBetween(state as int, u as int, shift as nat);
    var diff: int32 := u - state;
    var delta: int32 := Asr(diff, shift as uint32);
    state' := state + delta;
    x := SatN(state' as int64, N);
  }

  datatype PairOut = PairOut(y0: int32, y1: int32, a: int32, d: int32, absD: int32, suppressed: int32)

  lemma SaturatedOutputs(x0: int, x1: int, T: int, N: nat)
    requires N >= 1 && Shaper.FitsSigned(x0, N) && Shaper.FitsSigned(x1, N)
    ensures var o, a, d := Haar.HaarPair(x0, x1, T), x0 + x1, x0 - x1;
            var dp := if Abs(d) < T then 0 else d;
            && Haar.Sat(Haar.RoundDiv2(a + dp), N) == o.y0 && Haar.Sat(Haar.RoundDiv2(a - dp), N) == o.y1
            && o.suppressed == (Abs(d) < T)
            && Shaper.FitsSigned(o.y0, N) && Shaper.FitsSigned(o.y1, N)
  {
    hide Haar.RoundDiv2, Haar.Sat;
    Haar.SaturationIsIdentity(x0, x1, T, N);
  }

  function HaarPair(x0: int32, x1: int32, thresh: int32, N: int32): (o: PairOut)
    requires SupportedWidth(N) && Fits(x0, N) && Fits(x1, N)
    ensures var spec := Haar.HaarPair(x0 as int, x1 as int, thresh as int);
            && o.y0 as int == spec.y0 && o.y1 as int == spec.y1
            && o.suppressed == (if spec.suppressed then 1 else 0)
    ensures Fits(o.y0, N) && Fits(o.y1, N)
  {
    HalfRange(N);
    SaturatedOutputs(x0 as int, x1 as int, thresh as int, N as nat);
    var a: int32 := x0 + x1;
    var d: int32 := x0 - x1;
    var absD := IAbs32(d);
    var suppressed: int32 := if absD < thresh then 1 else 0;
    var dp: int32 := if absD < thresh then 0 else d;
    var num0: int32 := a + dp;
    var num1: int32 := a - dp;
    var y0 := RoundDiv2TiesAway(num0);
    var y1 := RoundDiv2TiesAway(num1);
    PairOut(SatN(y0 as int64, N), SatN(y1 as int64, N), a, d, absD, suppressed)
  }

  /** Unsigned 64-bit addition wraps. */
  function AddU64(a: uint64, b: uint64): (r: uint64)
    ensures a as int + b as int < 0x1_0000_0000_0000_0000 ==> r as int == a as int + b as int
  {
    ((a as int + b as int) % 0x1_0000_0000_0000_0000) as uint64
  }

  /** The four 64-bit counters. */
  datatype Counters = Counters(totalPairs: uint64, suppressedPairs: uint64, sumAbsErr: uint64, sumSqErr: uint64) {
    predicate Holds(m: Haar.Metrics) {
      && totalPairs as int == m.totalPairs && suppressedPairs as int == m.suppressedPairs
      && sumAbsErr as int == m.sumAbsErr && sumSqErr as int == m.sumSqErr
    }
  }

  /** The metric update of one pair. Exact as soon as the exact sums fit in 62 bits. */
  method ScorePair(c: Counters, x0: int32, x1: int32, po: PairOut, N: int32, ghost m: Haar.Metrics)
    returns (c': Counters)
    requires SupportedWidth(N) && Fits(x0, N) && Fits(x1, N) && Fits(po.y0, N) && Fits(po.y1, N)
    requires 0 <= po.suppressed <= 1 && c.Holds(m)
    requires var m' := Haar.Accumulate(m, x0 as int, x1 as int,
                         Haar.PairOut(po.y0 as int, po.y1 as int, po.suppressed == 1));
             m'.totalPairs < 0x4000_0000_0000_0000 && m'.sumSqErr < 0x4000_0000_0000_0000
             && m'.suppressedPairs <= m'.totalPairs && m'.sumAbsErr <= m'.sumSqErr
    ensures c'.Holds(Haar.Accumulate(m, x0 as int, x1 as int,
                       Haar.PairOut(po.y0 as int, po.y1 as int, po.suppressed == 1)))
  {
    HalfRange(N);
    var e0: int32 := x0 - po.y0;
    var e1: int32 := x1 - po.y1;
    SquareFits(e0 as int);
    SquareFits(e1 as int);
    var sq0: int64 := e0 as int64 * e0 as int64;
    var sq1: int64 := e1 as int64 * e1 as int64;
    c' := Counters(
      AddU64(c.totalPairs, 1),
      AddU64(c.suppressedPairs, po.suppressed as uint64),
      AddU64(c.sumAbsErr, AddU64(IAbs32(e0) as uint64, IAbs32(e1) as uint64)),
      AddU64(c.sumSqErr, AddU64(sq0 as uint64, sq1 as uint64)));
  }

  lemma SquareFits(e: int)
    requires Abs(e) <= 0x4000_0000
    ensures 0 <= e * e <= 0x1000_0000_0000_0000
  {
    NoiseStream.SquareMonotone(Abs(e), 0x4000_0000);
    assert e * e == Abs(e) * Abs(e);
  }
}
