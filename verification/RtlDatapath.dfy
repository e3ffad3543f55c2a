/** Combinational arithmetic of the Phase 1 FPGA design with every vector width spelled out,
    proved equal to the unbounded definitions on in-range operands. */
module RtlDatapath {
  import opened Bits
  import Lfsr
  import Shaper
  import opened Haar

  /** Value of the low w bits read as unsigned. */
  function Unsigned(z: int, w: nat): int { z % Pow2(w) }

  /** Value of the low w bits read as two's complement. */
  function Signed(z: int, w: nat): int
    requires w >= 1
  {
    (z + Pow2(w - 1)) % Pow2(w) - Pow2(w - 1)
  }

  lemma SignedFits(z: int, w: nat)
    requires w >= 1 && Shaper.FitsSigned(z, w)
    ensures Signed(z, w) == z
  {
    DivUnique(z + Pow2(w - 1), Pow2(w), 0, z + Pow2(w - 1));
  }

  lemma UnsignedFits(z: int, w: nat)
    requires 0 <= z < Pow2(w)
    ensures Unsigned(z, w) == z
  {
    DivUnique(z, Pow2(w), 0, z);
  }

  /** lfsr_noise: {new_bit, rnd[W-1:1]}. */
  function LfsrNext(rnd: int, W: nat): int
    requires W >= 6
  {
    var newBit := (Bit(rnd, 0) + Bit(rnd, 2) + Bit(rnd, 3) + Bit(rnd, 5)) % 2;
    newBit * Pow2(W - 1) + Shr(rnd, 1)
  }

  lemma LfsrNextIsStep(rnd: int, W: nat)
    requires W >= 6 && 0 <= rnd < Pow2(W)
    ensures LfsrNext(rnd, W) == Lfsr.Step(rnd, W)
  {
    hide Lfsr.Step, Lfsr.Feedback, Shr, Pow2;
    Lfsr.ShrZero(rnd);
    Lfsr.FeedbackIsParity(rnd);
    Lfsr.StepForm(rnd, W);
    BitHalf(rnd, 1);
    BitHalf(rnd, 2);
    BitHalf(rnd, 4);
  }

  /** The centred noise tap: N+1-bit subtraction, truncated to N bits. */
  function NoiseTap(rnd: int, N: nat): int
    requires N >= 1
  {
    var wide := Signed(Unsigned(rnd, N) - Pow2(N - 1), N + 1);
    Signed(wide, N)
  }

  lemma NoiseTapIsNoise(rnd: int, N: nat)
    requires N >= 1
    ensures NoiseTap(rnd, N) == Shaper.Noise(rnd, N)
  {
    hide Shaper.Noise;
    Shaper.NoiseRange(rnd, N);
    SignedFits(Shaper.Noise(rnd, N), N + 1);
    SignedFits(Shaper.Noise(rnd, N), N);
  }

  /** noise_shaper: next state in a register of width N + 12. */
  function NextState(state: int, u: int, shift: nat, N: nat): int {
    var w := N + 12;
    var diff := Signed(u - state, w);
    var delta := Shr(diff, shift);
    Signed(state + delta, w)
  }

  lemma NextStateIsStep(state: int, u: int, shift: nat, N: nat)
    requires N >= 1 && Shaper.FitsSigned(state, N) && Shaper.FitsSigned(u, N)
    ensures NextState(state, u, shift, N) == Shaper.Step(state, u, shift)
    ensures Shaper.FitsSigned(NextState(state, u, shift, N), N)
    ensures Sat(NextState(state, u, shift, N), N) == NextState(state, u, shift, N)
  {
    hide Shr, Signed, Pow2;
    Shaper.StepBetween(state, u, shift);
    StateRegisterFits(u - state, N);
    StateRegisterFits(Shaper.Step(state, u, shift), N);
    assert Shl(1, N - 1) == Pow2(N - 1);
  }

  lemma StateRegisterFits(z: int, N: nat)
    requires N >= 1 && -2 * Pow2(N - 1) <= z < 2 * Pow2(N - 1)
    ensures Signed(z, N + 12) == z
  {
    hide Signed;
    assert Pow2(N) == 2 * Pow2(N - 1);
    Pow2Monotone(N, N + 11);
    SignedFits(z, N + 12);
  }

  /** Absolute value of a w-bit vector by conditional negation. */
  function AbsBits(v: int, w: nat): int { if v < 0 then Unsigned(-v, w) else v }

  /** round_div2_ties_away on a vector of width N + 2. */
  function RoundBits(num: int, N: nat): int {
    var adj := if num % 2 == 0 then num
               else if num >= 0 then Signed(num + 1, N + 2)
               else Signed(num - 1, N + 2);
    Shr(adj, 1)
  }

  /** haar_core, widths N+1 for sum and difference and N+2 for the numerators. */
  function HaarCore(x0: int, x1: int, thresh: int, N: nat): PairOut
    requires N >= 1
  {
    var a, d := Signed(x0 + x1, N + 1), Signed(x0 - x1, N + 1);
    var absD := AbsBits(d, N + 1);
    var sup := absD < thresh;
    var dp := if sup then 0 else d;
    var num0, num1 := Signed(a + dp, N + 2), Signed(a - dp, N + 2);
    PairOut(Sat(RoundBits(num0, N), N), Sat(RoundBits(num1, N), N), sup)
  }

  lemma RoundBitsIsRound(num: int, N: nat)
    requires N >= 1 && -(Pow2(N) as int) <= num <= Pow2(N)
    ensures RoundBits(num, N) == RoundDiv2(num)
  {
    hide RoundDiv2, Signed, Shr, Pow2;
    RoundDiv2Meaning(num);
    Lfsr.ShrZero(num);
    if num % 2 == 1 {
      var adj := if num >= 0 then num + 1 else num - 1;
      NumeratorFits(adj, N);
      Lfsr.ShrZero(adj);
    }
  }

  lemma NumeratorFits(z: int, N: nat)
    requires N >= 1 && -(Pow2(N) as int) - 1 <= z <= Pow2(N) + 1
    ensures Signed(z, N + 2) == z
  {
    hide Signed;
    assert Pow2(N) == 2 * Pow2(N - 1) && Pow2(N + 1) == 2 * Pow2(N);
    SignedFits(z, N + 2);
  }

  /** The core computes exactly the mathematical pair transform on N-bit samples. */
  lemma HaarCoreIsHaarPair(x0: int, x1: int, thresh: int, N: nat)
    requires N >= 1 && Shaper.FitsSigned(x0, N) && Shaper.FitsSigned(x1, N)
    ensures HaarCore(x0, x1, thresh, N) == HaarPair(x0, x1, thresh)
    ensures Shaper.FitsSigned(HaarPair(x0, x1, thresh).y0, N) && Shaper.FitsSigned(HaarPair(x0, x1, thresh).y1, N)
  {
    hide RoundDiv2, Signed, RoundBits;
    var a, d := x0 + x1, x0 - x1;
    assert Pow2(N) == 2 * Pow2(N - 1);
    SignedFits(a, N + 1);
    SignedFits(d, N + 1);
    if d < 0 { UnsignedFits(-d, N + 1); }
    var dp := if Abs(d) < thresh then 0 else d;
    NumeratorFits(a + dp, N);
    NumeratorFits(a - dp, N);
    RoundBitsIsRound(a + dp, N);
    RoundBitsIsRound(a - dp, N);
    SaturationIsIdentity(x0, x1, thresh, N);
  }

  /** Register widths of metrics_accum. */
  const WORD := 0x1_0000_0000
  const WIDE := 0x1_0000_0000_0000

  function Wrap(m: Metrics): Metrics {
    Metrics(m.totalPairs % WORD, m.suppressedPairs % WORD, m.sumAbsErr % WORD, m.sumSqErr % WIDE)
  }

  /** metrics_accum: errors in N+1 bits, squares in 2(N+1) bits, 32- and 48-bit registers. */
  function AccumBits(m: Metrics, x0: int, x1: int, o: PairOut, N: nat): Metrics {
    var ae0 := AbsBits(Signed(x0 - o.y0, N + 1), N + 1);
    var ae1 := AbsBits(Signed(x1 - o.y1, N + 1), N + 1);
    var sq0 := Unsigned(ae0 * ae0, 2 * (N + 1));
    var sq1 := Unsigned(ae1 * ae1, 2 * (N + 1));
    Metrics((m.totalPairs + 1) % WORD,
            (m.suppressedPairs + (if o.suppressed then 1 else 0)) % WORD,
            (m.sumAbsErr + ae0 + ae1) % WORD,
            (m.sumSqErr + sq0 + sq1) % WIDE)
  }

  lemma ErrorBits(e: int, N: nat)
    requires -(Pow2(N) as int) < e < Pow2(N)
    ensures AbsBits(Signed(e, N + 1), N + 1) == Abs(e)
    ensures Unsigned(Abs(e) * Abs(e), 2 * (N + 1)) == Sq(e)
  {
    hide Signed, Unsigned;
    SignedFits(e, N + 1);
    if e < 0 { UnsignedFits(-e, N + 1); }
    assert Sq(Abs(e)) == Sq(e);
    SquareBelow(Abs(e), N + 1);
    UnsignedFits(Abs(e) * Abs(e), 2 * (N + 1));
  }

  lemma SquareBelow(a: int, w: nat)
    requires 0 <= a < Pow2(w)
    ensures 0 <= a * a < Pow2(2 * w)
  {
    hide Pow2;
    Pow2Add(w, w);
    assert w + w == 2 * w;
    SquareLess(a, Pow2(w));
  }

  lemma SquareLess(a: int, p: int)
    requires 0 <= a < p
    ensures 0 <= a * a < p * p
  {
    assert a * a <= a * p;
    assert a * p < p * p;
  }

  lemma WrapAdd(a: int, b: int, m: int)
    requires m >= 1
    ensures (a % m + b) % m == (a + b) % m
  {
    var q, z := a / m, a % m + b;
    assert a + b == (q + z / m) * m + z % m;
    DivUnique(a + b, m, q + z / m, z % m);
  }

  /** Accumulating in wrapping registers is accumulating exactly and wrapping afterwards. */
  lemma AccumBitsIsWrapped(m: Metrics, x0: int, x1: int, o: PairOut, N: nat)
    requires N >= 1 && Shaper.FitsSigned(x0, N) && Shaper.FitsSigned(x1, N)
    requires Shaper.FitsSigned(o.y0, N) && Shaper.FitsSigned(o.y1, N)
    ensures AccumBits(Wrap(m), x0, x1, o, N) == Wrap(Accumulate(m, x0, x1, o))
  {
    hide Signed, Unsigned, AbsBits, Sq, Abs;
    ErrorRange(x0, o.y0, N);
    ErrorRange(x1, o.y1, N);
    WrapAdd(m.totalPairs, 1, WORD);
    WrapAdd(m.suppressedPairs, if o.suppressed then 1 else 0, WORD);
    WrapAdd(m.sumAbsErr, AbsErr(x0, x1, o), WORD);
    WrapAdd(m.sumSqErr, SqErr(x0, x1, o), WIDE);
  }

  lemma ErrorRange(x: int, y: int, N: nat)
    requires N >= 1 && Shaper.FitsSigned(x, N) && Shaper.FitsSigned(y, N)
    ensures var ae := AbsBits(Signed(x - y, N + 1), N + 1);
            ae == Abs(x - y) && Unsigned(ae * ae, 2 * (N + 1)) == Sq(x - y)
  {
    hide Signed, Unsigned, AbsBits, Sq, Abs;
    assert Pow2(N) == 2 * Pow2(N - 1);
    ErrorBits(x - y, N);
  }
}
