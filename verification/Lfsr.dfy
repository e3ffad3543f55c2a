/** The shift-right linear feedback register that feeds every Phase 1 model. */
module Lfsr {
  import opened Bits

  /** Feedback bit: taps 0, 2, 3 and 5. */
  function Feedback(r: int): int {
    And(Xor(Xor(Xor(Shr(r, 0), Shr(r, 2)), Shr(r, 3)), Shr(r, 5)), 1)
  }

  /** One update of a W-bit register, operator for operator as the Python models write it. */
  function Step(r: int, W: nat): int
    requires W >= 1
  {
    And(Or(Shl(Feedback(r), W - 1), Shr(r, 1)), Shl(1, W) - 1)
  }

  /** The C++ and RTL spelling: 16 bits, operands of the Or the other way round. */
  function Step16(s: int): int {
    And(Or(Shr(s, 1), Shl(Feedback(s), 15)), 0xFFFF)
  }

  /** Parity of the tapped bits above bit 0, read off the register already shifted right. */
  function UpperTaps(h: int): int { (Bit(h, 1) + Bit(h, 2) + Bit(h, 4)) % 2 }

  /** The undo step: recovers the bit that was shifted out from the bit shifted in. */
  function Unstep(q: int, W: nat): int
    requires W >= 1
  {
    var h := q % Pow2(W - 1);
    2 * h + (q / Pow2(W - 1) + UpperTaps(h)) % 2
  }

  ghost predicate IsState(r: int, W: nat) { 0 < r < Pow2(W) }

  lemma XorParity(a: int, b: int, c: int, d: int)
    ensures And(Xor(Xor(Xor(a, b), c), d), 1) == (a % 2 + (b % 2 + c % 2 + d % 2) % 2) % 2
  {
    hide And, Xor;
    var p := Xor(a, b);
    var q := Xor(p, c);
    XorHalves(a, b);
    XorHalves(p, c);
    XorHalves(q, d);
    AndOne(Xor(q, d));
    ParityOfFour(a % 2, b % 2, c % 2, d % 2);
  }

  lemma ParityOfFour(a: int, b: int, c: int, d: int)
    ensures (((a + b) % 2 + c) % 2 + d) % 2 == (a + (b + c + d) % 2) % 2
  {
  }

  lemma FeedbackIsParity(r: int)
    ensures Feedback(r) == (r % 2 + UpperTaps(r / 2)) % 2
  {
    hide And, Xor, Shr;
    XorParity(Shr(r, 0), Shr(r, 2), Shr(r, 3), Shr(r, 5));
    ShrZero(r);
    BitHalf(r, 1);
    BitHalf(r, 2);
    BitHalf(r, 4);
  }

  lemma ShrZero(r: int)
    ensures Shr(r, 0) == r && Shr(r, 1) == r / 2
  {
  }

  /** Closed form: halve the register and put the feedback bit on top. */
  lemma StepForm(r: int, W: nat)
    requires W >= 1 && 0 <= r < Pow2(W)
    ensures Step(r, W) == Feedback(r) * Pow2(W - 1) + r / 2
    ensures 0 <= Feedback(r) <= 1 && 0 <= r / 2 < Pow2(W - 1)
    ensures 0 <= Step(r, W) < Pow2(W)
  {
    hide And, Or, Shr, Feedback, UpperTaps;
    FeedbackIsParity(r);
    ShrZero(r);
    var b, v := Feedback(r), Feedback(r) * Pow2(W - 1) + r / 2;
    OrDisjoint(b, r / 2, W - 1);
    assert 0 <= v < Pow2(W) by { assert b == 0 || b == 1; }
    AndMask(v, W);
    DivUnique(v, Pow2(W), 0, v);
  }

  lemma Step16IsStep(s: int)
    ensures Step16(s) == Step(s, 16)
  {
    Pow2At16();
    OrCommutes(Shr(s, 1), Shl(Feedback(s), 15));
  }

  /** A non-zero state never steps to zero, and zero is stuck. */
  lemma StepKeepsNonZero(r: int, W: nat)
    requires W >= 1 && 0 <= r < Pow2(W)
    ensures Step(r, W) == 0 <==> r == 0
  {
    hide Step, Feedback, UpperTaps;
    StepForm(r, W);
    FeedbackIsParity(r);
    if r / 2 == 0 {
      UpperTapsOfZero();
    }
  }

  lemma UpperTapsOfZero()
    ensures UpperTaps(0) == 0
  {
    assert forall k: nat :: Bit(0, k) == 0 by {
      forall k: nat ensures Bit(0, k) == 0 { DivUnique(0, Pow2(k), 0, 0); }
    }
  }

  lemma UnstepUndoesStep(r: int, W: nat)
    requires W >= 1 && 0 <= r < Pow2(W)
    ensures Unstep(Step(r, W), W) == r
  {
    hide Step, Feedback, UpperTaps;
    StepForm(r, W);
    FeedbackIsParity(r);
    DivUnique(Step(r, W), Pow2(W - 1), Feedback(r), r / 2);
    assert r == 2 * (r / 2) + (Feedback(r) + UpperTaps(r / 2)) % 2;
  }

  lemma StepUndoesUnstep(q: int, W: nat)
    requires W >= 1 && 0 <= q < Pow2(W)
    ensures 0 <= Unstep(q, W) < Pow2(W)
    ensures Step(Unstep(q, W), W) == q
  {
    hide Step, Feedback, UpperTaps, Pow2;
    var m := Pow2(W - 1);
    Pow2Double(W);
    TopBit(q, m);
    var r, t := Unstep(q, W), UpperTaps(q % m);
    ParityCancels(q % m, q / m, t);
    FeedbackIsParity(r);
    StepForm(r, W);
  }

  /** Adding the same parity twice cancels, and the half below survives. */
  lemma ParityCancels(h: int, b: int, t: int)
    requires 0 <= b <= 1
    ensures var r := 2 * h + (b + t) % 2;
            r / 2 == h && (r % 2 + t) % 2 == b
  {
  }

  lemma TopBit(q: int, m: nat)
    requires m > 0 && 0 <= q < 2 * m
    ensures 0 <= q / m <= 1 && q == q / m * m + q % m
  {
    if q < m { DivUnique(q, m, 0, q); } else { DivUnique(q, m, 1, q - m); }
  }

  /** On the non-zero W-bit states the step is a bijection, for every width. */
  lemma StepIsPermutation(W: nat)
    requires W >= 1
    ensures forall r :: IsState(r, W) ==> IsState(Step(r, W), W) && Unstep(Step(r, W), W) == r
    ensures forall q :: IsState(q, W) ==> IsState(Unstep(q, W), W) && Step(Unstep(q, W), W) == q
  {
    forall r | IsState(r, W)
      ensures IsState(Step(r, W), W) && Unstep(Step(r, W), W) == r
    {
      StepForm(r, W);
      StepKeepsNonZero(r, W);
      UnstepUndoesStep(r, W);
    }
    forall q | IsState(q, W)
      ensures IsState(Unstep(q, W), W) && Step(Unstep(q, W), W) == q
    {
      StepUndoesUnstep(q, W);
      StepKeepsNonZero(Unstep(q, W), W);
    }
  }

  /** The register after n updates. */
  function Iterate(r: int, W: nat, n: nat): int
    requires W >= 1
  {
    if n == 0 then r else Step(Iterate(r, W, n - 1), W)
  }

  lemma {:induction false} IterateInRange(r: int, W: nat, n: nat)
    requires W >= 1 && 0 <= r < Pow2(W)
    ensures 0 <= Iterate(r, W, n) < Pow2(W)
    ensures Iterate(r, W, n) == 0 <==> r == 0
  {
    hide Step;
    if n > 0 {
      IterateInRange(r, W, n - 1);
      StepForm(Iterate(r, W, n - 1), W);
      StepKeepsNonZero(Iterate(r, W, n - 1), W);
    }
  }

  /** Stepping first and then iterating is iterating once more. */
  lemma {:induction false} IterateShift(r: int, W: nat, n: nat)
    requires W >= 1
    ensures Iterate(Step(r, W), W, n) == Iterate(r, W, n + 1)
  {
    hide Step;
    if n > 0 { IterateShift(r, W, n - 1); }
  }

  /** If two positions of one orbit meet, so do the positions the same distance earlier. */
  lemma {:induction false} MeetEarlier(r: int, W: nat, i: nat, j: nat)
    requires W >= 1 && 0 <= r < Pow2(W) && i <= j
    requires Iterate(r, W, i) == Iterate(r, W, j)
    ensures Iterate(r, W, j - i) == r
    decreases i
  {
    hide Step, Unstep;
    if i > 0 {
      IterateInRange(r, W, i - 1);
      IterateInRange(r, W, j - 1);
      UnstepUndoesStep(Iterate(r, W, i - 1), W);
      UnstepUndoesStep(Iterate(r, W, j - 1), W);
      MeetEarlier(r, W, i - 1, j - 1);
    }
  }

  ghost function Orbit(r: int, W: nat, n: nat): set<int>
    requires W >= 1
  {
    if n == 0 then {} else Orbit(r, W, n - 1) + {Iterate(r, W, n - 1)}
  }

  /** Position i of the orbit of r is z. */
  ghost predicate Hits(r: int, W: nat, i: nat, z: int)
    requires W >= 1
  {
    Iterate(r, W, i) == z
  }

  lemma {:induction false} OrbitMember(r: int, W: nat, n: nat, z: int)
    requires W >= 1
    ensures z in Orbit(r, W, n) <==> exists i: nat :: i < n && Hits(r, W, i, z)
  {
    hide Iterate;
    if n > 0 {
      OrbitMember(r, W, n - 1, z);
      assert Hits(r, W, n - 1, z) <==> Iterate(r, W, n - 1) == z;
    }
  }

  /** The non-zero states below n. */
  ghost function Below(n: nat): set<int> { if n <= 1 then {} else Below(n - 1) + {n - 1} }

  lemma {:induction false} BelowSize(n: nat)
    requires n >= 1
    ensures |Below(n)| == n - 1
    ensures forall z: int :: z in Below(n) <==> 0 < z < n
  {
    if n > 1 { BelowSize(n - 1); }
  }

  lemma SubsetIsNoLarger(a: set<int>, b: set<int>)
    requires a <= b
    ensures |a| <= |b|
  {
    assert b == a + (b - a);
  }

  /** Distinct points fill the orbit, so an orbit without return has n elements. */
  lemma {:induction false} OrbitSize(r: int, W: nat, n: nat)
    requires W >= 1 && IsState(r, W)
    requires forall p: nat :: 1 <= p < n ==> Iterate(r, W, p) != r
    ensures |Orbit(r, W, n)| == n
  {
    hide Iterate;
    if n > 0 {
      OrbitSize(r, W, n - 1);
      OrbitMember(r, W, n - 1, Iterate(r, W, n - 1));
      if Iterate(r, W, n - 1) in Orbit(r, W, n - 1) {
        var i: nat :| i < n - 1 && Hits(r, W, i, Iterate(r, W, n - 1));
        MeetEarlier(r, W, i, n - 1);
        assert false;
      }
    }
  }

  /** Pigeonhole: every non-zero seed returns to itself within 2^W - 1 steps. */
  lemma SeedRecurs(r: int, W: nat) returns (p: nat)
    requires W >= 1 && IsState(r, W)
    ensures 1 <= p <= Pow2(W) - 1
    ensures Iterate(r, W, p) == r
  {
    var n := Pow2(W);
    if q: nat :| 1 <= q < n && Iterate(r, W, q) == r {
      p := q;
    } else {
      OrbitSize(r, W, n);
      BelowSize(n);
      forall z | z in Orbit(r, W, n) ensures z in Below(n) {
        OrbitMember(r, W, n, z);
        var i: nat :| i < n && Hits(r, W, i, z);
        IterateInRange(r, W, i);
      }
      SubsetIsNoLarger(Orbit(r, W, n), Below(n));
      assert false;
    }
  }

  lemma {:induction false} IterateAdd(r: int, W: nat, m: nat, n: nat)
    requires W >= 1
    ensures Iterate(Iterate(r, W, m), W, n) == Iterate(r, W, m + n)
  {
    hide Step;
    if n > 0 { IterateAdd(r, W, m, n - 1); }
  }

  /** The whole register sequence is purely periodic: it repeats from its first word on. */
  lemma PurelyPeriodic(r: int, W: nat) returns (p: nat)
    requires W >= 1 && IsState(r, W)
    ensures 1 <= p <= Pow2(W) - 1
    ensures forall n: nat :: Iterate(r, W, p + n) == Iterate(r, W, n)
  {
    p := SeedRecurs(r, W);
    forall n: nat ensures Iterate(r, W, p + n) == Iterate(r, W, n) {
      IterateAdd(r, W, p, n);
    }
  }
}
