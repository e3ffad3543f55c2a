/** Acceptance of a DDR ring geometry by the profile checker. */
module RingGeometry {
  import opened Bits
  import opened Text

  datatype Contract = Contract(sizeMin: int, alignment: int, guardMin: int)
  datatype Geometry = Geometry(size: int, hpsBase: int, fpgaBase: int, guard: int)
  datatype Rejection = BadSize | SizeMisaligned | BaseMisaligned | GuardTooSmall

  /** The chain of tests, in order. Contract values are at least 1 where they are loaded. */
  function Accept(g: Geometry, c: Contract): Result<(), Rejection>
    requires c.sizeMin >= 1 && c.alignment >= 1
  {
    if g.size < c.sizeMin || And(g.size, g.size - 1) != 0 then Err(BadSize)
    else if g.size % c.alignment != 0 then Err(SizeMisaligned)
    else if g.hpsBase % c.alignment != 0 || g.fpgaBase % c.alignment != 0 then Err(BaseMisaligned)
    else if g.guard < c.guardMin then Err(GuardTooSmall)
    else Ok(())
  }

  ghost predicate IsPowerOfTwo(z: int) { exists k: nat :: z == Pow2(k) }

  /** The bit trick, on every integer: zero is the only other value it lets through. */
  lemma {:induction false} BitTrick(z: int)
    ensures And(z, z - 1) == 0 <==> z == 0 || IsPowerOfTwo(z)
    decreases Magnitude(z)
  {
    hide Pow2;
    if z == 0 {
      AndZeroMinusOne();
    } else if z % 2 == 1 {
      var w := z / 2;
      AndOfOdd(z);
      OddPower(z);
    } else {
      var w := z / 2;
      AndOfEven(z);
      BitTrick(w);
      EvenPower(z);
    }
  }

  lemma AndZeroMinusOne()
    ensures And(0, -1) == 0
  {
  }

  lemma AndOfOdd(z: int)
    requires z % 2 == 1
    ensures And(z, z - 1) == z - 1
  {
    hide And;
    AndHalves(z, z - 1);
    assert (z - 1) / 2 == z / 2 && (z - 1) % 2 == 0;
    AndSelf(z / 2);
  }

  lemma AndOfEven(z: int)
    requires z % 2 == 0
    ensures And(z, z - 1) == 2 * And(z / 2, z / 2 - 1)
  {
    hide And;
    AndHalves(z, z - 1);
    assert (z - 1) / 2 == z / 2 - 1 && (z - 1) % 2 == 1;
  }

  lemma OddPower(z: int)
    requires z % 2 == 1
    ensures IsPowerOfTwo(z) <==> z == 1
  {
    assert Pow2(0) == 1;
  }

  lemma EvenPower(z: int)
    requires z % 2 == 0 && z != 0
    ensures IsPowerOfTwo(z) <==> IsPowerOfTwo(z / 2)
  {
    if IsPowerOfTwo(z) {
      var k: nat :| z == Pow2(k);
      assert k > 0 && z / 2 == Pow2(k - 1);
    }
    if IsPowerOfTwo(z / 2) {
      var k: nat :| z / 2 == Pow2(k);
      assert z == Pow2(k + 1);
    }
  }

  /** Only powers of two divide a power of two. */
  lemma {:induction false} DivisorOfPower(a: int, k: nat)
    requires a >= 1 && Pow2(k) % a == 0
    ensures IsPowerOfTwo(a)
    decreases k
  {
    var q := Pow2(k) / a;
    assert Pow2(k) == q * a;
    if k == 0 {
      UnitFactor(q, a);
      assert a == Pow2(0);
    } else {
      assert q * a == 2 * Pow2(k - 1);
      if a % 2 == 0 {
        HalfDivides(a, q, Pow2(k - 1));
        DivisorOfPower(a / 2, k - 1);
        if a != 2 { EvenPower(a); } else { assert a == Pow2(1); }
      } else {
        OddFactor(a, q, Pow2(k - 1));
        DivisorOfPower(a, k - 1);
      }
    }
  }

  lemma UnitFactor(q: int, a: int)
    requires a >= 1 && q * a == 1
    ensures a == 1
  {
    assert q <= 0 ==> q * a <= 0;
    assert q >= 1 ==> q * a >= a;
  }

  lemma HalfDivides(a: int, q: int, p: int)
    requires a >= 2 && a % 2 == 0 && q * a == 2 * p
    ensures p % (a / 2) == 0
  {
    assert q * a == 2 * (q * (a / 2));
    DivUnique(p, a / 2, q, 0);
  }

  lemma OddFactor(a: int, q: int, p: int)
    requires a >= 1 && a % 2 == 1 && q * a == 2 * p
    ensures p % a == 0
  {
    assert q * a == 2 * (q * (a / 2)) + q;
    var h := q / 2;
    assert q == 2 * h;
    assert 2 * h * a == 2 * (h * a);
    DivUnique(p, a, h, 0);
  }

  /** What acceptance buys: size and alignment are powers of two, and masking an absolute pointer
      is its ring offset, for every pointer. */
  lemma AcceptedGeometry(g: Geometry, c: Contract)
    requires c.sizeMin >= 1 && c.alignment >= 1 && Accept(g, c).Ok?
    ensures IsPowerOfTwo(g.size) && IsPowerOfTwo(c.alignment)
    ensures forall p: int :: And(p, g.size - 1) == p % g.size
  {
    hide And, Pow2;
    BitTrick(g.size);
    var k: nat :| g.size == Pow2(k);
    DivisorOfPower(c.alignment, k);
    forall p: int ensures And(p, g.size - 1) == p % g.size { AndMask(p, k); }
  }

  /** Exactly the power-of-two, aligned, large enough geometries are accepted, and any other is
      rejected for the first test it fails. */
  lemma AcceptIff(g: Geometry, c: Contract)
    requires c.sizeMin >= 1 && c.alignment >= 1
    ensures var sizeOk := g.size >= c.sizeMin && IsPowerOfTwo(g.size);
            var sizeAligned := g.size % c.alignment == 0;
            var basesAligned := g.hpsBase % c.alignment == 0 && g.fpgaBase % c.alignment == 0;
            var r := Accept(g, c);
            && (r.Ok? <==> sizeOk && sizeAligned && basesAligned && g.guard >= c.guardMin)
            && (r == Err(BadSize) <==> !sizeOk)
            && (r == Err(SizeMisaligned) <==> sizeOk && !sizeAligned)
            && (r == Err(BaseMisaligned) <==> sizeOk && sizeAligned && !basesAligned)
            && (r == Err(GuardTooSmall) <==> sizeOk && sizeAligned && basesAligned && g.guard < c.guardMin)
  {
    hide And, Pow2;
    BitTrick(g.size);
  }
}
