/** Integer bit operations with Python's meaning: every integer stands for its
    infinite two's complement expansion, so the operators are total on negatives. */
module Bits {

  function Pow2(k: nat): (p: nat)
    ensures p >= 1
  {
    if k == 0 then 1 else 2 * Pow2(k - 1)
  }

  function Abs(v: int): nat { if v < 0 then -v else v }

  /** Distance of z from the nearer of 0 and -1, the two bit-constant integers. */
  function Magnitude(z: int): nat { if z < 0 then -z - 1 else z }

  function And(a: int, b: int): int
    decreases Magnitude(a) + Magnitude(b)
  {
    if Magnitude(a) == 0 == Magnitude(b) then
      if a == -1 && b == -1 then -1 else 0
    else
      2 * And(a / 2, b / 2) + (a % 2) * (b % 2)
  }

  function Or(a: int, b: int): int
    decreases Magnitude(a) + Magnitude(b)
  {
    if Magnitude(a) == 0 == Magnitude(b) then
      if a == -1 || b == -1 then -1 else 0
    else
      2 * Or(a / 2, b / 2) + (if a % 2 == 1 || b % 2 == 1 then 1 else 0)
  }

  function Xor(a: int, b: int): int
    decreases Magnitude(a) + Magnitude(b)
  {
    if Magnitude(a) == 0 == Magnitude(b) then
      if a != b then -1 else 0
    else
      2 * Xor(a / 2, b / 2) + (if a % 2 != b % 2 then 1 else 0)
  }

  function Shl(z: int, k: nat): int { z * Pow2(k) }

  /** Arithmetic shift right: rounds toward minus infinity, as Python's >> does. */
  function Shr(z: int, k: nat): int { z / Pow2(k) }

  /** Bit k of the two's complement expansion of z. */
  function Bit(z: int, k: nat): int { Shr(z, k) % 2 }

  lemma Pow2Monotone(j: nat, k: nat)
    requires j <= k
    ensures Pow2(j) <= Pow2(k)
    decreases k
  {
    if j < k { Pow2Monotone(j, k - 1); }
  }

  lemma Pow2Add(j: nat, k: nat)
    ensures Pow2(j + k) == Pow2(j) * Pow2(k)
    decreases j
  {
    if j > 0 {
      Pow2Add(j - 1, k);
      assert Pow2(j + k) == 2 * (Pow2(j - 1) * Pow2(k));
    }
  }

  lemma Pow2Double(k: nat)
    requires k >= 1
    ensures Pow2(k) == 2 * Pow2(k - 1)
  {
  }

  lemma Pow2At16()
    ensures Pow2(16) == 0x1_0000 && Pow2(15) == 0x8000
  {
    assert Pow2(8) == 256;
    Pow2Add(8, 8);
  }

  lemma Pow2At32()
    ensures Pow2(32) == 0x1_0000_0000
  {
    Pow2At16();
    Pow2Add(16, 16);
  }

  lemma DivUnique(z: int, m: nat, q: int, r: int)
    requires m > 0 && z == q * m + r && 0 <= r < m
    ensures z / m == q && z % m == r
  {
    var gap := q - z / m;
    assert gap * m == z % m - r;
    MultipleWithin(gap, m);
  }

  lemma MultipleWithin(gap: int, m: int)
    requires -m < gap * m < m
    ensures gap == 0
  {
    assert gap >= 1 ==> gap * m >= m;
    assert gap <= -1 ==> gap * m <= -1 * m;
  }

  /** Halving first and dividing by m afterwards is division by 2m, and the
      remainder splits the same way. */
  lemma HalveThenDivide(z: int, m: nat)
    requires m > 0
    ensures z / (2 * m) == (z / 2) / m
    ensures z % (2 * m) == 2 * ((z / 2) % m) + z % 2
  {
    var h := z / 2;
    var q, r := h / m, h % m;
    assert z == 2 * (q * m + r) + z % 2;
    assert 2 * (q * m) == q * (2 * m);
    DivUnique(z, 2 * m, q, 2 * r + z % 2);
  }

  lemma BitHalf(z: int, k: nat)
    ensures Bit(z, k + 1) == Bit(z / 2, k)
  {
    HalveThenDivide(z, Pow2(k));
  }

  /** And, Or and Xor act bit by bit. This is what the recursive definitions mean. */
  lemma {:induction false} BitwiseMeaning(a: int, b: int, k: nat)
    ensures Bit(And(a, b), k) == Bit(a, k) * Bit(b, k)
    ensures Bit(Or(a, b), k) == (if Bit(a, k) == 1 || Bit(b, k) == 1 then 1 else 0)
    ensures Bit(Xor(a, b), k) == (Bit(a, k) + Bit(b, k)) % 2
    decreases k
  {
    hide And, Or, Xor;
    AndHalves(a, b);
    OrHalves(a, b);
    XorHalves(a, b);
    if k > 0 {
      BitHalf(a, k - 1);
      BitHalf(b, k - 1);
      BitHalf(And(a, b), k - 1);
      BitHalf(Or(a, b), k - 1);
      BitHalf(Xor(a, b), k - 1);
      BitwiseMeaning(a / 2, b / 2, k - 1);
    }
  }

  lemma {:induction false} AndHalves(a: int, b: int)
    ensures And(a, b) / 2 == And(a / 2, b / 2) && And(a, b) % 2 == (a % 2) * (b % 2)
  {
    assert (a % 2) * (b % 2) == 0 || (a % 2) * (b % 2) == 1;
  }

  lemma {:induction false} OrHalves(a: int, b: int)
    ensures Or(a, b) / 2 == Or(a / 2, b / 2) && Or(a, b) % 2 == (if a % 2 == 1 || b % 2 == 1 then 1 else 0)
  {
  }

  lemma {:induction false} XorHalves(a: int, b: int)
    ensures Xor(a, b) / 2 == Xor(a / 2, b / 2) && Xor(a, b) % 2 == (a % 2 + b % 2) % 2
  {
  }

  /** One more mask bit. */
  lemma {:induction false} MaskStep(z: int, m: nat)
    requires m >= 1 && And(z / 2, m - 1) == (z / 2) % m
    ensures And(z, 2 * m - 1) == z % (2 * m)
  {
    hide And;
    HalveThenDivide(z, m);
    AndHalves(z, 2 * m - 1);
    assert (2 * m - 1) / 2 == m - 1 && (2 * m - 1) % 2 == 1;
    var r := And(z, 2 * m - 1);
    assert r == 2 * (r / 2) + r % 2;
  }

  /** Masking with 2^k - 1 keeps the remainder modulo 2^k, also for negative z. */
  lemma {:induction false} AndMask(z: int, k: nat)
    ensures And(z, Pow2(k) - 1) == z % Pow2(k)
    decreases k
  {
    hide And;
    if k == 0 {
      AndZero(z);
    } else {
      AndMask(z / 2, k - 1);
      MaskStep(z, Pow2(k - 1));
    }
  }

  lemma AndOne(z: int)
    ensures And(z, 1) == z % 2
  {
    hide And;
    AndMask(z, 1);
  }

  lemma {:induction false} AndZero(z: int)
    ensures And(z, 0) == 0
    decreases Magnitude(z)
  {
    if Magnitude(z) > 0 { AndZero(z / 2); }
  }

  lemma {:induction false} AndSelf(z: int)
    ensures And(z, z) == z
    decreases Magnitude(z)
  {
    if Magnitude(z) > 0 { AndSelf(z / 2); }
  }

  /** Testing one mask bit reads that bit. */
  lemma {:induction false} AndSingleBit(z: int, k: nat)
    ensures And(z, Pow2(k)) == Bit(z, k) * Pow2(k)
    decreases k
  {
    if k == 0 {
      AndMask(z, 1);
      assert Pow2(1) == 2 && Pow2(0) == 1;
    } else {
      AndSingleBit(z / 2, k - 1);
      BitHalf(z, k - 1);
      assert Bit(z, k) * Pow2(k) == 2 * (Bit(z / 2, k - 1) * Pow2(k - 1));
    }
  }

  /** Or of a high part with a low part that does not reach it is addition. */
  lemma {:induction false} OrDisjoint(h: nat, low: nat, k: nat)
    requires low < Pow2(k)
    ensures Or(h * Pow2(k), low) == h * Pow2(k) + low
    decreases k
  {
    if k == 0 {
      OrZero(h);
    } else {
      var top := h * Pow2(k);
      assert top == 2 * (h * Pow2(k - 1));
      OrDisjoint(h, low / 2, k - 1);
    }
  }

  lemma {:induction false} OrZero(z: int)
    ensures Or(z, 0) == z
    decreases Magnitude(z)
  {
    if Magnitude(z) > 0 { OrZero(z / 2); }
  }

  lemma {:induction false} OrCommutes(a: int, b: int)
    ensures Or(a, b) == Or(b, a)
    decreases Magnitude(a) + Magnitude(b)
  {
    if !(Magnitude(a) == 0 == Magnitude(b)) { OrCommutes(a / 2, b / 2); }
  }
}
