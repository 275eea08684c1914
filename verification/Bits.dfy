/** Machine words as natural numbers: masks, shifts, disjunction and the wrap-around of C's fixed-width types. */
module Bits {

  const U8 := 0x100
  const U32 := 0x1_0000_0000
  const U64 := 0x1_0000_0000_0000_0000

  /** The all-ones word the client uses for "no value" (TP_NULL_U64). */
  const NULL_U64 := U64 - 1

  type u64 = x: int | 0 <= x < U64

  type i32 = x: int | -0x8000_0000 <= x < 0x8000_0000

  function Pow2(k: nat): (p: nat)
    ensures p >= 1
  {
    if k == 0 then 1 else 2 * Pow2(k - 1)
  }

  /** Bitwise conjunction, bit by bit from the low end. */
  function And(a: nat, b: nat): (r: nat)
    ensures r <= a && r <= b
  {
    if a == 0 || b == 0 then 0
    else (if a % 2 == 1 && b % 2 == 1 then 1 else 0) + 2 * And(a / 2, b / 2)
  }

  /** Bitwise disjunction, bit by bit from the low end. */
  function Or(a: nat, b: nat): nat {
    if a == 0 then b
    else if b == 0 then a
    else (if a % 2 == 1 || b % 2 == 1 then 1 else 0) + 2 * Or(a / 2, b / 2)
  }

  /** The client's power-of-two test: nonzero and no bit in common with the predecessor. */
  predicate IsPowerOfTwo(value: nat) {
    value != 0 && And(value, value - 1) == 0
  }

  function Sub64(a: u64, b: u64): u64 { (a - b) % U64 }

  function Add64(a: u64, b: u64): u64 { (a + b) % U64 }

  /** The value of a 64-bit pattern read as two's complement. */
  function Int64(x: int): int {
    var m := x % U64;
    if m < U64 / 2 then m else m - U64
  }

  /** The value of a 32-bit pattern read as two's complement. */
  function Int32(x: int): i32 {
    var m := x % U32;
    if m < U32 / 2 then m else m - U32
  }

  lemma InRange(x: int, m: int)
    requires 0 <= x < m
    ensures x % m == x
  {
    DivModUnique(x, m, 0, x);
  }

  lemma Int32Of(x: i32)
    ensures Int32(x) == x
  {
    if x >= 0 { InRange(x, U32); } else { DivModUnique(x, U32, -1, x + U32); }
  }

  lemma {:induction false} Pow2Add(j: nat, k: nat)
    ensures Pow2(j + k) == Pow2(j) * Pow2(k)
  {
    if j != 0 {
      Pow2Add(j - 1, k);
    }
  }

  lemma SmallPowers()
    ensures Pow2(22) == 4194304
  {
    assert Pow2(6) == 64;
    assert Pow2(11) == 32 * Pow2(6);
    Pow2Add(11, 11);
  }

  lemma {:induction false} Pow2Monotone(j: nat, k: nat)
    requires j <= k
    ensures Pow2(j) <= Pow2(k)
  {
    if j < k {
      Pow2Monotone(j, k - 1);
    }
  }

  lemma MulStep(m: int, a: int, b: int)
    requires m > 0 && a < b
    ensures m * a + m <= m * b
  {
    var d := b - a;
    assert m * b == m * a + m * d;
    assert m * d == m + m * (d - 1);
    assert m * (d - 1) >= 0;
  }

  /** Quotient and remainder are determined by the division equation. */
  lemma DivModUnique(x: int, m: int, q: int, r: int)
    requires m > 0 && 0 <= r < m && x == m * q + r
    ensures x / m == q && x % m == r
  {
    var q', r' := x / m, x % m;
    assert x == m * q' + r';
    if q' < q {
      MulStep(m, q', q);
    } else if q < q' {
      MulStep(m, q, q');
    }
  }

  lemma ResidueShift(x: nat, m: nat)
    requires m > 0
    ensures (x + m) % m == x % m
  {
    DivModUnique(x + m, m, x / m + 1, x % m);
  }

  lemma ResidueGap(x: nat, y: nat, m: nat)
    requires m > 0 && x % m == y % m && x < y
    ensures y >= x + m
  {
    if x / m < y / m { MulStep(m, x / m, y / m); }
    else if y / m < x / m { MulStep(m, y / m, x / m); }
  }

  lemma ResidueNext(x: nat, m: nat)
    requires m >= 2
    ensures (x + 1) % m != x % m
  {
    if (x + 1) % m == x % m { ResidueGap(x, x + 1, m); }
  }

  /** Masking with 2^k - 1 is the residue modulo 2^k. */
  lemma MaskIsResidue(x: nat, k: nat)
    ensures And(x, Pow2(k) - 1) == x % Pow2(k)
  {
    ShiftSplit(x, k);
    ShlIsProduct(Shr(x, k), k);
    DivModUnique(x, Pow2(k), Shr(x, k), And(x, Pow2(k) - 1));
  }

  lemma {:induction false} ShlIsProduct(a: nat, k: nat)
    ensures Shl(a, k) == Pow2(k) * a
  {
    if k != 0 {
      ShlIsProduct(a, k - 1);
      assert 2 * Pow2(k - 1) * a == 2 * (Pow2(k - 1) * a);
    }
  }

  ghost predicate PowerOfTwo(value: nat) {
    exists k: nat :: value == Pow2(k)
  }

  lemma PowerOfTwoIs(k: nat)
    ensures PowerOfTwo(Pow2(k))
  {
  }

  lemma Pow2Halves(k: nat)
    ensures k > 0 ==> Pow2(k) % 2 == 0 && Pow2(k) / 2 == Pow2(k - 1)
    ensures k == 0 ==> Pow2(k) == 1
  {
  }

  /** An odd number above one is no power of two, and meets its predecessor in every bit but the lowest. */
  lemma OddMeetsPredecessor(value: nat)
    requires value % 2 == 1 && value > 1
    ensures And(value, value - 1) != 0 && !PowerOfTwo(value)
  {
    AndHalves(value, value - 1);
    AndSelf(value / 2);
    forall k: nat
      ensures value != Pow2(k)
    {
      Pow2Halves(k);
    }
  }

  /** An even number is a power of two exactly when its half is. */
  lemma EvenPowerHalves(value: nat)
    requires value % 2 == 0 && value > 0
    ensures PowerOfTwo(value) <==> PowerOfTwo(value / 2)
  {
    if PowerOfTwo(value / 2) {
      var k: nat :| value / 2 == Pow2(k);
      PowerOfTwoIs(k + 1);
    }
    if PowerOfTwo(value) {
      var k: nat :| value == Pow2(k);
      Pow2Halves(k);
      PowerOfTwoIs(k - 1);
    }
  }

  /** The power-of-two test accepts exactly the powers of two. */
  lemma {:induction false} PowerOfTwoTest(value: nat)
    ensures IsPowerOfTwo(value) <==> PowerOfTwo(value)
  {
    if value == 1 {
      PowerOfTwoIs(0);
    } else if value % 2 == 1 {
      OddMeetsPredecessor(value);
    } else if value > 0 {
      AndHalves(value, value - 1);
      EvenPowerHalves(value);
      PowerOfTwoTest(value / 2);
    }
  }

  lemma {:induction false} AndSelf(a: nat)
    ensures And(a, a) == a
  {
    if a != 0 { AndSelf(a / 2); }
  }

  /** For a power-of-two ring the mask used as an index is the residue of the position. */
  lemma RingIndex(x: nat, n: nat)
    requires IsPowerOfTwo(n)
    ensures And(x, n - 1) == x % n
  {
    PowerOfTwoTest(n);
    var k: nat :| n == Pow2(k);
    MaskIsResidue(x, k);
  }

  /** Left shift without a width. */
  function Shl(a: nat, k: nat): nat {
    if k == 0 then a else 2 * Shl(a, k - 1)
  }

  /** Right shift. */
  function Shr(a: nat, k: nat): nat {
    if k == 0 then a else Shr(a / 2, k - 1)
  }

  lemma {:induction false} ShlAdd(a: nat, b: nat, k: nat)
    ensures Shl(a + b, k) == Shl(a, k) + Shl(b, k)
  {
    if k != 0 { ShlAdd(a, b, k - 1); }
  }

  lemma {:induction false} ShlTwice(a: nat, j: nat, k: nat)
    ensures Shl(Shl(a, j), k) == Shl(a, j + k)
  {
    if k != 0 { ShlTwice(a, j, k - 1); }
  }

  lemma {:induction false} ShlPow2(j: nat, k: nat)
    ensures Shl(Pow2(j), k) == Pow2(j + k)
  {
    if k != 0 { ShlPow2(j, k - 1); }
  }

  /** Shifting keeps order, with room for any low bits below the next value. */
  lemma {:induction false} ShlOrder(a: nat, b: nat, k: nat)
    requires a < b
    ensures Shl(a, k) + Pow2(k) <= Shl(b, k)
  {
    if k != 0 { ShlOrder(a, b, k - 1); }
  }

  lemma {:induction false} ShrTwice(a: nat, j: nat, k: nat)
    ensures Shr(Shr(a, j), k) == Shr(a, j + k)
  {
    if j != 0 { ShrTwice(a / 2, j - 1, k); }
  }

  lemma Halves(p: int, low: nat)
    ensures (2 * p + low) / 2 == p + low / 2 && (2 * p + low) % 2 == low % 2
  {
  }

  /** Right shift undoes left shift and drops the low bits. */
  lemma {:induction false} ShiftBack(a: nat, low: nat, k: nat)
    requires low < Pow2(k)
    ensures Shr(Shl(a, k) + low, k) == a
  {
    if k != 0 {
      Halves(Shl(a, k - 1), low);
      ShiftBack(a, low / 2, k - 1);
    }
  }

  /** The mask of k ones keeps exactly the low k bits. */
  lemma MaskLow(a: nat, low: nat, k: nat)
    requires low < Pow2(k)
    ensures And(Shl(a, k) + low, Pow2(k) - 1) == low
  {
    ShlIsProduct(a, k);
    MaskIsResidue(Shl(a, k) + low, k);
    DivModUnique(Shl(a, k) + low, Pow2(k), a, low);
  }

  lemma AndHalves(a: nat, b: nat)
    ensures And(a, b) == (if a % 2 == 1 && b % 2 == 1 then 1 else 0) + 2 * And(a / 2, b / 2)
  {
  }

  /** Every value is its high bits shifted back plus its low bits. */
  lemma {:induction false} ShiftSplit(x: nat, k: nat)
    ensures x == Shl(Shr(x, k), k) + And(x, Pow2(k) - 1) && And(x, Pow2(k) - 1) < Pow2(k)
  {
    if k != 0 {
      ShiftSplit(x / 2, k - 1);
      AndHalves(x, Pow2(k) - 1);
      assert (Pow2(k) - 1) / 2 == Pow2(k - 1) - 1;
    }
  }

  lemma OrHalves(a: nat, b: nat)
    ensures Or(a, b) == (if a % 2 == 1 || b % 2 == 1 then 1 else 0) + 2 * Or(a / 2, b / 2)
  {
  }

  /** Disjunction leaves the low k bits of one operand alone when the other has none there. */
  lemma {:induction false} OrShifted(a: nat, low: nat, b: nat, k: nat)
    requires low < Pow2(k)
    ensures Or(Shl(a, k) + low, Shl(b, k)) == Shl(Or(a, b), k) + low
  {
    if k == 0 {
      assert Pow2(0) == 1;
    } else {
      OrShifted(a, low / 2, b, k - 1);
      OrHalves(2 * Shl(a, k - 1) + low, 2 * Shl(b, k - 1));
    }
  }

  /** Disjunction with a value below the lowest set bit is addition. */
  lemma {:induction false} OrDisjoint(a: nat, b: nat, k: nat)
    requires b < Pow2(k)
    ensures Or(Shl(a, k), b) == Shl(a, k) + b
  {
    if k == 0 {
      assert Pow2(0) == 1;
    } else {
      OrDisjoint(a, b / 2, k - 1);
      OrHalves(2 * Shl(a, k - 1), b);
    }
  }
}
