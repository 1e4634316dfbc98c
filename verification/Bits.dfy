/** The 64-bit word operations the accumulator uses, defined bit by bit on natural numbers. */
module Bits {

  const U64_MAX: nat := 0xFFFF_FFFF_FFFF_FFFF

  type u64 = x: nat | x <= U64_MAX

  function Pow2(n: nat): (r: nat)
    ensures r > 0
  {
    if n == 0 then 1 else 2 * Pow2(n - 1)
  }

  function Xor(a: nat, b: nat): nat
  {
    if a == 0 && b == 0 then 0
    else 2 * Xor(a / 2, b / 2) + if a % 2 != b % 2 then 1 else 0
  }

  function And(a: nat, b: nat): nat
  {
    if a == 0 || b == 0 then 0
    else 2 * And(a / 2, b / 2) + if a % 2 == 1 && b % 2 == 1 then 1 else 0
  }

  function Shr(a: nat, k: nat): nat
    decreases k
  {
    if k == 0 then a else Shr(a / 2, k - 1)
  }

  function CountOnes(a: nat): nat
  {
    if a == 0 then 0 else CountOnes(a / 2) + a % 2
  }

  /** Number of significant bits; the position of the highest set bit is one less. */
  function BitLength(a: nat): nat
  {
    if a == 0 then 0 else 1 + BitLength(a / 2)
  }

  lemma {:induction false} BitLengthBounds(a: nat)
    ensures a < Pow2(BitLength(a))
    ensures a > 0 ==> BitLength(a) > 0 && Pow2(BitLength(a) - 1) <= a
  {
    if a <= 1 {
    } else {
      BitLengthBounds(a / 2);
    }
  }

  lemma {:induction false} Pow2Monotone(a: nat, b: nat)
    requires a <= b
    ensures Pow2(a) <= Pow2(b)
    decreases b
  {
    if a == b {
    } else {
      Pow2Monotone(a, b - 1);
    }
  }

  lemma {:induction false} Pow2Add(a: nat, b: nat)
    ensures Pow2(a + b) == Pow2(a) * Pow2(b)
  {
    if a == 0 {
    } else {
      Pow2Add(a - 1, b);
      assert Pow2(a + b) == 2 * Pow2(a - 1 + b);
    }
  }

  lemma Pow2Of64()
    ensures Pow2(64) == U64_MAX + 1
  {
    Pow2Add(8, 8);
    assert Pow2(8) == 0x100 && Pow2(16) == 0x1_0000;
    Pow2Add(16, 16);
    assert Pow2(32) == 0x1_0000_0000;
    Pow2Add(32, 32);
  }

  lemma BitLengthOfU64(a: u64)
    ensures BitLength(a) <= 64
  {
    Pow2Of64();
    BitLengthBounds(a);
    if BitLength(a) > 64 {
      Pow2Monotone(64, BitLength(a) - 1);
    }
  }

  function LeadingZeros(a: u64): nat
  {
    BitLengthOfU64(a);
    64 - BitLength(a)
  }

  function Not(a: u64): u64
  {
    U64_MAX - a
  }

  /** Trailing zeros of a 64-bit word; all 64 when the word is zero. */
  function TrailingZeros(a: u64): nat
  {
    if a == 0 then 64 else if a % 2 == 1 then 0 else 1 + TrailingZeros(a / 2)
  }

  /** Length of the run of one-bits at the low end. */
  function TrailingOnes(a: nat): nat
  {
    if a % 2 == 0 then 0 else 1 + TrailingOnes(a / 2)
  }

  /** Counting the trailing zeros of the complement counts the trailing ones of the word. */
  lemma TrailingZerosOfNot(a: u64)
    ensures TrailingZeros(Not(a)) == TrailingOnes(a)
  {
    Pow2Of64();
    if a == U64_MAX {
      TrailingOnesOfMask(64);
      assert Not(a) == 0;
    } else {
      assert Not(a) == Pow2(64) - 1 - a;
      TrailingZerosOfComplement(a, 64);
    }
  }

  lemma {:induction false} TrailingZerosOfComplement(a: u64, width: nat)
    requires width <= 64 && Pow2(width) <= U64_MAX + 1
    requires a < Pow2(width) - 1
    ensures TrailingZeros(Pow2(width) - 1 - a) == TrailingOnes(a)
  {
    if a % 2 == 0 {
    } else {
      assert (Pow2(width) - 1 - a) / 2 == Pow2(width - 1) - 1 - a / 2;
      TrailingZerosOfComplement(a / 2, width - 1);
    }
  }

  lemma {:induction false} TrailingOnesOfMask(width: nat)
    ensures TrailingOnes(Pow2(width) - 1) == width
  {
    if width == 0 {
    } else {
      TrailingOnesOfMask(width - 1);
      assert (Pow2(width) - 1) / 2 == Pow2(width - 1) - 1;
    }
  }

  lemma {:induction false} XorSelf(a: nat)
    ensures Xor(a, a) == 0
  {
    if a == 0 {
    } else {
      XorSelf(a / 2);
    }
  }

  lemma {:induction false} XorDistinct(a: nat, b: nat)
    ensures a != b ==> Xor(a, b) > 0
  {
    if a == b || a % 2 != b % 2 {
    } else {
      XorDistinct(a / 2, b / 2);
    }
  }

  lemma {:induction false} XorBound(a: nat, b: nat, width: nat)
    requires a < Pow2(width) && b < Pow2(width)
    ensures Xor(a, b) < Pow2(width)
  {
    if a == 0 && b == 0 {
    } else {
      XorBound(a / 2, b / 2, width - 1);
    }
  }

  lemma {:induction false} ShrZero(k: nat)
    ensures Shr(0, k) == 0
  {
    if k == 0 {
    } else {
      ShrZero(k - 1);
    }
  }
}
