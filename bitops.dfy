/** Bitwise operations on Python's unbounded non-negative integers, defined
    digit by digit in base 2: `int.bit_length`, `|`, `&` and `>>`. */
module BitOps {
  import opened ModArith

  /** Python's `x.bit_length()` for x >= 0: the number of binary digits. */
  function BitLength(x: nat): (len: nat)
    ensures x < Pow2(len)
    ensures x == 0 <==> len == 0
    ensures x >= 1 ==> Pow2(len - 1) <= x
  {
    if x == 0 then 0 else 1 + BitLength(x / 2)
  }

  /** The bit length is the only L with 2^(L-1) <= x < 2^L. */
  lemma {:induction false} BitLengthUnique(x: nat, len: nat)
    requires len >= 1 && Pow2(len - 1) <= x < Pow2(len)
    ensures BitLength(x) == len
  {
    if len > 1 {
      BitLengthUnique(x / 2, len - 1);
    }
  }

  /** Bit i of x (bit 0 is the least significant). */
  predicate Bit(x: nat, i: nat)
  {
    if i == 0 then x % 2 == 1 else Bit(x / 2, i - 1)
  }

  /** Python's `a | b`. */
  function Or(a: nat, b: nat): nat
    decreases a + b
  {
    if a == 0 && b == 0 then 0
    else 2 * Or(a / 2, b / 2) + (if a % 2 == 1 || b % 2 == 1 then 1 else 0)
  }

  /** Python's `a & b`. */
  function And(a: nat, b: nat): nat
    decreases a + b
  {
    if a == 0 && b == 0 then 0
    else 2 * And(a / 2, b / 2) + (if a % 2 == 1 && b % 2 == 1 then 1 else 0)
  }

  /** Python's `x >> s`. */
  function ShiftRight(x: nat, s: nat): nat
  {
    if s == 0 then x else ShiftRight(x / 2, s - 1)
  }

  // ---------------------------------------------------------------------
  // Bits of the operations

  lemma {:induction false} BitOfOr(a: nat, b: nat, i: nat)
    ensures Bit(Or(a, b), i) == (Bit(a, i) || Bit(b, i))
    decreases i
  {
    if i > 0 {
      if a == 0 && b == 0 {
        BitOfZero(i);
        BitOfZero(i - 1);
      } else {
        BitOfOr(a / 2, b / 2, i - 1);
      }
    }
  }

  lemma {:induction false} BitOfAnd(a: nat, b: nat, i: nat)
    ensures Bit(And(a, b), i) == (Bit(a, i) && Bit(b, i))
    decreases i
  {
    if i > 0 {
      if a == 0 && b == 0 {
        BitOfZero(i);
        BitOfZero(i - 1);
      } else {
        BitOfAnd(a / 2, b / 2, i - 1);
      }
    }
  }

  lemma {:induction false} BitOfShift(x: nat, s: nat, i: nat)
    ensures Bit(ShiftRight(x, s), i) == Bit(x, i + s)
    decreases s
  {
    if s > 0 {
      BitOfShift(x / 2, s - 1, i);
    }
  }

  lemma {:induction false} BitOfZero(i: nat)
    ensures !Bit(0, i)
  {
    if i > 0 {
      BitOfZero(i - 1);
    }
  }

  lemma {:induction false} BitOfPow2(j: nat, i: nat)
    ensures Bit(Pow2(j), i) == (i == j)
    decreases i
  {
    if i == 0 {
      if j > 0 {
        assert Pow2(j) == 2 * Pow2(j - 1);
      }
    } else if j == 0 {
      BitOfZero(i - 1);
    } else {
      assert Pow2(j) / 2 == Pow2(j - 1);
      BitOfPow2(j - 1, i - 1);
    }
  }

  lemma {:induction false} BitOfAllOnes(len: nat, i: nat)
    ensures Bit(Pow2(len) - 1, i) == (i < len)
    decreases i
  {
    if len == 0 {
      BitOfZero(i);
    } else if i > 0 {
      assert (Pow2(len) - 1) / 2 == Pow2(len - 1) - 1;
      BitOfAllOnes(len - 1, i - 1);
    }
  }

  /** Two numbers with the same bits are equal. */
  lemma {:induction false} BitsDetermine(x: nat, y: nat)
    requires forall i: nat :: Bit(x, i) == Bit(y, i)
    ensures x == y
    decreases x + y
  {
    assert Bit(x, 0) == Bit(y, 0);
    if x != 0 || y != 0 {
      forall i: nat
        ensures Bit(x / 2, i) == Bit(y / 2, i)
      {
        assert Bit(x, i + 1) == Bit(y, i + 1);
      }
      BitsDetermine(x / 2, y / 2);
    }
  }

  /** A number whose set bits are exactly those below len is 2^len - 1. */
  lemma AllOnesByBits(x: nat, len: nat)
    requires forall i: nat :: Bit(x, i) == (i < len)
    ensures x == Pow2(len) - 1
  {
    forall i: nat ensures Bit(x, i) == Bit(Pow2(len) - 1, i) {
      BitOfAllOnes(len, i);
    }
    BitsDetermine(x, Pow2(len) - 1);
  }

  /** A number below 2^len has no bit at len or above. */
  lemma {:induction false} NoBitAbove(x: nat, len: nat, i: nat)
    requires x < Pow2(len) && i >= len
    ensures !Bit(x, i)
    decreases len
  {
    if len == 0 {
      BitOfZero(i);
    } else {
      NoBitAbove(x / 2, len - 1, i - 1);
    }
  }

  /** A number with no bit at len or above is below 2^len. */
  lemma {:induction false} BelowFromBits(x: nat, len: nat)
    requires forall i: nat :: i >= len ==> !Bit(x, i)
    ensures x < Pow2(len)
    decreases len
  {
    if len == 0 {
      forall i: nat ensures Bit(x, i) == Bit(0, i) {
        BitOfZero(i);
      }
      BitsDetermine(x, 0);
    } else {
      forall i: nat | i >= len - 1 ensures !Bit(x / 2, i) {
        assert !Bit(x, i + 1);
      }
      BelowFromBits(x / 2, len - 1);
    }
  }

  /** The top bit of an L-bit number is set. */
  lemma {:induction false} TopBit(x: nat)
    requires x >= 1
    ensures Bit(x, BitLength(x) - 1)
  {
    if x >= 2 {
      TopBit(x / 2);
    }
  }

  /** a & b keeps only bits of b, so it is at most b. */
  lemma AndAtMost(a: nat, b: nat)
    ensures And(a, b) <= b
  {
    forall i: nat ensures Bit(And(a, b), i) ==> Bit(b, i) {
      BitOfAnd(a, b, i);
    }
    SubsetBitsAtMost(And(a, b), b);
  }

  /** A number whose bits are among the bits of y is at most y. */
  lemma {:induction false} SubsetBitsAtMost(x: nat, y: nat)
    requires forall i: nat :: Bit(x, i) ==> Bit(y, i)
    ensures x <= y
    decreases x + y
  {
    if x != 0 {
      forall i: nat ensures Bit(x / 2, i) ==> Bit(y / 2, i) {
        assert Bit(x, i + 1) ==> Bit(y, i + 1);
      }
      if y == 0 {
        forall i: nat ensures Bit(x, i) == Bit(0, i) {
          BitOfZero(i);
        }
        BitsDetermine(x, 0);
      } else {
        SubsetBitsAtMost(x / 2, y / 2);
        assert Bit(x, 0) ==> Bit(y, 0);
      }
    }
  }
}
