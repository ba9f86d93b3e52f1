/**
  Bytes as Python's `bytes` sees them: integers in 0..255, and the
  bitwise exclusive-or operator `^` on non-negative integers.
*/
module Bytes {

  /** One element of a Python `bytes` object. */
  type byte = x: int | 0 <= x < 256

  /** 2 to the power n. */
  function Pow2(n: nat): (r: nat)
    ensures r >= 1
  {
    if n == 0 then 1 else 2 * Pow2(n - 1)
  }

  /**
    Python's `a ^ b` on non-negative integers, defined bit by bit from the
    least significant bit upwards.
  */
  function Xor(a: nat, b: nat): nat
    decreases a + b
  {
    if a == 0 && b == 0 then 0
    else 2 * Xor(a / 2, b / 2) + (if a % 2 == b % 2 then 0 else 1)
  }

  /**
    The bitwise reading of Xor: the lowest bit of the result is set exactly
    when the lowest bits differ, and the remaining bits are the exclusive-or
    of the remaining bits.
  */
  lemma {:induction false} XorBits(a: nat, b: nat)
    ensures Xor(a, b) % 2 == (if a % 2 == b % 2 then 0 else 1)
    ensures Xor(a, b) / 2 == Xor(a / 2, b / 2)
  {
  }

  /** Bit i of x, counting from the least significant bit as bit 0. */
  function Bit(x: nat, i: nat): (r: nat)
    ensures r < 2
  {
    if i == 0 then x % 2 else Bit(x / 2, i - 1)
  }

  /** Xor is Python's bitwise operator: bit i of the result is set exactly when bit i of the operands differ. */
  lemma {:induction false} XorBitAt(a: nat, b: nat, i: nat)
    ensures Bit(Xor(a, b), i) == (if Bit(a, i) == Bit(b, i) then 0 else 1)
  {
    XorBits(a, b);
    if i > 0 {
      XorBitAt(a / 2, b / 2, i - 1);
    }
  }

  /** Exclusive-or of two numbers below 2^n stays below 2^n. */
  lemma {:induction false} XorBelow(a: nat, b: nat, n: nat)
    requires a < Pow2(n) && b < Pow2(n)
    ensures Xor(a, b) < Pow2(n)
  {
    if a != 0 || b != 0 {
      XorBelow(a / 2, b / 2, n - 1);
    }
  }

  /** The exclusive-or of two bytes is a byte. */
  lemma XorIsByte(a: byte, b: byte)
    ensures Xor(a, b) < 256
  {
    assert Pow2(8) == 256;
    XorBelow(a, b, 8);
  }

  /** Exclusive-or is commutative. */
  lemma {:induction false} XorCommutes(a: nat, b: nat)
    ensures Xor(a, b) == Xor(b, a)
    decreases a + b
  {
    if a != 0 || b != 0 {
      XorCommutes(a / 2, b / 2);
    }
  }

  /** Exclusive-or with the same operand twice restores the original value. */
  lemma {:induction false} XorSelfInverse(a: nat, k: nat)
    ensures Xor(Xor(a, k), k) == a
    decreases a + k
  {
    if a != 0 || k != 0 {
      var x := Xor(a, k);
      XorBits(a, k);
      XorBits(x, k);
      XorSelfInverse(a / 2, k / 2);
    }
  }

  /**
    Exclusive-or of a value with the result recovers the other operand:
    knowing one plaintext byte and its ciphertext byte reveals the key byte.
  */
  lemma XorRecoversOperand(a: nat, k: nat)
    ensures Xor(Xor(a, k), a) == k
  {
    XorCommutes(a, k);
    XorSelfInverse(k, a);
  }
}
