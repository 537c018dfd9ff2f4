/** Bitwise operations on natural numbers, and what they mean for a position in a binary tree. */
module Bits {

  function Pow2(n: nat): (r: nat)
    ensures r > 0
  {
    if n == 0 then 1 else 2 * Pow2(n - 1)
  }

  /** Exclusive or, bit by bit. */
  function Xor(a: nat, b: nat): (r: nat)
    decreases a + b
  {
    if a == 0 && b == 0 then 0 else 2 * Xor(a / 2, b / 2) + (a % 2 + b % 2) % 2
  }

  /** Conjunction, bit by bit. */
  function And(a: nat, b: nat): (r: nat) {
    if a == 0 || b == 0 then 0 else 2 * And(a / 2, b / 2) + (a % 2) * (b % 2)
  }

  function ShiftRight(x: nat, k: nat): (r: nat) {
    if k == 0 then x else ShiftRight(x, k - 1) / 2
  }

  lemma {:induction false} XorZero(x: nat)
    ensures Xor(x, 0) == x
  {
    if x == 0 {
    } else {
      XorZero(x / 2);
    }
  }

  /** The other child of the parent of `x`. */
  function Sibling(x: nat): (r: nat)
    ensures r != x && r / 2 == x / 2
  {
    if x % 2 == 0 then x + 1 else x - 1
  }

  /** `x ^ 1` is the sibling of `x`. */
  lemma XorOne(x: nat)
    ensures Xor(x, 1) == Sibling(x)
  {
    XorZero(x / 2);
  }

  /** `x & 1` is the low bit. */
  lemma AndOne(x: nat)
    ensures And(x, 1) == x % 2
  {
  }

  lemma ShiftOne(x: nat)
    ensures ShiftRight(x, 1) == x / 2
  {
    assert ShiftRight(x, 0) == x;
  }

  /** Shifting commutes: one more step at the bottom or at the top. */
  lemma {:induction false} ShiftHalf(x: nat, k: nat)
    ensures ShiftRight(x / 2, k) == ShiftRight(x, k + 1)
  {
    if k == 0 {
    } else {
      ShiftHalf(x, k - 1);
    }
  }

  /** A block of `2p` is two adjacent blocks of `p`. */
  lemma Halves(q: nat, p: nat)
    ensures (2 * q) * p == q * (2 * p)
    ensures (2 * q + 1) * p == q * (2 * p) + p
    ensures (2 * q + 2) * p == (q + 1) * (2 * p)
  {
  }

  /** The positions whose ancestor `k` levels up is `q` are exactly a block of `2^k`. */
  lemma {:induction false} ShiftBlock(x: nat, k: nat, q: nat)
    ensures ShiftRight(x, k) == q <==> q * Pow2(k) <= x < (q + 1) * Pow2(k)
  {
    if k == 0 {
    } else {
      ShiftBlock(x, k - 1, 2 * q);
      ShiftBlock(x, k - 1, 2 * q + 1);
      Halves(q, Pow2(k - 1));
    }
  }
}
