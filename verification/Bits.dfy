/** The machine operations of the Merkle code (shift, xor, bit length, population
    count, trailing zeros), stated on natural numbers by repeated halving. */
module Bits {

  function Pow2(n: nat): (p: nat)
    ensures p >= 1
  {
    if n == 0 then 1 else 2 * Pow2(n - 1)
  }

  /** `n >> i`. */
  function Shr(n: nat, i: nat): nat
    decreases i
  {
    if i == 0 then n else Shr(n / 2, i - 1)
  }

  /** `64 - n.leading_zeros()`. */
  function BitLen(n: nat): nat {
    if n == 0 then 0 else 1 + BitLen(n / 2)
  }

  /** `n.count_ones()`. */
  function PopCount(n: nat): nat {
    if n == 0 then 0 else n % 2 + PopCount(n / 2)
  }

  /** `n.trailing_zeros()`, which the callers use on positive numbers only. */
  function TrailingZeros(n: nat): nat
    requires n > 0
  {
    if n % 2 == 1 then 0 else 1 + TrailingZeros(n / 2)
  }

  /** `a ^ b`. */
  function Xor(a: nat, b: nat): nat
    decreases a + b
  {
    if a == 0 && b == 0 then 0
    else 2 * Xor(a / 2, b / 2) + (if a % 2 == b % 2 then 0 else 1)
  }

  /** `n.is_power_of_two()`. */
  predicate IsPow2(n: nat) {
    if n == 0 then false else n == 1 || (n % 2 == 0 && IsPow2(n / 2))
  }

  /** The least `c` with `n <= 2^c`. */
  function CeilLog2(n: nat): nat {
    if n <= 1 then 0 else 1 + CeilLog2((n + 1) / 2)
  }

  lemma Doubled(q: nat, p: nat)
    ensures q * (2 * p) == 2 * (q * p)
  {
  }

  /** Shifting a multiple of `2^i` recovers the factor. */
  lemma {:induction false} ShrOfMultiple(q: nat, i: nat)
    ensures Shr(q * Pow2(i), i) == q
  {
    if i > 0 {
      Doubled(q, Pow2(i - 1));
      ShrOfMultiple(q, i - 1);
    }
  }

  lemma {:induction false} ShrStep(n: nat, i: nat)
    ensures Shr(n, i + 1) == Shr(n, i) / 2
  {
    if i > 0 {
      ShrStep(n / 2, i - 1);
    }
  }

  /** Xor vanishes exactly on equal numbers. */
  lemma {:induction false} XorZero(a: nat, b: nat)
    ensures Xor(a, b) == 0 <==> a == b
    decreases a + b
  {
    if a != 0 || b != 0 {
      XorZero(a / 2, b / 2);
    }
  }

  lemma XorHalf(a: nat, b: nat)
    ensures Xor(a, b) / 2 == Xor(a / 2, b / 2)
  {
  }

  /** A power of two is exactly a `Pow2` of its number of trailing zeros. */
  lemma {:induction false} IsPow2Trailing(n: nat)
    requires n > 0
    ensures IsPow2(n) <==> n == Pow2(TrailingZeros(n))
  {
    if n % 2 == 0 {
      IsPow2Trailing(n / 2);
    } else if n > 1 {
      assert Pow2(TrailingZeros(n)) == 1;
    }
  }
}
