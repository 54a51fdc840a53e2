/** Integer facts shared by the layout arithmetic and the id allocators,
    and the arithmetic of the unsigned id type `IDTy`: `bound` is the
    number of values of IDTy, and `++` wraps from the largest value to 0. */
module Arith {

  /** 2^16, the number of values of uint16_t, the default IDTy. */
  const Uint16Bound: nat := 0x1_0000

  /** 2^32, the number of values of a 32-bit `unsigned`. */
  const Uint32Bound: nat := 0x1_0000_0000

  /** The sign facts about k * a that the proofs need. */
  lemma MulSign(k: int, a: int)
    requires a > 0
    ensures k >= 1 ==> k * a >= a
    ensures k <= -1 ==> k * a <= -a
  {
  }

  /** Quotient and remainder are unique: x == k * b + m with 0 <= m < b
      forces x / b == k and x % b == m. */
  lemma ModUnique(x: int, k: int, m: int, b: int)
    requires b > 0 && x == k * b + m && 0 <= m < b
    ensures x / b == k && x % b == m
  {
    var d := k - x / b;
    assert x == (x / b) * b + x % b;
    assert d * b == k * b - (x / b) * b;
    assert d * b == x % b - m;
    MulSign(d, b);
  }

  /** `x++` on IDTy. */
  function Inc(x: nat, bound: nat): (r: nat)
    requires x < bound
    ensures r < bound
  {
    if x + 1 == bound then 0 else x + 1
  }

  /** Inc is addition of one modulo the number of values. */
  lemma IncIsModular(x: nat, bound: nat)
    requires x < bound
    ensures Inc(x, bound) == (x + 1) % bound
  {
    if x + 1 == bound {
      ModUnique(bound, 1, 0, bound);
    } else {
      ModUnique(x + 1, 0, x + 1, bound);
    }
  }

  /** The value left by n increments of x. */
  function Advance(x: nat, n: nat, bound: nat): (r: nat)
    requires x < bound
    ensures r < bound
  {
    if n == 0 then x else Inc(Advance(x, n - 1, bound), bound)
  }

  /** Without wrap-around, n increments add n. */
  lemma {:induction false} AdvanceNoWrap(x: nat, n: nat, bound: nat)
    requires x + n < bound
    ensures Advance(x, n, bound) == x + n
  {
    if n > 0 {
      AdvanceNoWrap(x, n - 1, bound);
    }
  }

  /** n increments in IDTy are n added modulo the number of values. */
  lemma {:induction false} AdvanceIsModular(x: nat, n: nat, bound: nat)
    requires x < bound
    ensures Advance(x, n, bound) == (x + n) % bound
  {
    if n == 0 {
      ModUnique(x, 0, x, bound);
    } else {
      AdvanceIsModular(x, n - 1, bound);
      IncIsModular(Advance(x, n - 1, bound), bound);
      ModStep(x + n - 1, bound);
    }
  }

  /** ((v % b) + 1) % b == (v + 1) % b. */
  lemma ModStep(v: nat, b: nat)
    requires b > 0
    ensures ((v % b) + 1) % b == (v + 1) % b
  {
    var q, m := v / b, v % b;
    assert v == q * b + m;
    if m + 1 < b {
      ModUnique(v + 1, q, m + 1, b);
      ModUnique(m + 1, 0, m + 1, b);
    } else {
      assert v + 1 == (q + 1) * b + 0;
      ModUnique(v + 1, q + 1, 0, b);
      ModUnique(m + 1, 1, 0, b);
    }
  }
}
