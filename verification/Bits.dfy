/** Powers of two and the bitwise or of numbers. */
module Bits {

  /** C's | on unsigned numbers. */
  function BitOr(a: nat, b: nat): nat
    decreases a + b
  {
    if a == 0 && b == 0 then 0
    else 2 * BitOr(a / 2, b / 2) + if a % 2 == 1 || b % 2 == 1 then 1 else 0
  }

  function Pow2(k: nat): (p: nat)
    ensures p > 0
  {
    if k == 0 then 1 else 2 * Pow2(k - 1)
  }

  lemma {:induction false} OrZero(a: nat)
    ensures BitOr(a, 0) == a
  {
    if a > 0 {
      OrZero(a / 2);
    }
  }

  /** A multiple of 2^k and a number below 2^k have no bit in common. */
  lemma {:induction false} OrIsSum(q: nat, b: nat, k: nat)
    requires b < Pow2(k)
    ensures BitOr(q * Pow2(k), b) == q * Pow2(k) + b
    decreases k
  {
    if k == 0 {
      OrZero(q);
    } else {
      var p := Pow2(k - 1);
      var a := q * Pow2(k);
      assert a == 2 * (q * p);
      OrIsSum(q, b / 2, k - 1);
      if a + b > 0 {
        assert BitOr(a, b) == 2 * BitOr(q * p, b / 2) + b % 2;
      }
    }
  }

  lemma {:induction false} Pow2Sum(a: nat, b: nat)
    ensures Pow2(a + b) == Pow2(a) * Pow2(b)
    decreases b
  {
    if b > 0 {
      Pow2Sum(a, b - 1);
    }
  }

  lemma {:induction false} Pow2Mono(a: nat, b: nat)
    requires a <= b
    ensures Pow2(a) <= Pow2(b)
    decreases b - a
  {
    if a < b {
      Pow2Mono(a + 1, b);
    }
  }
}
