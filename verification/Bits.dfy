/** Bitwise or on unbounded words, and the one fact about it that packing
    needs. */
module Bits {
  import opened Words

  function Or(a: nat, b: nat): nat {
    if a == 0 then b
    else if b == 0 then a
    else 2 * Or(a / 2, b / 2) + if a % 2 == 1 || b % 2 == 1 then 1 else 0
  }

  /** Or-ing a value into zero bits adds it. */
  lemma {:induction false} OrFills(a: nat, k: nat, b: nat)
    requires b < Pow2(k)
    ensures Or(a * Pow2(k), b) == a * Pow2(k) + b
  {
    if k == 0 || b == 0 {
      assert b == 0;
    } else if a == 0 {
    } else {
      assert a * Pow2(k) == 2 * (a * Pow2(k - 1));
      OrFills(a, k - 1, b / 2);
    }
  }

  lemma OrField(a: nat, k: nat, p: nat, b: nat)
    requires Pow2(k) == p && b < p
    ensures Or(a * p, b) == a * p + b
  {
    OrFills(a, k, b);
  }
}
