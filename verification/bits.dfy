/**
  Shifting numbers by bits, as doubling and halving.
*/
module Bits {
  import opened Arith
  import opened RoundUp

  function Shl(v: nat, k: nat): nat
    decreases k
  {
    if k == 0 then v else 2 * Shl(v, k - 1)
  }

  lemma {:induction false} ShlIs(v: nat, k: nat)
    ensures Shl(v, k) == v * Pow2(k)
    decreases k
  {
    if k > 0 {
      ShlIs(v, k - 1);
      assert v * Pow2(k) == 2 * (v * Pow2(k - 1));
    }
  }

  lemma {:induction false} ShlDoubled(v: nat, k: nat)
    ensures Shl(2 * v, k) == 2 * Shl(v, k) == Shl(v, k + 1)
    decreases k
  {
    if k > 0 {
      ShlDoubled(v, k - 1);
    }
  }

  lemma {:induction false} ShlTwice(v: nat, a: nat, b: nat)
    ensures Shl(Shl(v, a), b) == Shl(v, a + b)
    decreases b
  {
    if b > 0 {
      ShlTwice(v, a, b - 1);
    }
  }

  lemma {:induction false} ShlAdd(u: nat, v: nat, k: nat)
    ensures Shl(u + v, k) == Shl(u, k) + Shl(v, k)
    decreases k
  {
    if k > 0 {
      ShlAdd(u, v, k - 1);
    }
  }

  lemma {:induction false} ShlOne(k: nat)
    ensures Shl(1, k) == Pow2(k) && Shl(0, k) == 0
    decreases k
  {
    if k > 0 {
      ShlOne(k - 1);
    }
  }

  lemma {:induction false} ShlMonotone(u: nat, v: nat, k: nat)
    ensures u <= v ==> Shl(u, k) <= Shl(v, k)
    ensures u < v ==> Shl(u, k) + Pow2(k) <= Shl(v, k)
    decreases k
  {
    if k > 0 {
      ShlMonotone(u, v, k - 1);
    }
  }

  /** Shifting right drops the low bits. */
  lemma {:induction false} ShrOf(q: nat, r: nat, k: nat)
    requires r < Pow2(k)
    ensures Shr(Shl(q, k) + r, k) == q
    decreases k
  {
    if k > 0 {
      assert (Shl(q, k) + r) / 2 == Shl(q, k - 1) + r / 2;
      ShrOf(q, r / 2, k - 1);
    }
  }

  lemma {:induction false} ShrSplit(v: nat, k: nat) returns (r: nat)
    ensures v == Shl(Shr(v, k), k) + r && r < Pow2(k)
    decreases k
  {
    if k == 0 {
      r := 0;
    } else {
      var s := ShrSplit(v / 2, k - 1);
      r := 2 * s + v % 2;
    }
  }

  /** A number with disjoint bits is added by or. */
  lemma {:induction false} OrDisjoint(a: nat, b: nat, k: nat)
    requires b < Pow2(k)
    ensures Or(Shl(a, k), b) == Shl(a, k) + b
    decreases k
  {
    if k == 0 {
      OrZero(a);
    } else {
      OrDisjoint(a, b / 2, k - 1);
      assert Shl(a, k) / 2 == Shl(a, k - 1) && Shl(a, k) % 2 == 0;
    }
  }

  // ---------- Length and trailing zeros ----------

  /** v needs exactly n bits. */
  predicate HasBits(v: nat, n: nat) {
    if v == 0 then n == 0 else n > 0 && Pow2(n - 1) <= v < Pow2(n)
  }

  /** v is an odd number shifted left by k. */
  predicate TrailingZeros(v: nat, k: nat) {
    v == Shl(Shr(v, k), k) && Shr(v, k) % 2 == 1
  }
}
