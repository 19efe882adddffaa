/**
  Facts about quotients, remainders and powers that the word arithmetic of the
  runtime library needs.
*/
module Arith {

  lemma {:induction false} MulMonotone(a: nat, x: int, y: int)
    requires x <= y
    ensures a * x <= a * y
  {
    if a > 0 {
      MulMonotone(a - 1, x, y);
      assert a * x == (a - 1) * x + x && a * y == (a - 1) * y + y;
    }
  }

  /** A multiple of d strictly between -d and d is zero. */
  lemma {:induction false} SmallMultiple(d: int, q: int)
    requires -d < d * q < d
    ensures q == 0
  {
    if q > 0 {
      MulMonotone(d, 1, q);
    } else if q < 0 {
      MulMonotone(d, q, -1);
    }
  }

  /** Quotient and remainder are determined by the division equation. */
  lemma {:induction false} DivModUnique(x: int, n: nat, q: int, r: int)
    requires n > 0 && x == n * q + r && 0 <= r < n
    ensures x / n == q && x % n == r
  {
    var q', r' := x / n, x % n;
    assert x == n * q' + r';
    assert n * (q - q') == n * q - n * q';
    SmallMultiple(n, q - q');
  }

  lemma {:induction false} DivFacts(a: nat, b: nat)
    requires b > 0
    ensures a == b * (a / b) + a % b && 0 <= a % b < b && 0 <= a / b <= a
  {
    var q, r := a / b, a % b;
    assert a == b * q + r;
    if q < 0 {
      MulMonotone(b, q, -1);
    } else {
      MulMonotone(q, 1, b);
      assert q * b == b * q;
    }
  }

  lemma {:induction false} ModAddMultiple(x: int, q: int, n: nat)
    requires n > 0
    ensures (x + n * q) % n == x % n && (x + n * q) / n == x / n + q
  {
    var a, r := x / n, x % n;
    assert x == n * a + r;
    assert n * (a + q) == n * a + n * q;
    DivModUnique(x + n * q, n, a + q, r);
  }

  lemma {:induction false} MulAssociates(a: int, b: int, c: int)
    ensures a * b * c == a * (b * c)
  {
  }

  // ---------- Powers of two ----------

  function Pow2(k: nat): (n: nat)
    ensures n > 0
  {
    if k == 0 then 1 else 2 * Pow2(k - 1)
  }

  lemma {:induction false} PowSplit(k: nat, m: nat)
    requires k <= m
    ensures Pow2(m) == Pow2(k) * Pow2(m - k)
  {
    if k < m {
      PowSplit(k, m - 1);
      assert Pow2(m) == 2 * (Pow2(k) * Pow2(m - 1 - k));
    }
  }

  lemma {:induction false} Pow32()
    ensures Pow2(32) == 0x1_0000_0000
  {
    assert Pow2(8) == 256;
    PowSplit(8, 16);
    PowSplit(16, 32);
  }

  lemma {:induction false} PowMonotone(k: nat, m: nat)
    requires k <= m
    ensures Pow2(k) <= Pow2(m)
  {
    if k < m {
      PowMonotone(k, m - 1);
    }
  }

  ghost predicate Divides(d: int, x: int) { exists q: int :: x == d * q }

  /** How often one number goes into another; neither is negative. */
  lemma {:induction false} Factor(d: nat, x: nat) returns (q: nat)
    requires Divides(d, x)
    ensures x == d * q
  {
    var r: int :| x == d * r;
    if d == 0 {
      q := 0;
    } else {
      if r < 0 {
        MulMonotone(d, r, -1);
      }
      q := r;
    }
  }
}
