/**
  Greatest common divisors, by divisibility alone.
*/
module Gcds {
  import opened Arith
  import opened Bits

  /** g divides both, and every common divisor divides g. */
  ghost predicate IsGcd(g: nat, a: nat, b: nat) {
    Divides(g, a) && Divides(g, b) && forall d: nat :: Divides(d, a) && Divides(d, b) ==> Divides(d, g)
  }

  lemma {:induction false} GcdSwap(g: nat, a: nat, b: nat)
    requires IsGcd(g, a, b)
    ensures IsGcd(g, b, a)
  {
  }

  lemma {:induction false} DividesSelf(a: nat)
    ensures Divides(a, a) && Divides(a, 0)
  {
    assert a == a * 1 && 0 == a * 0;
  }

  lemma {:induction false} GcdZero(a: nat)
    ensures IsGcd(a, a, 0)
  {
    DividesSelf(a);
  }

  lemma {:induction false} DividesSum(d: nat, x: nat, y: nat)
    requires Divides(d, x) && Divides(d, y)
    ensures Divides(d, x + y)
  {
    var p := Factor(d, x);
    var q := Factor(d, y);
    assert x + y == d * (p + q);
  }

  lemma {:induction false} DividesDifference(d: nat, x: nat, y: nat)
    requires Divides(d, x) && Divides(d, y) && x <= y
    ensures Divides(d, y - x)
  {
    var p := Factor(d, x);
    var q := Factor(d, y);
    if p <= q {
      assert y - x == d * (q - p);
    } else {
      MulMonotone(d, q, p);
      assert y - x == 0 == d * 0;
    }
  }

  /** Adding one number to the other does not change the divisors. */
  lemma {:induction false} GcdSum(g: nat, a: nat, b: nat)
    requires IsGcd(g, a, b)
    ensures IsGcd(g, a, b + a)
  {
    DividesSum(g, b, a);
    forall d: nat | Divides(d, a) && Divides(d, b + a)
      ensures Divides(d, g)
    {
      DividesDifference(d, a, b + a);
    }
  }

  lemma {:induction false} GcdSumTimes(g: nat, a: nat, b: nat, q: nat)
    requires IsGcd(g, a, b)
    ensures IsGcd(g, a, b + a * q)
  {
    if q > 0 {
      GcdSumTimes(g, a, b, q - 1);
      assert b + a * q == (b + a * (q - 1)) + a;
      GcdSum(g, a, b + a * (q - 1));
    }
  }

  lemma {:induction false} GcdRemainder(g: nat, a: nat, b: nat)
    requires a > 0 && b % a >= 0 && IsGcd(g, a, b % a)
    ensures IsGcd(g, a, b)
  {
    DivFacts(b, a);
    GcdSumTimes(g, a, b % a, b / a);
  }

  lemma {:induction false} OddProduct(a: nat, b: nat)
    ensures (2 * a + 1) * (2 * b + 1) == 2 * (2 * (a * b) + a + b) + 1
  {
    assert (2 * a + 1) * (2 * b + 1) == 2 * a * (2 * b + 1) + (2 * b + 1);
  }

  lemma {:induction false} ProductParity(x: nat, y: nat)
    ensures (x * y) % 2 == 1 <==> x % 2 == 1 && y % 2 == 1
  {
    var a, b := x / 2, y / 2;
    if x % 2 == 0 {
      MulAssociates(2, a, y);
    } else if y % 2 == 0 {
      assert x * y == y * x;
      MulAssociates(2, b, x);
    } else {
      OddProduct(a, b);
    }
  }

  lemma {:induction false} OddDivisor(d: nat, a: nat)
    requires Divides(d, a) && a % 2 == 1
    ensures d % 2 == 1
  {
    var q := Factor(d, a);
    ProductParity(d, q);
  }

  lemma {:induction false} OddDividesDouble(d: nat, b: nat)
    requires d % 2 == 1 && Divides(d, 2 * b)
    ensures Divides(d, b)
  {
    var q := Factor(d, 2 * b);
    ProductParity(d, q);
    var k := q / 2;
    assert d * q == 2 * (d * k);
    assert b == d * k;
  }

  lemma {:induction false} DividesDouble(d: nat, b: nat)
    requires Divides(d, b)
    ensures Divides(d, 2 * b) && Divides(2 * d, 2 * b)
  {
    var q := Factor(d, b);
    assert 2 * b == d * (2 * q) && 2 * b == (2 * d) * q;
  }

  lemma {:induction false} DividesHalved(e: nat, b: nat)
    requires Divides(2 * e, 2 * b)
    ensures Divides(e, b)
  {
    var q := Factor(2 * e, 2 * b);
    assert b == e * q;
  }

  /** Next to an odd number, factors of two do not count. */
  lemma {:induction false} GcdOddShl(g: nat, a: nat, b: nat, k: nat)
    requires a % 2 == 1 && IsGcd(g, a, b)
    ensures IsGcd(g, a, Shl(b, k))
  {
    if k > 0 {
      GcdOddShl(g, a, b, k - 1);
      var c := Shl(b, k - 1);
      DividesDouble(g, c);
      forall d: nat | Divides(d, a) && Divides(d, 2 * c)
        ensures Divides(d, g)
      {
        OddDivisor(d, a);
        OddDividesDouble(d, c);
      }
    }
  }

  lemma {:induction false} GcdDouble(g: nat, a: nat, b: nat)
    requires IsGcd(g, a, b)
    ensures IsGcd(2 * g, 2 * a, 2 * b)
  {
    DividesDouble(g, a);
    DividesDouble(g, b);
    forall d: nat | Divides(d, 2 * a) && Divides(d, 2 * b)
      ensures Divides(d, 2 * g)
    {
      if d % 2 == 1 {
        OddDividesDouble(d, a);
        OddDividesDouble(d, b);
        DividesDouble(d, g);
      } else {
        var e := d / 2;
        assert d == 2 * e;
        DividesHalved(e, a);
        DividesHalved(e, b);
        DividesDouble(e, g);
      }
    }
  }

  lemma {:induction false} GcdShl(g: nat, a: nat, b: nat, k: nat)
    requires IsGcd(g, a, b)
    ensures IsGcd(Shl(g, k), Shl(a, k), Shl(b, k))
  {
    if k > 0 {
      GcdShl(g, a, b, k - 1);
      GcdDouble(Shl(g, k - 1), Shl(a, k - 1), Shl(b, k - 1));
    }
  }

  /** The greatest common divisor, and no other number is one. */
  ghost predicate IsOnlyGcd(g: nat, a: nat, b: nat) {
    IsGcd(g, a, b) && forall h: nat :: IsGcd(h, a, b) ==> h == g
  }

  lemma {:induction false} OnlyGcd(g: nat, a: nat, b: nat)
    requires IsGcd(g, a, b)
    ensures IsOnlyGcd(g, a, b)
  {
    forall h: nat | IsGcd(h, a, b)
      ensures h == g
    {
      DividesAtMost(g, h);
      DividesAtMost(h, g);
    }
  }

  lemma {:induction false} DividesAtMost(d: nat, x: nat)
    requires Divides(d, x)
    ensures x > 0 ==> d <= x
    ensures d == 0 ==> x == 0
  {
    var q := Factor(d, x);
    if q > 0 {
      MulMonotone(d, 1, q);
    }
  }
}
