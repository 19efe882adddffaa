/**
  Triangular probing: from bucket h the table visits h, h + 1, h + 3, h + 6, ...
  modulo its size, a power of two.
*/
module Triangular {
  import opened Arith

  function Tri(t: nat): nat { if t == 0 then 0 else Tri(t - 1) + t }

  /** The bucket looked at after t steps. */
  function Probe(h: nat, t: nat, n: nat): (i: nat)
    requires n > 0
    ensures i < n
  {
    (h + Tri(t)) % n
  }

  lemma {:induction false} TriTwice(t: nat)
    ensures 2 * Tri(t) == t * (t + 1)
  {
    if t > 0 {
      TriTwice(t - 1);
    }
  }

  lemma {:induction false} OddTimes(x: int, y: int)
    requires x % 2 == 1 && y % 2 == 1
    ensures (x * y) % 2 == 1
  {
    var a, b := x / 2, y / 2;
    assert x * y == 2 * (2 * a * b + a + b) + 1;
  }

  /** An even product with an odd factor: half the other factor gives half the product. */
  lemma {:induction false} HalveFactor(x: int, y: int, c: int)
    requires y % 2 == 1 && x * y == 2 * c
    ensures x == 2 * (x / 2) && (x / 2) * y == c
  {
    if x % 2 == 1 {
      OddTimes(x, y);
    }
    var half := x / 2;
    assert x == 2 * half;
    assert (2 * half) * y == 2 * (half * y);
  }

  lemma {:induction false} TwicePow(k: nat, q: int)
    requires k > 0
    ensures Pow2(k) * q == 2 * (Pow2(k - 1) * q)
  {
    MulAssociates(2, Pow2(k - 1), q);
  }

  /** A power of two that divides a product with an odd factor divides the other. */
  lemma {:induction false} OddFactor(x: int, y: int, k: nat)
    requires y % 2 == 1 && Divides(Pow2(k), x * y)
    ensures Divides(Pow2(k), x)
    decreases k
  {
    if k == 0 {
      assert x == Pow2(0) * x;
    } else {
      var q :| x * y == Pow2(k) * q;
      TwicePow(k, q);
      HalveFactor(x, y, Pow2(k - 1) * q);
      OddFactor(x / 2, y, k - 1);
      var r :| x / 2 == Pow2(k - 1) * r;
      TwicePow(k, r);
    }
  }

  lemma {:induction false} NoSmallMultiple(x: int, d: int)
    requires 0 < x < d
    ensures !Divides(d, x)
  {
    if Divides(d, x) {
      var q :| x == d * q;
      SmallMultiple(d, q);
    }
  }

  lemma {:induction false} SameRemainder(x: nat, y: nat, n: nat)
    requires n > 0 && x % n == y % n
    ensures Divides(n, y - x)
  {
    assert x == n * (x / n) + x % n && y == n * (y / n) + y % n;
    assert y - x == n * (y / n - x / n);
  }

  lemma {:induction false} TriDifference(a: nat, b: nat)
    requires a < b
    ensures 2 * (Tri(b) - Tri(a)) == (b - a) * (b + a + 1)
  {
    TriTwice(a);
    TriTwice(b);
    assert (b - a) * (b + a + 1) == b * (b + 1) - a * (a + 1);
  }

  lemma {:induction false} NotDivided(d: int, s: int, k: nat)
    requires 0 < d < Pow2(k) && 0 < s < Pow2(k) && (d + s) % 2 == 1
    ensures !Divides(Pow2(k), d * s)
  {
    if Divides(Pow2(k), d * s) {
      if d % 2 == 1 {
        assert s * d == d * s;
        OddFactor(s, d, k);
        NoSmallMultiple(s, Pow2(k));
      } else {
        OddFactor(d, s, k);
        NoSmallMultiple(d, Pow2(k));
      }
    }
  }

  lemma {:induction false} TwiceDivides(x: int, k: nat)
    requires Divides(Pow2(k), x)
    ensures Divides(Pow2(k + 1), 2 * x)
  {
    var m :| x == Pow2(k) * m;
    assert 2 * x == Pow2(k + 1) * m;
  }

  /** Two different probes among the first n, or a later one and the first. */
  lemma {:induction false} ProbesDiffer(h: nat, a: nat, b: nat, k: nat)
    requires a < b && b + a + 1 < 2 * Pow2(k)
    ensures Probe(h, a, Pow2(k)) != Probe(h, b, Pow2(k))
  {
    NotDivided(b - a, b + a + 1, k + 1);
    if Probe(h, a, Pow2(k)) == Probe(h, b, Pow2(k)) {
      EqualProbesDivide(h, a, b, k);
    }
  }

  lemma {:induction false} EqualProbesDivide(h: nat, a: nat, b: nat, k: nat)
    requires a < b && Probe(h, a, Pow2(k)) == Probe(h, b, Pow2(k))
    ensures Divides(Pow2(k + 1), (b - a) * (b + a + 1))
  {
    SameRemainder(h + Tri(a), h + Tri(b), Pow2(k));
    TwiceDivides((h + Tri(b)) - (h + Tri(a)), k);
    TriDifference(a, b);
  }

  /** After 2n - 1 steps, and not before, the probe is back where it started. */
  lemma {:induction false} ProbeReturns(h: nat, t: nat, k: nat)
    requires 0 < t < 2 * Pow2(k)
    ensures Probe(h, t, Pow2(k)) == Probe(h, 0, Pow2(k)) <==> t == 2 * Pow2(k) - 1
  {
    var n := Pow2(k);
    if t == 2 * n - 1 {
      TriTwice(t);
      assert t * (t + 1) == 2 * (t * n);
      assert Tri(t) == n * t;
      ModAddMultiple(h, t, n);
    } else {
      ProbesDiffer(h, 0, t, k);
    }
  }

  /** One more step: the 32-bit sum may wrap, which the size divides. */
  lemma {:induction false} NextProbe(h: nat, t: nat, k: nat)
    requires k <= 31
    ensures Probe(h, t + 1, Pow2(k)) == (Probe(h, t, Pow2(k)) + (t + 1)) % 0x1_0000_0000 % Pow2(k)
  {
    ProbeAfter(h, t, Pow2(k));
    WrapThenMask(Probe(h, t, Pow2(k)) + (t + 1), k);
  }

  lemma {:induction false} ProbeAfter(h: nat, t: nat, n: nat)
    requires n > 0
    ensures Probe(h, t + 1, n) == (Probe(h, t, n) + (t + 1)) % n
  {
    AddThenMask(h + Tri(t), t + 1, n);
  }

  lemma {:induction false} AddThenMask(x: nat, y: nat, n: nat)
    requires n > 0
    ensures (x + y) % n == (x % n + y) % n
  {
    var q, i := x / n, x % n;
    assert x + y == (i + y) + n * q;
    ModAddMultiple(i + y, q, n);
  }

  lemma {:induction false} WrapThenMask(x: nat, k: nat)
    requires k <= 32
    ensures x % 0x1_0000_0000 % Pow2(k) == x % Pow2(k)
  {
    Pow32();
    PowSplit(k, 32);
    var n, w := Pow2(k), 0x1_0000_0000;
    var q := x / w;
    assert x == x % w + w * q;
    MulAssociates(n, Pow2(32 - k), q);
    ModAddMultiple(x % w, Pow2(32 - k) * q, n);
  }

  // ---------- The first n probes visit every bucket ----------

  function Visited(h: nat, m: nat, n: nat): set<nat>
    requires n > 0
  {
    set t: nat | t < m :: Probe(h, t, n)
  }

  lemma {:induction false} VisitedSize(h: nat, m: nat, k: nat)
    requires m <= Pow2(k)
    ensures |Visited(h, m, Pow2(k))| == m
  {
    var n := Pow2(k);
    if m > 0 {
      VisitedSize(h, m - 1, k);
      var p := Probe(h, m - 1, n);
      if p in Visited(h, m - 1, n) {
        var t: nat :| t < m - 1 && Probe(h, t, n) == p;
        ProbesDiffer(h, t, m - 1, k);
      }
      assert Visited(h, m, n) == Visited(h, m - 1, n) + {p};
    } else {
      assert Visited(h, 0, n) == {};
    }
  }

  function Buckets(n: nat): (b: set<nat>)
    ensures forall i: nat :: i in b <==> i < n
  {
    if n == 0 then {} else Buckets(n - 1) + {n - 1}
  }

  lemma {:induction false} BucketsSize(n: nat)
    ensures |Buckets(n)| == n
  {
    if n > 0 {
      BucketsSize(n - 1);
    }
  }

  lemma {:induction false} FullSubset(a: set<nat>, b: set<nat>)
    requires a <= b && |a| == |b|
    ensures a == b
  {
    if b - a != {} {
      var x :| x in b - a;
      assert a <= b - {x};
      SubsetSize(a, b - {x});
    }
  }

  lemma {:induction false} SubsetSize<T>(a: set<T>, b: set<T>)
    requires a <= b
    ensures |a| <= |b|
    decreases |a|
  {
    if a != {} {
      var x :| x in a;
      SubsetSize(a - {x}, b - {x});
    }
  }

  /** Every bucket is visited within n probes. */
  lemma {:induction false} ProbeCovers(h: nat, i: nat, k: nat) returns (t: nat)
    requires i < Pow2(k)
    ensures t < Pow2(k) && Probe(h, t, Pow2(k)) == i
  {
    var n := Pow2(k);
    VisitedSize(h, n, k);
    BucketsSize(n);
    FullSubset(Visited(h, n, n), Buckets(n));
    assert i in Buckets(n);
    t :| t < n && Probe(h, t, n) == i;
  }
}
