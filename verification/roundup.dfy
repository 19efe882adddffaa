/**
  Rounding a 32-bit number up to a power of two by smearing its highest bit.
*/
module RoundUp {
  import opened Arith

  const WORD: nat := 0x1_0000_0000

  /** Bitwise or. */
  function Or(a: nat, b: nat): nat
    decreases a + b
  {
    if a + b == 0 then 0
    else 2 * Or(a / 2, b / 2) + if a % 2 == 1 || b % 2 == 1 then 1 else 0
  }

  /** Shifting right by k places. */
  function Shr(x: nat, k: nat): nat
    decreases k
  {
    if k == 0 then x else Shr(x / 2, k - 1)
  }

  /** One smearing step: x or-ed with itself shifted right by s. */
  function Smear(x: nat, s: nat): nat { Or(x, Shr(x, s)) }

  /** The macro, on a number that wraps at 32 bits. */
  function Kroundup32(x: nat): nat
    requires x < WORD
  {
    var x0 := (x + WORD - 1) % WORD;
    (Smear(Smear(Smear(Smear(Smear(x0, 1), 2), 4), 8), 16) + 1) % WORD
  }

  // ---------- What or does ----------

  lemma {:induction false} OrZero(a: nat)
    ensures Or(a, 0) == a
    decreases a
  {
    if a > 0 {
      OrZero(a / 2);
    }
  }

  lemma {:induction false} OrShifted(a: nat, b: nat, k: nat)
    ensures Shr(Or(a, b), k) == Or(Shr(a, k), Shr(b, k))
    decreases k
  {
    if k > 0 {
      OrShifted(a / 2, b / 2, k - 1);
    }
  }

  lemma {:induction false} ShrTwice(x: nat, a: nat, b: nat)
    ensures Shr(Shr(x, a), b) == Shr(x, a + b)
    decreases a
  {
    if a > 0 {
      ShrTwice(x / 2, a - 1, b);
    }
  }

  lemma {:induction false} ShrShrinks(x: nat, k: nat)
    ensures Shr(x, k) <= x
    decreases k
  {
    if k > 0 {
      ShrShrinks(x / 2, k - 1);
    }
  }

  lemma {:induction false} TimesTwice(s: int, p: int)
    ensures s * (2 * p) == 2 * (s * p)
  {
  }

  lemma {:induction false} OrOdd(a: nat, p: nat, s: nat)
    requires p > 0 && Or(a / 2, p - 1) == s * p + p - 1
    ensures Or(a, 2 * p - 1) == s * (2 * p) + 2 * p - 1
  {
    var b, t := 2 * p - 1, s * p;
    assert b / 2 == p - 1 && b % 2 == 1;
    assert Or(a, b) == 2 * Or(a / 2, p - 1) + 1;
    assert Or(a, b) == 2 * t + 2 * p - 1;
    TimesTwice(s, p);
  }

  /** Or-ing m ones in fills the low m bits. */
  lemma {:induction false} OrOnes(a: nat, m: nat)
    ensures Or(a, Pow2(m) - 1) == Shr(a, m) * Pow2(m) + Pow2(m) - 1
    decreases m
  {
    if m == 0 {
      OrZero(a);
    } else {
      OrOnes(a / 2, m - 1);
      OrOdd(a, Pow2(m - 1), Shr(a, m));
    }
  }

  // ---------- The highest m bits of a number of len bits are ones ----------

  predicate TopOnes(x: nat, len: nat, m: nat) {
    x < Pow2(len) && m <= len && Shr(x, len - m) == Pow2(m) - 1
  }

  lemma {:induction false} OnesSplit(m: nat, e: nat)
    requires e <= m
    ensures Shr(Pow2(m) - 1, m - e) == Pow2(e) - 1
    decreases m
  {
    if e < m {
      OnesSplit(m - 1, e);
      assert (Pow2(m) - 1) / 2 == Pow2(m - 1) - 1;
    }
  }

  lemma {:induction false} HighestBit(x: nat, len: nat)
    requires len > 0 && Pow2(len - 1) <= x < Pow2(len)
    ensures Shr(x, len - 1) == 1
  {
    if len > 1 {
      HighestBit(x / 2, len - 1);
    }
  }

  lemma {:induction false} ShrToZero(x: nat, k: nat)
    requires x < Pow2(k)
    ensures Shr(x, k) == 0
  {
    if k > 0 {
      ShrToZero(x / 2, k - 1);
    }
  }

  /** m ones above m' ones. */
  lemma {:induction false} OnesJoin(m: nat, e: nat)
    ensures (Pow2(m) - 1) * Pow2(e) + Pow2(e) - 1 == Pow2(m + e) - 1
  {
    PowSplit(m, m + e);
    Commute(Pow2(m), Pow2(e));
  }

  lemma {:induction false} Commute(p: nat, q: nat)
    ensures (p - 1) * q + q == p * q
  {
  }

  lemma {:induction false} SmearDoubles(x: nat, len: nat, m: nat)
    requires TopOnes(x, len, m) && 2 * m <= len
    ensures TopOnes(Smear(x, m), len, 2 * m)
  {
    var d := len - 2 * m;
    OrShifted(x, Shr(x, m), d);
    ShrTwice(x, m, d);
    ShrTwice(x, d, m);
    OrOnes(Shr(x, d), m);
    OnesJoin(m, m);
    SmearBound(x, len, m);
  }

  lemma {:induction false} OrBound(a: nat, b: nat, k: nat)
    requires a < Pow2(k) && b < Pow2(k)
    ensures Or(a, b) < Pow2(k)
  {
    if k > 0 {
      OrBound(a / 2, b / 2, k - 1);
    }
  }

  lemma {:induction false} SmearBound(x: nat, len: nat, s: nat)
    requires x < Pow2(len)
    ensures Smear(x, s) < Pow2(len)
  {
    ShrShrinks(x, s);
    OrBound(x, Shr(x, s), len);
  }

  lemma {:induction false} SmearFills(x: nat, len: nat, m: nat)
    requires TopOnes(x, len, m) && len < 2 * m
    ensures Smear(x, m) == Pow2(len) - 1
  {
    var e := len - m;
    ShrTwice(x, e, m - e);
    OnesSplit(m, e);
    OrOnes(x, e);
    OnesJoin(m, e);
  }

  lemma {:induction false} SmearFull(len: nat, s: nat)
    ensures Smear(Pow2(len) - 1, s) == Pow2(len) - 1
  {
    var x := Pow2(len) - 1;
    if s <= len {
      var e := len - s;
      OnesSplit(len, e);
      OrOnes(x, e);
      OnesSplit(len, s);
      OnesJoin(s, e);
    } else {
      PowMonotone(len, s);
      ShrToZero(x, s);
      OrZero(x);
    }
  }

  /** The number has len bits, and its highest s, or all, are ones. */
  predicate Smeared(x: nat, len: nat, s: nat) {
    if s <= len then TopOnes(x, len, s) else x == Pow2(len) - 1
  }

  lemma {:induction false} SmearStep(x: nat, len: nat, s: nat)
    requires Smeared(x, len, s)
    ensures Smeared(Smear(x, s), len, 2 * s)
  {
    if 2 * s <= len {
      SmearDoubles(x, len, s);
    } else if s <= len {
      SmearFills(x, len, s);
    } else {
      SmearFull(len, s);
    }
  }

  lemma {:induction false} SmearAll(x: nat, len: nat)
    requires 1 <= len <= 32 && Pow2(len - 1) <= x < Pow2(len)
    ensures Smear(Smear(Smear(Smear(Smear(x, 1), 2), 4), 8), 16) == Pow2(len) - 1
  {
    HighestBit(x, len);
    assert Smeared(x, len, 1);
    SmearStep(x, len, 1);
    var x1 := Smear(x, 1);
    SmearStep(x1, len, 2);
    var x2 := Smear(x1, 2);
    SmearStep(x2, len, 4);
    var x3 := Smear(x2, 4);
    SmearStep(x3, len, 8);
    var x4 := Smear(x3, 8);
    SmearStep(x4, len, 16);
    var x5 := Smear(x4, 16);
    if len == 32 {
      assert TopOnes(x5, 32, 32) && Pow2(0) == 1;
    }
  }

  lemma {:induction false} BitLength(x: nat, bound: nat) returns (len: nat)
    requires 0 < x < Pow2(bound)
    ensures 1 <= len <= bound && Pow2(len - 1) <= x < Pow2(len)
  {
    len := bound;
    while x < Pow2(len - 1)
      invariant 1 <= len <= bound && x < Pow2(len)
    {
      len := len - 1;
    }
  }

  lemma {:induction false} SmearZero()
    ensures Smear(Smear(Smear(Smear(Smear(0, 1), 2), 4), 8), 16) == 0
  {
    forall s: nat
      ensures Smear(0, s) == 0
    {
      ShrShrinks(0, s);
    }
  }

  lemma {:induction false} RoundedResult(x: nat, k: nat)
    requires x < WORD && x != 1 && 1 <= k <= 32
    requires Pow2(k - 1) <= (if x == 0 then WORD - 1 else x - 1) < Pow2(k)
    ensures 1 <= x <= Pow2(31) ==> k <= 31 && Pow2(k - 1) < x <= Pow2(k) < WORD
    ensures x == 0 || x > Pow2(31) ==> Pow2(k) == WORD
    ensures Pow2(k) <= WORD
  {
    Pow32();
    assert Pow2(32) == 2 * Pow2(31);
    if k < 32 {
      PowMonotone(k, 31);
    }
  }

  /** For 1 to 2^31 the result is the least power of two that is not smaller;
      otherwise it is 0. */
  lemma {:induction false} RoundsUp(x: nat) returns (k: nat)
    requires x < WORD
    ensures 1 <= x <= Pow2(31) ==>
      k <= 31 && Kroundup32(x) == Pow2(k) && x <= Pow2(k) && (k > 0 ==> Pow2(k - 1) < x)
    ensures x == 0 || x > Pow2(31) ==> Kroundup32(x) == 0
  {
    k := 0;
    if x == 1 {
      SmearZero();
    } else {
      var x0 := (x + WORD - 1) % WORD;
      assert x0 == if x == 0 then WORD - 1 else x - 1;
      Pow32();
      k := BitLength(x0, 32);
      SmearAll(x0, k);
      RoundedResult(x, k);
      DivModUnique(Pow2(k), WORD, if Pow2(k) == WORD then 1 else 0, if Pow2(k) == WORD then 0 else Pow2(k));
    }
  }
}
