/**
  Division with remainder: by words, by half words from the top down, and by
  shifting and subtracting.
*/
module BigintDivision {
  import opened Arith
  import opened RoundUp
  import opened Bits
  import opened BigintValue
  import opened BigintWords
  import opened BigintRaw
  import opened BigintShift
  import opened BigintObject

  const HALF_MAX: nat := 0xFFFF

  // ---------- By half a word ----------

  lemma {:induction false} HalfJoin(a: nat, b: nat)
    requires a < HALF && b < HALF
    ensures Or(WordShl(a, 16), b) == a * HALF + b
  {
    HalfShifted(a);
    HalfIsPower();
    OrDisjoint(a, b, 16);
  }

  lemma {:induction false} HalfIsPower()
    ensures Pow2(16) == HALF
  {
    assert Pow2(8) == 256;
    PowSplit(8, 16);
  }

  lemma {:induction false} HalfShifted(a: nat)
    requires a < HALF
    ensures WordShl(a, 16) == Shl(a, 16) == a * HALF
  {
    HalfIsPower();
    ShlIs(a, 16);
  }

  method JoinHalves(a: nat, b: nat) returns (w: Word)
    requires a < HALF && b < HALF
    ensures w == a * HALF + b
  {
    HalfJoin(a, b);
    w := Or(WordShl(a, 16), b);
  }

  /** Divide a remainder followed by half a word. */
  method DivideHalf(remainder0: Word, part: nat, denominator: Word) returns (quotient: nat, remainder: Word)
    requires 0 < denominator <= HALF_MAX && remainder0 < denominator && part < HALF
    ensures remainder0 * HALF + part == denominator * quotient + remainder
    ensures quotient < HALF && remainder < denominator
  {
    var joined := JoinHalves(remainder0, part);
    HalfQuotient(joined, denominator);
    quotient := joined / denominator;
    remainder := joined % denominator;
  }

  /** Divide a remainder followed by a word, in two steps of half a word each. */
  method DivideWord(remainder0: Word, word: Word, denominator: Word) returns (quotient: Word, remainder: Word)
    requires 0 < denominator <= HALF_MAX && remainder0 < denominator
    ensures remainder0 * BASE + word == quotient * denominator + remainder && remainder < denominator
  {
    var d0, m0 := DivideHalf(remainder0, HiHalf(word), denominator);
    var d1, m1 := DivideHalf(m0, LoHalf(word), denominator);
    quotient := JoinHalves(d0, d1);
    remainder := m1;
    TwoSteps(remainder0, HiHalf(word), LoHalf(word), denominator, d0, m0, d1, m1);
  }

  lemma {:induction false} HalfQuotient(r: nat, d: nat)
    requires 0 < d <= HALF_MAX && r < d * HALF
    ensures r / d < HALF && r % d < d && r == d * (r / d) + r % d
  {
    DivFacts(r, d);
    if r / d >= HALF {
      MulMonotone(d, HALF, r / d);
    }
  }

  lemma {:induction false} TwoSteps(r: nat, hi: nat, lo: nat, d: nat, d0: nat, m0: nat, d1: nat, m1: nat)
    requires r * HALF + hi == d * d0 + m0 && m0 * HALF + lo == d * d1 + m1
    ensures r * BASE + (hi * HALF + lo) == (d0 * HALF + d1) * d + m1
  {
    assert (d0 * HALF + d1) * d == (d * d0) * HALF + d * d1;
  }

  /** One more word below: the quotient grows by a digit. */
  lemma {:induction false} DigitStep(w: nat, high: nat, q: nat, qs: nat, d: nat, r: nat, r': nat)
    requires high == Times(qs, d) + r && r * BASE + w == q * d + r'
    ensures w + BASE * high == Times(q + BASE * qs, d) + r'
  {
    TimesIs(qs, d);
    TimesIs(q + BASE * qs, d);
    assert (q + BASE * qs) * d == q * d + BASE * (qs * d);
  }

  /** The words from i on are divided, with this remainder; the others are untouched. */
  predicate Divided(s: seq<Word>, t: seq<Word>, n: nat, i: nat, d: nat, r: nat) {
    && i <= n <= |s| == |t| && r < d && Num(s, i, n - i) == Times(Num(t, i, n - i), d) + r
    && forall j :: 0 <= j < i ==> t[j] == s[j]
  }

  lemma {:induction false} NextDivided(s: seq<Word>, t: seq<Word>, n: nat, i: nat, d: nat, r: nat, q: Word, r': nat)
    requires Divided(s, t, n, i, d, r) && i > 0 && r' < d && r * BASE + s[i - 1] == q * d + r'
    ensures Divided(s, t[i - 1 := q], n, i - 1, d, r')
  {
    NumSame(t, i, t[i - 1 := q], i, n - i);
    DigitStep(s[i - 1], Num(s, i, n - i), q, Num(t, i, n - i), d, r, r');
  }

  /** Divide in place by at most half a word. */
  method DivModHalfWord(dst: Bigint, denominator: Word) returns (remainder: Word)
    requires dst.Valid() && 0 < denominator <= HALF_MAX
    modifies dst`size, dst.words
    ensures dst.Valid() && IsQuotient(old(dst.Mag()), denominator, dst.Mag(), remainder)
    ensures dst.size <= old(dst.size)
  {
    ghost var s := dst.words[..];
    var n := dst.size;
    remainder := 0;
    TimesZero(denominator);
    var i := n;
    while i > 0
      invariant 0 <= i <= n && Divided(s, dst.words[..], n, i, denominator, remainder)
    {
      ghost var before := dst.words[..];
      var quotient, rest := DivideWord(remainder, dst.words[i - 1], denominator);
      NextDivided(s, before, n, i, denominator, remainder, quotient, rest);
      i := i - 1;
      dst.words[i] := quotient;
      assert dst.words[..] == before[i := quotient];
      remainder := rest;
    }
    dst.size := Truncate(dst.words, 0, n);
  }

  // ---------- By shifting and subtracting ----------

  /** n divided by d is q, with remainder r. */
  predicate IsQuotient(n: nat, d: nat, q: nat, r: nat) { n == Times(q, d) + r && r < d }

  lemma {:induction false} QuotientMeans(n: nat, d: nat, q: nat, r: nat)
    requires IsQuotient(n, d, q, r)
    ensures n == q * d + r && q == n / d && r == n % d
  {
    TimesIs(q, d);
    assert q * d == d * q;
    DivModUnique(n, d, q, r);
  }

  predicate Separate(a: Bigint, b: Bigint)
    reads a, b
  {
    a != b && a.words != b.words
  }

  lemma {:induction false} TimesShl(a: nat, b: nat, k: nat)
    ensures Times(Shl(a, k), b) == Shl(Times(a, b), k)
    decreases k
  {
    if k > 0 {
      TimesShl(a, b, k - 1);
      TimesAddLeft(Shl(a, k - 1), Shl(a, k - 1), b);
    }
  }

  /** n is q times d and r, with k bits of the quotient still to come. */
  ghost predicate Dividing(n: nat, d: nat, q: nat, r: nat, k: nat) {
    n == Times(q, d) + r && r < Shl(d, k) && exists top: nat :: q == Shl(top, k)
  }

  /** The next bit of the quotient: set if the shifted denominator fits. */
  lemma {:induction false} NextBit(n: nat, d: nat, q: nat, r: nat, k: nat)
    requires Dividing(n, d, q, r, k + 1)
    ensures Shr(q, k) % 2 == 0
    ensures r >= Shl(d, k) ==> Dividing(n, d, q + Shl(1, k), r - Shl(d, k), k)
    ensures r < Shl(d, k) ==> Dividing(n, d, q, r, k)
  {
    var top: nat :| q == Shl(top, k + 1);
    ShlDoubled(top, k);
    ShrOf(2 * top, 0, k);
    Ones(k);
    if r >= Shl(d, k) {
      TimesAddLeft(q, Shl(1, k), d);
      TimesShl(1, d, k);
      assert Times(1, d) == d by {
        TimesIs(1, d);
      }
      ShlAdd(2 * top, 1, k);
      assert q + Shl(1, k) == Shl(2 * top + 1, k);
    } else {
      assert q == Shl(2 * top, k);
    }
  }

  lemma {:induction false} Ones(k: nat)
    ensures Pow2(k) > 0
  {
  }

  lemma {:induction false} StartDividing(n: nat, d: nat, ln: nat, ld: nat)
    requires HasBits(n, ln) && HasBits(d, ld) && 0 < d <= n
    ensures ld <= ln && Dividing(n, d, 0, n, ln - ld + 1)
  {
    if ln < ld {
      PowMonotone(ln, ld - 1);
    }
    var k := ln - ld + 1;
    ShlMonotone(Pow2(ld - 1), d, k);
    ShlOne(ld - 1);
    ShlTwice(1, ld - 1, k);
    ShlOne(ln);
    TimesZero(d);
    ShlOne(k);
    assert 0 == Shl(0, k);
  }

  lemma {:induction false} DoneDividing(n: nat, d: nat, q: nat, r: nat)
    requires Dividing(n, d, q, r, 0)
    ensures IsQuotient(n, d, q, r)
  {
  }

  method TakeOut(quotient: Bigint, remainder: Bigint, denominator: Bigint, shift: nat)
    requires quotient.Valid() && remainder.Valid() && denominator.Valid()
    requires Separate(quotient, remainder) && Separate(quotient, denominator) && Separate(remainder, denominator)
    requires !remainder.neg && !denominator.neg && denominator.Mag() <= remainder.Mag() && Shr(quotient.Mag(), shift) % 2 == 0
    modifies quotient, quotient.words, remainder, remainder.words
    ensures quotient.Valid() && remainder.Valid() && Separate(quotient, remainder) && !remainder.neg
    ensures remainder.Mag() == old(remainder.Mag()) - denominator.Mag()
    ensures quotient.Mag() == old(quotient.Mag()) + Shl(1, shift)
    ensures quotient.words == old(quotient.words) || fresh(quotient.words)
    ensures remainder.words == old(remainder.words) || fresh(remainder.words)
  {
    remainder.Sub(remainder, denominator);
    quotient.SetBit(shift);
  }

  /** Subtract the shifted denominator if it fits, and shift it back by one. */
  method DivideBit(quotient: Bigint, remainder: Bigint, denominator: Bigint, shift: nat, ghost n: nat, ghost d: nat)
    requires Separate(quotient, remainder) && Separate(quotient, denominator) && Separate(remainder, denominator)
    requires d > 0 && Underway(quotient, remainder, denominator, n, d, shift + 1)
    modifies quotient, quotient.words, remainder, remainder.words, denominator, denominator.words
    ensures Separate(quotient, remainder) && Separate(quotient, denominator) && Separate(remainder, denominator)
    ensures Underway(quotient, remainder, denominator, n, d, shift)
    ensures quotient.words == old(quotient.words) || fresh(quotient.words)
    ensures remainder.words == old(remainder.words) || fresh(remainder.words)
    ensures denominator.words == old(denominator.words) || fresh(denominator.words)
  {
    NextBit(n, d, quotient.Mag(), remainder.Mag(), shift);
    var c := remainder.CompareAbs(denominator);
    if c >= 0 {
      TakeOut(quotient, remainder, denominator, shift);
    }
    ShlPositive(d, shift);
    denominator.SizeZero();
    denominator.ShiftRight(denominator, 1);
    assert Shr(Shl(d, shift), 1) == Shl(d, shift) / 2;
  }

  lemma {:induction false} ShlPositive(d: nat, k: nat)
    requires d > 0
    ensures Shl(d, k) > 0
  {
    ShlMonotone(0, d, k);
    Ones(k);
  }

  /** Four numbers in buffers of their own. */
  predicate Apart(quotient: Bigint, remainder: Bigint, denominator: Bigint, source: Bigint)
    reads quotient, remainder, denominator, source
  {
    && Separate(quotient, remainder) && Separate(quotient, denominator) && Separate(remainder, denominator)
    && Separate(quotient, source) && Separate(remainder, source) && Separate(denominator, source)
  }

  /** The state of the division with k bits of the quotient still to come. */
  ghost predicate Underway(quotient: Bigint, remainder: Bigint, denominator: Bigint, n: nat, d: nat, k: nat)
    reads quotient, quotient.words, remainder, remainder.words, denominator, denominator.words
  {
    && quotient.Valid() && remainder.Valid() && denominator.Valid() && !remainder.neg && !denominator.neg
    && (k > 0 ==> denominator.Mag() == Shl(d, k - 1)) && Dividing(n, d, quotient.Mag(), remainder.Mag(), k)
  }

  /** A copy of the denominator shifted up to the numerator. */
  method Aligned(source: Bigint, shift: nat) returns (denominator: Bigint)
    requires source.Valid()
    ensures fresh(denominator) && fresh(denominator.words) && denominator.Valid()
    ensures !denominator.neg && denominator.Mag() == Shl(source.Mag(), shift)
  {
    denominator := new Bigint();
    denominator.ShiftLeft(source, shift);
    denominator.neg := false;
  }

  /** Divide bit by bit.  The remainder starts as the numerator. */
  method LongDivision(quotient: Bigint, remainder: Bigint, source: Bigint)
    requires quotient.Valid() && remainder.Valid() && source.Valid() && quotient.Mag() == 0
    requires Separate(quotient, remainder) && Separate(quotient, source) && Separate(remainder, source)
    requires !remainder.neg && 0 < source.Mag() <= remainder.Mag()
    modifies quotient, quotient.words, remainder, remainder.words
    ensures quotient.Valid() && remainder.Valid() && Separate(quotient, remainder)
    ensures IsQuotient(old(remainder.Mag()), source.Mag(), quotient.Mag(), remainder.Mag())
    ensures quotient.words == old(quotient.words) || fresh(quotient.words)
    ensures remainder.words == old(remainder.words) || fresh(remainder.words)
  {
    ghost var n, d := remainder.Mag(), source.Mag();
    var ln := remainder.BitLength();
    var ld := source.BitLength();
    StartDividing(n, d, ln, ld);
    var shift: int := ln - ld;
    var denominator := Aligned(source, shift);
    while shift >= 0
      invariant -1 <= shift && Underway(quotient, remainder, denominator, n, d, shift + 1)
      invariant Apart(quotient, remainder, denominator, source)
      invariant quotient.words == old(quotient.words) || fresh(quotient.words)
      invariant remainder.words == old(remainder.words) || fresh(remainder.words)
      invariant fresh(denominator) && fresh(denominator.words)
    {
      DivideBit(quotient, remainder, denominator, shift, n, d);
      shift := shift - 1;
    }
    DoneDividing(n, d, quotient.Mag(), remainder.Mag());
  }

  method DivideSingle(quotient: Bigint, remainder: Bigint, numerator: Bigint, denominator: Bigint)
    requires quotient.Valid() && remainder.Valid() && Separate(quotient, remainder)
    requires numerator.Valid() && denominator.Valid() && numerator.size == 1 == denominator.size
    requires Separate(quotient, numerator) && Separate(remainder, numerator)
    requires Separate(quotient, denominator) && Separate(remainder, denominator)
    modifies quotient, quotient.words, remainder, remainder.words
    ensures quotient.Valid() && remainder.Valid() && Separate(quotient, remainder)
    ensures IsQuotient(numerator.Mag(), denominator.Mag(), quotient.Mag(), remainder.Mag())
    ensures quotient.words == old(quotient.words) || fresh(quotient.words)
    ensures remainder.words == old(remainder.words) || fresh(remainder.words)
  {
    var a, b := numerator.words[0], denominator.words[0];
    WordQuotient(a, b);
    quotient.FromWord(a / b);
    remainder.FromWord(a % b);
  }

  lemma {:induction false} WordQuotient(a: Word, b: Word)
    requires b != 0
    ensures 0 <= a / b < BASE && 0 <= a % b < BASE && IsQuotient(a, b, a / b, a % b)
  {
    DivFacts(a, b);
    TimesIs(a / b, b);
  }

  method DivideByHalfWord(quotient: Bigint, remainder: Bigint, numerator: Bigint, denominator: Bigint)
    requires quotient.Valid() && remainder.Valid() && numerator.Valid() && denominator.Valid()
    requires Separate(quotient, remainder) && Separate(quotient, numerator) && Separate(remainder, numerator)
    requires Separate(quotient, denominator) && Separate(remainder, denominator)
    requires denominator.size == 1 && denominator.words[0] <= HALF_MAX
    modifies quotient, quotient.words, remainder, remainder.words
    ensures quotient.Valid() && remainder.Valid() && Separate(quotient, remainder)
    ensures IsQuotient(numerator.Mag(), denominator.Mag(), quotient.Mag(), remainder.Mag())
    ensures quotient.words == old(quotient.words) || fresh(quotient.words)
    ensures remainder.words == old(remainder.words) || fresh(remainder.words)
  {
    quotient.Copy(numerator);
    var rem := DivModHalfWord(quotient, denominator.words[0]);
    remainder.FromWord(rem);
  }

  method DivideLong(quotient: Bigint, remainder: Bigint, numerator: Bigint, denominator: Bigint)
    requires quotient.Valid() && remainder.Valid() && numerator.Valid() && denominator.Valid() && denominator.Mag() > 0
    requires Separate(quotient, remainder) && Separate(quotient, numerator) && Separate(remainder, numerator)
    requires Separate(quotient, denominator) && Separate(remainder, denominator)
    modifies quotient, quotient.words, remainder, remainder.words
    ensures quotient.Valid() && remainder.Valid() && Separate(quotient, remainder)
    ensures IsQuotient(numerator.Mag(), denominator.Mag(), quotient.Mag(), remainder.Mag())
    ensures quotient.words == old(quotient.words) || fresh(quotient.words)
    ensures remainder.words == old(remainder.words) || fresh(remainder.words)
  {
    remainder.Copy(numerator);
    remainder.neg := false;
    quotient.size := 0;
    TimesZero(denominator.Mag());
    var c := remainder.CompareAbs(denominator);
    if c >= 0 {
      LongDivision(quotient, remainder, denominator);
    }
  }

  /** Quotient and remainder, truncated toward zero: the quotient has the sign of the
      numerator times the denominator's, the remainder the numerator's.  Division by
      zero is refused. */
  method DivMod(quotient: Bigint, remainder: Bigint, numerator: Bigint, denominator: Bigint) returns (ok: bool)
    requires quotient.Valid() && remainder.Valid() && numerator.Valid() && denominator.Valid()
    requires Separate(quotient, remainder) && Separate(quotient, numerator) && Separate(remainder, numerator)
    requires Separate(quotient, denominator) && Separate(remainder, denominator)
    modifies quotient, quotient.words, remainder, remainder.words
    ensures quotient.Valid() && remainder.Valid() && Separate(quotient, remainder)
    ensures ok <==> denominator.Mag() != 0
    ensures ok ==> IsQuotient(numerator.Mag(), denominator.Mag(), quotient.Mag(), remainder.Mag())
    ensures ok ==> quotient.neg == (numerator.neg != denominator.neg) && remainder.neg == numerator.neg
    ensures quotient.words == old(quotient.words) || fresh(quotient.words)
    ensures remainder.words == old(remainder.words) || fresh(remainder.words)
  {
    denominator.SizeZero();
    if denominator.size == 0 {
      return false;
    }
    DivideMagnitudes(quotient, remainder, numerator, denominator);
    quotient.neg := numerator.neg != denominator.neg;
    remainder.neg := numerator.neg;
    ok := true;
  }

  /** The three ways to divide. */
  method DivideMagnitudes(quotient: Bigint, remainder: Bigint, numerator: Bigint, denominator: Bigint)
    requires quotient.Valid() && remainder.Valid() && numerator.Valid() && denominator.Valid() && denominator.Mag() > 0
    requires Separate(quotient, remainder) && Separate(quotient, numerator) && Separate(remainder, numerator)
    requires Separate(quotient, denominator) && Separate(remainder, denominator)
    modifies quotient, quotient.words, remainder, remainder.words
    ensures quotient.Valid() && remainder.Valid() && Separate(quotient, remainder)
    ensures IsQuotient(numerator.Mag(), denominator.Mag(), quotient.Mag(), remainder.Mag())
    ensures quotient.words == old(quotient.words) || fresh(quotient.words)
    ensures remainder.words == old(remainder.words) || fresh(remainder.words)
  {
    if numerator.size == 1 && denominator.size == 1 {
      DivideSingle(quotient, remainder, numerator, denominator);
    } else if denominator.size == 1 && denominator.words[0] <= HALF_MAX {
      DivideByHalfWord(quotient, remainder, numerator, denominator);
    } else {
      DivideLong(quotient, remainder, numerator, denominator);
    }
  }
}
