/**
  The binary greatest common divisor.
*/
module BigintGcd {
  import opened Arith
  import opened RoundUp
  import opened Bits
  import opened Gcds
  import opened BigintValue
  import opened BigintObject
  import opened BigintDivision

  method WordGcd(a0: Word, b0: Word) returns (g: Word)
    ensures IsGcd(g, a0, b0)
  {
    var a, b := a0, b0;
    while true
      invariant forall h: nat :: IsGcd(h, a, b) ==> IsGcd(h, a0, b0)
      decreases (a as int) + b
    {
      if a == 0 {
        GcdZero(b);
        GcdSwap(b, b, 0);
        return b;
      }
      ghost var b1 := b;
      DivFacts(b, a);
      b := b % a;
      forall h: nat | IsGcd(h, a, b)
        ensures IsGcd(h, a, b1)
      {
        GcdRemainder(h, a, b1);
      }
      if b == 0 {
        GcdZero(a);
        return a;
      }
      ghost var a1 := a;
      DivFacts(a, b);
      a := a % b;
      forall h: nat | IsGcd(h, a, b)
        ensures IsGcd(h, a1, b)
      {
        GcdSwap(h, a, b);
        GcdRemainder(h, b, a1);
        GcdSwap(h, b, a1);
      }
    }
  }

  /** What the common divisor of the reduced numbers says about the given ones. */
  ghost predicate Reduces(a: nat, b: nat, shift: nat, u: nat, v: nat) {
    forall g: nat :: IsGcd(g, a, b) ==> IsGcd(Shl(g, shift), u, v)
  }

  lemma {:induction false} StartReduced(u: nat, v: nat, ku: nat, kv: nat)
    requires TrailingZeros(u, ku) && TrailingZeros(v, kv)
    ensures var shift := if ku < kv then ku else kv;
      Reduces(Shr(u, ku), Shr(v, shift), shift, u, v) && Shl(Shr(v, shift), shift) == v && Shr(v, shift) > 0
  {
    var shift := if ku < kv then ku else kv;
    var a, v' := Shr(u, ku), Shr(v, kv);
    // v is the odd number v' shifted by the shift and more
    ShlTwice(v', kv - shift, shift);
    Ones(shift);
    ShrOf(Shl(v', kv - shift), 0, shift);
    ShlPositive(v', kv - shift);
    var b := Shr(v, shift);
    assert b == Shl(v', kv - shift);
    forall g: nat | IsGcd(g, a, b)
      ensures IsGcd(Shl(g, shift), u, v)
    {
      if shift < ku {
        GcdSwap(g, a, b);
        GcdOddShl(g, b, a, ku - shift);
        GcdSwap(g, b, Shl(a, ku - shift));
        GcdShl(g, Shl(a, ku - shift), b, shift);
        ShlTwice(a, ku - shift, shift);
      } else {
        GcdShl(g, a, b, shift);
      }
    }
  }

  /** One round: b without its factors of two, and the difference of the two. */
  lemma {:induction false} RoundReduces(a: nat, b: nat, k: nat, shift: nat, u: nat, v: nat)
    requires Reduces(a, b, shift, u, v) && a % 2 == 1 && b > 0 && TrailingZeros(b, k)
    ensures var c := Shr(b, k);
      && c % 2 == 1 && c <= b
      && (a <= c ==> Reduces(a, c - a, shift, u, v))
      && (c < a ==> Reduces(c, a - c, shift, u, v))
  {
    var c := Shr(b, k);
    ShrShrinks(b, k);
    forall g: nat | a <= c && IsGcd(g, a, c - a)
      ensures IsGcd(Shl(g, shift), u, v)
    {
      GcdSum(g, a, c - a);
      GcdOddShl(g, a, c, k);
    }
    forall g: nat | c < a && IsGcd(g, c, a - c)
      ensures IsGcd(Shl(g, shift), u, v)
    {
      GcdSum(g, c, a - c);
      GcdSwap(g, c, a);
      GcdOddShl(g, a, c, k);
    }
  }

  lemma {:induction false} Finished(a: nat, shift: nat, u: nat, v: nat)
    requires Reduces(a, 0, shift, u, v)
    ensures IsGcd(Shl(a, shift), u, v)
  {
    GcdZero(a);
  }

  /** The working numbers of the loop. */
  ghost predicate Working(a: Bigint, b: Bigint, shift: nat, u: nat, v: nat)
    reads a, a.words, b, b.words
  {
    && a.Valid() && b.Valid() && Separate(a, b) && !a.neg && !b.neg && a.Mag() % 2 == 1
    && Reduces(a.Mag(), b.Mag(), shift, u, v)
  }

  /** One round of the loop.  The smaller number comes first afterwards. */
  method Round(a0: Bigint, b0: Bigint, ghost shift: nat, ghost u: nat, ghost v: nat) returns (a: Bigint, b: Bigint)
    requires Working(a0, b0, shift, u, v) && b0.Mag() > 0
    modifies a0, a0.words, b0, b0.words
    ensures {a, b} == {a0, b0} && Working(a, b, shift, u, v)
    ensures a.Mag() + b.Mag() < old(a0.Mag() + b0.Mag())
    ensures a0.words == old(a0.words) || fresh(a0.words)
    ensures b0.words == old(b0.words) || fresh(b0.words)
  {
    a, b := a0, b0;
    var k := b.TrailingZeroBits();
    RoundReduces(a.Mag(), b.Mag(), k, shift, u, v);
    b.ShiftRight(b, k);
    var c := a.CompareAbs(b);
    if c > 0 {
      a, b := b, a;
    }
    b.Sub(b, a);
  }

  /** The greatest common divisor of the magnitudes. */
  method Gcd(dst: Bigint, srcA: Bigint, srcB: Bigint)
    requires dst.Valid() && srcA.Valid() && srcB.Valid()
    requires (srcA == dst || srcA.words != dst.words) && (srcB == dst || srcB.words != dst.words)
    modifies dst, dst.words
    ensures dst.Valid() && !dst.neg && IsOnlyGcd(dst.Mag(), old(srcA.Mag()), old(srcB.Mag()))
  {
    ghost var u, v := srcA.Mag(), srcB.Mag();
    srcA.SizeZero();
    srcB.SizeZero();
    GcdZero(u);
    GcdZero(v);
    if srcA.size == 0 {
      GcdSwap(v, v, 0);
      dst.Copy(srcB);
      dst.neg := false;
    } else if srcB.size == 0 {
      dst.Copy(srcA);
      dst.neg := false;
    } else if srcA.size == 1 && srcB.size == 1 {
      var word := WordGcd(srcA.words[0], srcB.words[0]);
      dst.FromWord(word);
    } else {
      BinaryGcd(dst, srcA, srcB);
    }
    OnlyGcd(dst.Mag(), u, v);
  }

  method BinaryGcd(dst: Bigint, srcA: Bigint, srcB: Bigint)
    requires dst.Valid() && srcA.Valid() && srcB.Valid() && srcA.Mag() > 0 && srcB.Mag() > 0
    requires (srcA == dst || srcA.words != dst.words) && (srcB == dst || srcB.words != dst.words)
    modifies dst, dst.words
    ensures dst.Valid() && !dst.neg && IsGcd(dst.Mag(), old(srcA.Mag()), old(srcB.Mag()))
  {
    ghost var u, v := srcA.Mag(), srcB.Mag();
    var a, b, shift := WithoutTwos(srcA, srcB);
    Subtract(dst, a, b, shift, u, v);
  }

  /** The first number without its factors of two, the second without the common ones. */
  method WithoutTwos(srcA: Bigint, srcB: Bigint) returns (a: Bigint, b: Bigint, shift: nat)
    requires srcA.Valid() && srcB.Valid() && srcA.Mag() > 0 && srcB.Mag() > 0
    ensures fresh(a) && fresh(b) && fresh(a.words) && fresh(b.words)
    ensures Working(a, b, shift, srcA.Mag(), srcB.Mag()) && b.Mag() > 0
  {
    var shiftA := srcA.TrailingZeroBits();
    var shiftB := srcB.TrailingZeroBits();
    shift := if shiftA < shiftB then shiftA else shiftB;
    StartReduced(srcA.Mag(), srcB.Mag(), shiftA, shiftB);
    a := Shifted(srcA, shiftA);
    b := Shifted(srcB, shift);
  }

  method Shifted(src: Bigint, shift: nat) returns (a: Bigint)
    requires src.Valid() && shift / 32 < src.size
    ensures fresh(a) && fresh(a.words) && a.Valid() && !a.neg && a.Mag() == Shr(src.Mag(), shift)
  {
    a := new Bigint();
    a.ShiftRight(src, shift);
    a.neg := false;
  }

  /** Rounds until the second number is zero; the first is then the result, up to the
      common factors of two. */
  method Subtract(dst: Bigint, a0: Bigint, b0: Bigint, shift: nat, ghost u: nat, ghost v: nat)
    requires dst.Valid() && Working(a0, b0, shift, u, v) && b0.Mag() > 0 && Separate(dst, a0) && Separate(dst, b0)
    modifies dst, dst.words, a0, a0.words, b0, b0.words
    ensures dst.Valid() && !dst.neg && IsGcd(dst.Mag(), u, v)
  {
    var a, b := a0, b0;
    var more := true;
    while more
      invariant {a, b} == {a0, b0} && Working(a, b, shift, u, v) && (more ==> b.Mag() > 0) && (!more ==> b.Mag() == 0)
      invariant a0.words == old(a0.words) || fresh(a0.words)
      invariant b0.words == old(b0.words) || fresh(b0.words)
      invariant dst.Valid() && dst.words == old(dst.words)
      decreases a.Mag() + b.Mag(), more
    {
      a, b := Round(a, b, shift, u, v);
      b.SizeZero();
      more := b.size != 0;
    }
    Finished(a.Mag(), shift, u, v);
    dst.ShiftLeft(a, shift);
  }
}
