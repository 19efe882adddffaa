/**
  Signed numbers of any length: a buffer of words, the number of words in use, and
  a sign.
*/
module BigintObject {
  import opened Arith
  import opened RoundUp
  import opened Bits
  import opened BigintValue
  import opened BigintRaw
  import opened BigintMul
  import opened BigintKaratsuba
  import opened BigintShift

  function Signed(neg: bool, mag: nat): int { if neg then 0 - mag else mag }

  class Bigint {
    var words: array<Word>
    var neg: bool
    var size: nat

    /** The words in use have no leading zero. */
    ghost predicate Valid()
      reads this, words
    {
      size <= words.Length && (size > 0 ==> words[size - 1] != 0)
    }

    ghost function Mag(): nat
      requires Valid()
      reads this, words
    {
      Num(words[..], 0, size)
    }

    ghost function Value(): int
      requires Valid()
      reads this, words
    {
      Signed(neg, Mag())
    }

    constructor ()
      ensures Valid() && Value() == 0 && size == 0 && !neg && fresh(words)
    {
      words := new Word[0];
      neg := false;
      size := 0;
    }

    /** Make room for more words, keeping the ones there are. */
    method Reserve(capacity: nat)
      requires Valid()
      modifies this`words
      ensures Valid() && Mag() == old(Mag()) && words.Length >= capacity && words.Length >= old(words.Length)
      ensures words == old(words) || fresh(words)
    {
      if words.Length >= capacity {
        return;
      }
      var bigger := new Word[capacity];
      Transfer(bigger, words);
      NumSame(words[..], 0, bigger[..], 0, size);
      words := bigger;
    }

    /** Become a word. */
    method FromWord(a: Word)
      requires Valid()
      modifies this, words
      ensures Valid() && Value() == a && !neg && size <= 1
      ensures words == old(words) || fresh(words)
    {
      Reserve(1);
      words[0] := a;
      size := Truncate(words, 0, 1);
      neg := false;
    }

    /** Become a copy of another number. */
    method Copy(src: Bigint)
      requires Valid() && src.Valid() && (src == this || src.words != words)
      modifies this, words
      ensures Valid() && Mag() == old(src.Mag()) && neg == old(src.neg) && size == old(src.size)
      ensures words == old(words) || fresh(words)
    {
      if src == this {
        return;
      }
      Reserve(src.size);
      BigintRaw.Copy(words, 0, src.words, 0, src.size);
      size := src.size;
      neg := src.neg;
    }

    // ---------- Comparing ----------

    method CompareAbs(b: Bigint) returns (c: int)
      requires Valid() && b.Valid()
      ensures c < 0 <==> Mag() < b.Mag()
      ensures c == 0 <==> Mag() == b.Mag()
    {
      c := CmpAbs(words, 0, size, b.words, 0, b.size, Mag(), b.Mag());
    }

    lemma {:induction false} SizeZero()
      requires Valid()
      ensures size == 0 <==> Mag() == 0
      ensures size > 0 ==> Pow(size - 1) <= Mag() < Pow(size)
    {
      NumBound(words[..], 0, size);
      if size > 0 {
        NumberTop(words[..], 0, size, Mag());
      }
    }

    // ---------- Shifting ----------

    method ShiftLeft(src: Bigint, shift: nat)
      requires Valid() && src.Valid() && (src == this || src.words != words)
      modifies this, words
      ensures Valid() && Mag() == Shl(old(src.Mag()), shift) && neg == old(src.neg)
      ensures words == old(words) || fresh(words)
    {
      Reserve(src.size + shift / 32 + if shift % 32 != 0 then 1 else 0);
      size := BigintShift.ShiftLeft(words, src.words, src.size, shift);
      neg := src.neg;
    }

    method ShiftRight(src: Bigint, shift: nat)
      requires Valid() && src.Valid() && (src == this || src.words != words)
      requires shift % 32 != 0 ==> shift / 32 < src.size
      modifies this, words
      ensures Valid() && Mag() == Shr(old(src.Mag()), shift) && neg == old(src.neg)
      ensures words == old(words) || fresh(words)
    {
      Reserve(src.size);
      size := BigintShift.ShiftRight(words, src.words, src.size, shift);
      neg := src.neg;
    }

    method BitLength() returns (n: nat)
      requires Valid()
      ensures HasBits(Mag(), n)
    {
      n := BitLengthOf(words, size, Mag());
    }

    method TrailingZeroBits() returns (k: nat)
      requires Valid()
      ensures Mag() != 0 ==> TrailingZeros(Mag(), k) && k / 32 < size
    {
      k := CountTrailingZeros(words, size);
    }

    // ---------- Adding and subtracting ----------

    /** The sum of two numbers under the given signs. */
    method AddSigned(a: Bigint, aNeg: bool, b: Bigint, bNeg: bool)
      requires Valid() && a.Valid() && b.Valid()
      requires (a == this || a.words != words) && (b == this || b.words != words)
      modifies this, words
      ensures Valid() && Value() == old(Signed(aNeg, a.Mag()) + Signed(bNeg, b.Mag()))
      ensures aNeg == bNeg || old(a.Mag() >= b.Mag()) ==> neg == aNeg
      ensures words == old(words) || fresh(words)
    {
      var na, nb := a.size, b.size;
      ghost var u, v := a.Mag(), b.Mag();
      Reserve(Max(na, nb) + 1);
      size, neg := RawAddSigned(words, a.words, na, aNeg, b.words, nb, bNeg, u, v);
    }

    method Add(a: Bigint, b: Bigint)
      requires Valid() && a.Valid() && b.Valid()
      requires (a == this || a.words != words) && (b == this || b.words != words)
      modifies this, words
      ensures Valid() && Value() == old(a.Value() + b.Value())
      ensures words == old(words) || fresh(words)
    {
      AddSigned(a, a.neg, b, b.neg);
    }

    method Sub(a: Bigint, b: Bigint)
      requires Valid() && a.Valid() && b.Valid()
      requires (a == this || a.words != words) && (b == this || b.words != words)
      modifies this, words
      ensures Valid() && Value() == old(a.Value() - b.Value())
      ensures old(a.neg == b.neg && a.Mag() >= b.Mag()) ==> neg == old(a.neg)
      ensures words == old(words) || fresh(words)
    {
      AddSigned(a, a.neg, b, !b.neg);
    }

    // ---------- Multiplying ----------

    /** The product; any of the three numbers may be the same. */
    method Mul(a: Bigint, b: Bigint)
      requires Valid() && a.Valid() && b.Valid()
      requires (a == this || a.words != words) && (b == this || b.words != words)
      modifies this, words
      ensures Valid() && Value() == old(a.Value() * b.Value()) && neg == old(a.neg != b.neg)
      ensures words == old(words) || fresh(words)
    {
      ghost var u, v := a.Mag(), b.Mag();
      var na, nb := a.size, b.size;
      var n := na + nb;
      var sign := a.neg != b.neg;
      SignedProduct(a.neg, u, b.neg, v);
      Reserve(n);
      if this != a && this != b && na < THRESHOLD && nb < THRESHOLD {
        size := ShortProduct(words, a.words, na, b.words, nb);
      } else {
        size := LongProduct(words, a.words, na, b.words, nb);
      }
      neg := sign;
    }

    // ---------- Single bits ----------

    method GetBit(index: nat) returns (bit: nat)
      requires Valid()
      ensures bit == Shr(Mag(), index) % 2
    {
      var i := index / 32;
      if size <= i {
        BitAbove(words[..], size, index);
        return 0;
      }
      bit := WordShr(words[i], index % 32) % 2;
      BitAt(words[..], size, i, index % 32);
    }

    /** Set a bit. */
    method SetBit(index: nat)
      requires Valid()
      modifies this, words
      ensures Valid() && neg == old(neg)
      ensures Mag() == old(Mag()) + if Shr(old(Mag()), index) % 2 == 0 then Shl(1, index) else 0
      ensures words == old(words) || fresh(words)
    {
      var i := index / 32;
      ghost var v := Mag();
      Extend(i + 1);
      BitAt(words[..], size, i, index % 32);
      BitAdded(words[..], size, i, index % 32);
      ghost var s := words[..];
      words[i] := Or(words[i], Shl(1, index % 32));
      assert words[..] == s[i := words[i]];
    }

    /** Zero words up to n, in use but perhaps leading. */
    method Extend(n: nat)
      requires Valid()
      modifies this, words
      ensures Max(old(size), n) == size <= words.Length && Num(words[..], 0, size) == old(Mag()) && neg == old(neg)
      ensures size > n ==> words[size - 1] != 0
      ensures words == old(words) || fresh(words)
    {
      Reserve(n);
      ghost var s0, size0 := words[..], size;
      Zero(words, size, n);
      size := Max(size, n);
      ZeroExtended(s0, words[..], size0, n);
    }
  }

  // ---------- Facts about values ----------

  method RawAddSigned(dst: array<Word>, a: array<Word>, na: nat, aNeg: bool, b: array<Word>, nb: nat, bNeg: bool,
                      ghost u: nat, ghost v: nat) returns (n: nat, neg: bool)
    requires Number(a[..], 0, na, u) && Number(b[..], 0, nb, v) && Max(na, nb) + 1 <= dst.Length
    modifies dst
    ensures n <= dst.Length && (n > 0 ==> dst[n - 1] != 0)
    ensures Signed(neg, Num(dst[..], 0, n)) == Signed(aNeg, u) + Signed(bNeg, v)
    ensures aNeg == bNeg || u >= v ==> neg == aNeg
  {
    if aNeg == bNeg {
      SumBound(a[..], na, b[..], nb);
      neg := aNeg;
      if na >= nb {
        n := BigintRaw.Add(dst, 0, Max(na, nb) + 1, a, 0, na, b, 0, nb);
      } else {
        n := BigintRaw.Add(dst, 0, Max(na, nb) + 1, b, 0, nb, a, 0, na);
      }
    } else {
      var c := CmpAbs(a, 0, na, b, 0, nb, u, v);
      if c >= 0 {
        LengthFollows(a[..], 0, na, u, b[..], 0, nb, v);
        neg := aNeg;
        n := BigintRaw.Sub(dst, 0, a, 0, na, b, 0, nb);
      } else {
        LengthFollows(b[..], 0, nb, v, a[..], 0, na, u);
        neg := bNeg;
        n := BigintRaw.Sub(dst, 0, b, 0, nb, a, 0, na);
      }
    }
  }

  method ShortProduct(dst: array<Word>, a: array<Word>, na: nat, b: array<Word>, nb: nat) returns (n: nat)
    requires na <= a.Length && nb <= b.Length && na + nb <= dst.Length && dst != a && dst != b
    modifies dst
    ensures Number(dst[..], 0, n, Times(Num(a[..], 0, na), Num(b[..], 0, nb)))
  {
    Zero(dst, 0, na + nb);
    n := MulAdd(dst, 0, a, 0, na, b, 0, nb);
  }

  /** Through a buffer that holds the product and the scratch space. */
  method LongProduct(dst: array<Word>, a: array<Word>, na: nat, b: array<Word>, nb: nat) returns (n: nat)
    requires na <= a.Length && nb <= b.Length && na + nb <= dst.Length
    modifies dst
    ensures Number(dst[..], 0, n, Times(Num(old(a[..]), 0, na), Num(old(b[..]), 0, nb)))
  {
    var tmp := new Word[Max(na, nb) * 11 + 180 + (na + nb)];
    ScratchBound(Max(na, nb));
    n := Karatsuba(tmp, 0, na + nb, a, 0, na, b, 0, nb);
    BigintRaw.Copy(dst, 0, tmp, 0, n);
  }

  method Transfer(dst: array<Word>, src: array<Word>)
    requires src.Length <= dst.Length && dst != src
    modifies dst
    ensures forall i :: 0 <= i < src.Length ==> dst[i] == src[i]
  {
    var i := 0;
    while i < src.Length
      invariant 0 <= i <= src.Length && forall k :: 0 <= k < i ==> dst[k] == src[k]
    {
      dst[i] := src[i];
      i := i + 1;
    }
  }

  lemma {:induction false} SumBound(s: seq<Word>, n: nat, t: seq<Word>, m: nat)
    requires n <= |s| && m <= |t|
    ensures Num(s, 0, n) + Num(t, 0, m) < Pow(Max(n, m) + 1)
  {
    NumBound(s, 0, n);
    NumBound(t, 0, m);
    PowGrows(n, Max(n, m));
    PowGrows(m, Max(n, m));
  }

  lemma {:induction false} SignedProduct(aNeg: bool, u: nat, bNeg: bool, v: nat)
    ensures Signed(aNeg != bNeg, Times(u, v)) == Signed(aNeg, u) * Signed(bNeg, v)
  {
    TimesIs(u, v);
  }

  lemma {:induction false} ZeroExtended(s: seq<Word>, t: seq<Word>, m: nat, n: nat)
    requires |t| == |s| && Max(m, n) <= |s| && forall i :: 0 <= i < |s| ==> t[i] == if m <= i < n then 0 else s[i]
    ensures Num(t, 0, Max(m, n)) == Num(s, 0, m)
  {
    NumSame(s, 0, t, 0, m);
    NumShort(t, 0, Max(m, n), m);
  }

  lemma {:induction false} BitAbove(s: seq<Word>, n: nat, index: nat)
    requires n <= |s| && n <= index / 32
    ensures Shr(Num(s, 0, n), index) == 0
  {
    NumBound(s, 0, n);
    PowIsPow2(n);
    PowMonotone(32 * n, index);
    ShrToZero(Num(s, 0, n), index);
  }

  /** Bit k of word i is bit k + 32 i of the number. */
  lemma {:induction false} BitAt(s: seq<Word>, n: nat, i: nat, k: nat)
    requires i < n <= |s| && k < 32
    ensures Shr(Num(s, 0, n), k + 32 * i) % 2 == Shr(s[i], k) % 2
  {
    DropWords(s, n, i, k);
    var rest := Num(s, i + 1, n - i - 1);
    ShlBase(rest);
    ShlTwice(rest, 32 - k, k);
    var r := ShrSplit(s[i], k);
    ShlAdd(Shr(s[i], k), Shl(rest, 32 - k), k);
    ShrOf(Shr(s[i], k) + Shl(rest, 32 - k), r, k);
    SameParity(Shr(s[i], k), Shl(rest, 31 - k));
  }

  lemma {:induction false} SameParity(a: nat, b: nat)
    ensures (a + 2 * b) % 2 == a % 2
  {
  }

  /** Or-ing in a clear bit adds it. */
  lemma {:induction false} OrBit(w: nat, k: nat)
    requires Shr(w, k) % 2 == 0
    ensures Or(w, Shl(1, k)) == w + Shl(1, k)
    decreases k
  {
    if k == 0 {
      OrZero(w / 2);
    } else {
      OrBit(w / 2, k - 1);
    }
  }

  lemma {:induction false} BitAdded(s: seq<Word>, n: nat, i: nat, k: nat)
    requires i < n <= |s| && k < 32
    ensures var w := Or(s[i], Shl(1, k));
      && 0 < w < BASE
      && Num(s[i := w], 0, n) == Num(s, 0, n) + if Shr(s[i], k) % 2 == 0 then Shl(1, k + 32 * i) else 0
  {
    ShlOne(k);
    if Shr(s[i], k) % 2 == 0 {
      OrBit(s[i], k);
      BitFits(s[i], k);
      WordAdded(s, n, i, Shl(1, k));
      UpIsShl(Shl(1, k), i);
      ShlTwice(1, k, 32 * i);
    } else {
      OrSetBit(s[i], k);
      assert s[i := s[i]] == s;
      TopBit(s[i], k);
    }
  }

  lemma {:induction false} OrSetBit(w: nat, k: nat)
    requires Shr(w, k) % 2 == 1
    ensures Or(w, Shl(1, k)) == w
    decreases k
  {
    if k == 0 {
      OrZero(w / 2);
    } else {
      OrSetBit(w / 2, k - 1);
    }
  }

  lemma {:induction false} WordAdded(s: seq<Word>, n: nat, i: nat, v: nat)
    requires i < n <= |s| && s[i] + v < BASE
    ensures Num(s[i := s[i] + v], 0, n) == Num(s, 0, n) + Up(v, i)
  {
    var t := s[i := s[i] + v];
    NumSplit(s, 0, n, i);
    NumSplit(t, 0, n, i);
    NumSame(s, 0, t, 0, i);
    NumSame(s, i + 1, t, i + 1, n - i - 1);
    UpAdd(Num(s, i, n - i), v, i);
  }

  /** A word whose bit k is clear has room for it. */
  lemma {:induction false} BitFits(w: Word, k: nat)
    requires k < 32 && Shr(w, k) % 2 == 0
    ensures w + Shl(1, k) < BASE
  {
    var r := ShrSplit(w, k);
    var q := Shr(w, k);
    BaseIsPower();
    ShlAdd(q, 1, k);
    ShlOne(k);
    ShlTwice(1, 32 - k, k);
    ShlOne(32);
    ShlOne(32 - k);
    // q is even and below 2^(32-k), so q + 1 is below it too
    ShlMonotone(Pow2(32 - k), q, k);
    assert q < Pow2(32 - k);
    assert Pow2(32 - k) == 2 * Pow2(31 - k);
    ShlMonotone(q + 1, Pow2(32 - k), k);
  }
}
