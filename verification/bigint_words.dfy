/**
  Arithmetic on single words, with every operation wrapping at 32 bits.
*/
module BigintWords {
  import opened Arith
  import opened BigintValue

  const HALF: nat := 0x1_0000

  function Wrap(x: int): Word { x % BASE }

  function LoHalf(a: Word): Word { a % HALF }
  function HiHalf(a: Word): Word { a / HALF }

  function MulLo(a: Word, b: Word): Word { Wrap(a * b) }

  /** The high word of a product, from the products of halves. */
  function MulHi(a: Word, b: Word): Word {
    var c0 := Wrap(LoHalf(a) * LoHalf(b));
    var c1 := Wrap(LoHalf(a) * HiHalf(b));
    var c2 := Wrap(HiHalf(a) * LoHalf(b));
    var c3 := Wrap(HiHalf(a) * HiHalf(b));
    var c4 := Wrap(HiHalf(c0) + LoHalf(c1) + LoHalf(c2));
    Wrap(HiHalf(c4) + HiHalf(c1) + HiHalf(c2) + c3)
  }

  lemma {:induction false} HalfProduct(x: nat, y: nat)
    requires x < HALF && y < HALF
    ensures x * y <= (HALF - 1) * (HALF - 1) && Wrap(x * y) == x * y
  {
    MulMonotone(x, y, HALF - 1);
    MulMonotone(HALF - 1, x, HALF - 1);
    DivModUnique(x * y, BASE, 0, x * y);
  }

  lemma {:induction false} HalvesProduct(al: nat, ah: nat, bl: nat, bh: nat)
    ensures (al + HALF * ah) * (bl + HALF * bh) == al * bl + HALF * (al * bh) + HALF * (ah * bl) + BASE * (ah * bh)
  {
    calc {
      (al + HALF * ah) * (bl + HALF * bh);
      al * (bl + HALF * bh) + HALF * (ah * (bl + HALF * bh));
      { assert al * (bl + HALF * bh) == al * bl + HALF * (al * bh);
        assert ah * (bl + HALF * bh) == ah * bl + HALF * (ah * bh); }
      al * bl + HALF * (al * bh) + HALF * (ah * bl) + BASE * (ah * bh);
    }
  }

  lemma {:induction false} ProductBound(a: Word, b: Word)
    ensures 0 <= a * b <= (BASE - 1) * (BASE - 1)
  {
    MulMonotone(a, b, BASE - 1);
    MulMonotone(BASE - 1, a, BASE - 1);
    MulMonotone(a, 0, b);
  }

  lemma {:induction false} ExpandProduct(a: Word, b: Word)
    ensures a * b ==
      LoHalf(a) * LoHalf(b) + HALF * (LoHalf(a) * HiHalf(b)) + HALF * (HiHalf(a) * LoHalf(b)) + BASE * (HiHalf(a) * HiHalf(b))
  {
    var al, ah, bl, bh := LoHalf(a), HiHalf(a), LoHalf(b), HiHalf(b);
    assert a == al + HALF * ah && b == bl + HALF * bh;
    HalvesProduct(al, ah, bl, bh);
  }

  /** Low and high word together are the whole product. */
  lemma {:induction false} WholeProduct(a: Word, b: Word)
    ensures a * b == MulHi(a, b) * BASE + MulLo(a, b)
    ensures MulHi(a, b) <= BASE - 2
  {
    HalfProduct(LoHalf(a), LoHalf(b));
    HalfProduct(LoHalf(a), HiHalf(b));
    HalfProduct(HiHalf(a), LoHalf(b));
    HalfProduct(HiHalf(a), HiHalf(b));
    ExpandProduct(a, b);
    ProductBound(a, b);
    Assemble(a * b, LoHalf(a) * LoHalf(b), LoHalf(a) * HiHalf(b), HiHalf(a) * LoHalf(b), HiHalf(a) * HiHalf(b));
  }

  lemma {:induction false} Assemble(p: nat, c0: Word, c1: Word, c2: Word, c3: Word)
    requires p == c0 + HALF * c1 + HALF * c2 + BASE * c3 && p <= (BASE - 1) * (BASE - 1)
    ensures var c4 := Wrap(HiHalf(c0) + LoHalf(c1) + LoHalf(c2));
      var hi := Wrap(HiHalf(c4) + HiHalf(c1) + HiHalf(c2) + c3);
      p == hi * BASE + Wrap(p) && hi <= BASE - 2
  {
    var c4 := HiHalf(c0) + LoHalf(c1) + LoHalf(c2);
    assert c0 == LoHalf(c0) + HALF * HiHalf(c0);
    assert c1 == LoHalf(c1) + HALF * HiHalf(c1);
    assert c2 == LoHalf(c2) + HALF * HiHalf(c2);
    var hi := c4 / HALF + HiHalf(c1) + HiHalf(c2) + c3;
    var lo := LoHalf(c0) + HALF * (c4 % HALF);
    assert p == BASE * hi + lo;
    DivModUnique(p, BASE, hi, lo);
    assert hi <= BASE - 2;
  }

  /** Sum and carry. */
  function AddGetCarry(a: Word, b: Word): (r: (Word, Word))
    ensures r.0 + BASE * r.1 == a + b && r.1 <= 1
  {
    var sum := Wrap(a + b);
    (sum, if sum < b then 1 else 0)
  }

  /** Difference and borrow. */
  function SubGetCarry(a: Word, b: Word): (r: (Word, Word))
    ensures r.0 + b == a + BASE * r.1 && r.1 <= 1
  {
    var dif := Wrap(a - b);
    (dif, if dif > a then 1 else 0)
  }

  /** One step of multiplying by a word and accumulating: the carry stays a word. */
  lemma {:induction false} MulAccumulate(src: Word, factor: Word, acc: Word, carry: Word)
    ensures var s := AddGetCarry(MulLo(src, factor), carry);
      var t := AddGetCarry(acc, s.0);
      && s.1 + MulHi(src, factor) + t.1 < BASE
      && t.0 + BASE * (s.1 + MulHi(src, factor) + t.1) == acc + src * factor + carry
      && s.0 + BASE * (s.1 + MulHi(src, factor)) == src * factor + carry
  {
    WholeProduct(src, factor);
    var s := AddGetCarry(MulLo(src, factor), carry);
    var t := AddGetCarry(acc, s.0);
    ProductBound(src, factor);
    var c := s.1 + MulHi(src, factor) + t.1;
    assert t.0 + BASE * c == acc + src * factor + carry;
    assert BASE * c <= (BASE - 1) * (BASE - 1) + 2 * (BASE - 1);
  }
}
