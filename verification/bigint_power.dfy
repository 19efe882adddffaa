/**
  Modular powers by squaring.
*/
module BigintPower {
  import opened Arith
  import opened RoundUp
  import opened BigintValue
  import opened BigintObject
  import opened BigintDivision

  function IntPow(b: int, e: nat): int
    decreases e
  {
    if e == 0 then 1 else b * IntPow(b, e - 1)
  }

  /** x and y differ by a multiple of m. */
  ghost predicate Congruent(x: int, y: int, m: nat) { exists k: int :: x - y == m * k }

  lemma {:induction false} CongruentSelf(x: int, m: nat)
    ensures Congruent(x, x, m)
  {
    assert x - x == m * 0;
  }

  lemma {:induction false} CongruentTwice(x: int, y: int, z: int, m: nat)
    requires Congruent(x, y, m) && Congruent(y, z, m)
    ensures Congruent(x, z, m)
  {
    var j: int :| x - y == m * j;
    var k: int :| y - z == m * k;
    assert x - z == m * (j + k);
  }

  lemma {:induction false} CongruentScaled(x: int, y: int, z: int, m: nat)
    requires Congruent(x, y, m)
    ensures Congruent(x * z, y * z, m) && Congruent(z * x, z * y, m)
  {
    var k: int :| x - y == m * k;
    assert (x - y) * z == m * k * z;
    assert x * z - y * z == m * (k * z);
    assert z * x - z * y == m * (k * z);
  }

  lemma {:induction false} CongruentProduct(x: int, y: int, u: int, v: int, m: nat)
    requires Congruent(x, y, m) && Congruent(u, v, m)
    ensures Congruent(x * u, y * v, m)
  {
    CongruentScaled(x, y, u, m);
    CongruentScaled(u, v, y, m);
    CongruentTwice(x * u, y * u, y * v, m);
  }

  lemma {:induction false} CongruentPow(x: int, y: int, e: nat, m: nat)
    requires Congruent(x, y, m)
    ensures Congruent(IntPow(x, e), IntPow(y, e), m)
    decreases e
  {
    if e == 0 {
      CongruentSelf(1, m);
    } else {
      CongruentPow(x, y, e - 1, m);
      CongruentProduct(x, y, IntPow(x, e - 1), IntPow(y, e - 1), m);
    }
  }

  lemma {:induction false} PowSquared(b: int, e: nat)
    ensures IntPow(b * b, e) == IntPow(b, 2 * e)
    decreases e
  {
    if e > 0 {
      PowSquared(b, e - 1);
      assert IntPow(b, 2 * e) == b * (b * IntPow(b, 2 * e - 2));
      assert b * b * IntPow(b, 2 * e - 2) == b * (b * IntPow(b, 2 * e - 2));
    }
  }

  /** What is left to multiply gives the power. */
  ghost predicate Powering(d: int, b: int, e: nat, goal: int, m: nat) {
    Congruent(d * IntPow(b, e), goal, m)
  }

  lemma {:induction false} PowerStep(d: int, b: int, e: nat, d': int, b': int, goal: int, m: nat)
    requires Powering(d, b, e, goal, m) && Congruent(b', b * b, m)
    requires Congruent(d', if e % 2 == 1 then d * b else d, m)
    ensures Powering(d', b', e / 2, goal, m)
  {
    var h := e / 2;
    CongruentPow(b', b * b, h, m);
    PowSquared(b, h);
    var f := if e % 2 == 1 then d * b else d;
    CongruentProduct(d', f, IntPow(b', h), IntPow(b, 2 * h), m);
    if e % 2 == 1 {
      assert IntPow(b, e) == b * IntPow(b, 2 * h);
      assert d * b * IntPow(b, 2 * h) == d * (b * IntPow(b, 2 * h));
    }
    CongruentTwice(d' * IntPow(b', h), d * IntPow(b, e), goal, m);
  }

  lemma {:induction false} RemainderCongruent(neg: bool, n: nat, m: nat, q: nat, r: nat)
    requires IsQuotient(n, m, q, r)
    ensures Congruent(Signed(neg, r), Signed(neg, n), m)
  {
    TimesIs(q, m);
    var k: int := if neg then q else 0 - q;
    assert Signed(neg, r) - Signed(neg, n) == m * k;
  }

  /** out = a * b modulo the modulus, truncated toward zero. */
  method MulMod(out: Bigint, a: Bigint, b: Bigint, modulus: Bigint)
    requires out.Valid() && a.Valid() && b.Valid() && modulus.Valid() && modulus.Mag() > 0
    requires (a == out || a.words != out.words) && (b == out || b.words != out.words) && Separate(out, modulus)
    modifies out, out.words
    ensures out.Valid() && out.Mag() < modulus.Mag()
    ensures Congruent(out.Value(), old(a.Value() * b.Value()), modulus.Mag())
    ensures out.neg == old(a.neg != b.neg)
    ensures out.words == old(out.words) || fresh(out.words)
  {
    var tmp := new Bigint();
    var unused := new Bigint();
    tmp.Mul(a, b);
    var ok := DivMod(unused, out, tmp, modulus);
    RemainderCongruent(tmp.neg, tmp.Mag(), modulus.Mag(), unused.Mag(), out.Mag());
  }

  /** The base of the loop. */
  method ReduceBase(srcBase: Bigint, modulus: Bigint) returns (base: Bigint)
    requires srcBase.Valid() && modulus.Valid() && modulus.Mag() > 0
    ensures fresh(base) && fresh(base.words) && base.Valid() && base.neg == srcBase.neg
    ensures Congruent(base.Value(), srcBase.Value(), modulus.Mag())
  {
    base := new Bigint();
    var unused := new Bigint();
    var ok := DivMod(unused, base, srcBase, modulus);
    RemainderCongruent(srcBase.neg, srcBase.Mag(), modulus.Mag(), unused.Mag(), base.Mag());
  }

  method CopyOf(src: Bigint) returns (copy: Bigint)
    requires src.Valid()
    ensures fresh(copy) && fresh(copy.words) && copy.Valid() && copy.Mag() == src.Mag() && copy.neg == src.neg
  {
    copy := new Bigint();
    copy.Copy(src);
  }

  /** The remainder of a number that is not negative is its residue. */
  lemma {:induction false} ResidueIs(x: int, goal: int, m: nat)
    requires m > 0 && Congruent(x, goal, m) && 0 <= x < m
    ensures x == goal % m
  {
    var k: int :| x - goal == m * k;
    assert goal == m * (-k) + x;
    DivModUnique(goal, m, -k, x);
  }

  ghost predicate Multiplying(dst: Bigint, base: Bigint, exponent: Bigint, modulus: Bigint, goal: int, m: nat, sign: bool)
    reads dst, dst.words, base, base.words, exponent, exponent.words, modulus, modulus.words
  {
    && dst.Valid() && base.Valid() && exponent.Valid() && modulus.Valid() && modulus.Mag() == m > 0
    && Separate(dst, base) && Separate(dst, exponent) && Separate(dst, modulus)
    && Separate(base, exponent) && Separate(base, modulus) && Separate(exponent, modulus)
    && Powering(dst.Value(), base.Value(), exponent.Mag(), goal, m)
    && dst.neg == (sign != (base.neg && exponent.Mag() % 2 == 1))
  }

  /** Multiply dst by base if the bit is set, and square base. */
  method MultiplyAndSquare(dst: Bigint, base: Bigint, modulus: Bigint, bit: nat)
    requires dst.Valid() && base.Valid() && modulus.Valid() && modulus.Mag() > 0
    requires Separate(dst, base) && Separate(dst, modulus) && Separate(base, modulus)
    modifies dst, dst.words, base, base.words
    ensures dst.Valid() && base.Valid() && Separate(dst, base)
    ensures dst.words == old(dst.words) || fresh(dst.words)
    ensures base.words == old(base.words) || fresh(base.words)
    ensures Congruent(dst.Value(), old(if bit != 0 then dst.Value() * base.Value() else dst.Value()), modulus.Mag())
    ensures Congruent(base.Value(), old(base.Value() * base.Value()), modulus.Mag())
    ensures dst.neg == old(dst.neg != (bit != 0 && base.neg)) && !base.neg
    ensures if bit != 0 then dst.Mag() < modulus.Mag() else dst.Mag() == old(dst.Mag())
  {
    CongruentSelf(dst.Value(), modulus.Mag());
    if bit != 0 {
      MulMod(dst, dst, base, modulus);
    }
    MulMod(base, base, base, modulus);
  }

  /** One round of squaring and multiplying. */
  method PowerRound(dst: Bigint, base: Bigint, exponent: Bigint, modulus: Bigint, ghost goal: int, ghost m: nat, ghost sign: bool)
    requires Multiplying(dst, base, exponent, modulus, goal, m, sign) && exponent.Mag() > 0
    modifies dst, dst.words, base, base.words, exponent, exponent.words
    ensures Multiplying(dst, base, exponent, modulus, goal, m, sign)
    ensures exponent.Mag() == old(exponent.Mag()) / 2
    ensures dst.words == old(dst.words) || fresh(dst.words)
    ensures base.words == old(base.words) || fresh(base.words)
    ensures exponent.words == old(exponent.words) || fresh(exponent.words)
    ensures if old(exponent.Mag()) % 2 == 1 then dst.Mag() < m else dst.Mag() == old(dst.Mag())
  {
    ghost var d, b, e := dst.Value(), base.Value(), exponent.Mag();
    var bit := exponent.GetBit(0);
    MultiplyAndSquare(dst, base, modulus, bit);
    PowerStep(d, b, e, dst.Value(), base.Value(), goal, m);
    Halve(exponent);
  }

  method Halve(exponent: Bigint)
    requires exponent.Valid() && exponent.Mag() > 0
    modifies exponent, exponent.words
    ensures exponent.Valid() && exponent.Mag() == old(exponent.Mag()) / 2
    ensures exponent.words == old(exponent.words) || fresh(exponent.words)
  {
    ghost var e := exponent.Mag();
    exponent.SizeZero();
    exponent.ShiftRight(exponent, 1);
    assert Shr(e, 1) == e / 2;
  }

  /** The remainder of a division truncated toward zero, as in C. */
  function Remainder(x: int, m: nat): int
    requires m > 0
  {
    if x >= 0 then x % m else -((-x) % m)
  }

  /** What the code leaves: the power's remainder, but one for exponent zero, even if
      the modulus is one. */
  function PowerLeft(b: int, e: nat, m: nat): int
    requires m > 0
  {
    if m == 1 && e == 0 then 1 else Remainder(IntPow(b, e), m)
  }

  /** The modular power. */
  method PowMod(dst: Bigint, srcBase: Bigint, srcExponent: Bigint, srcModulus: Bigint)
    requires dst.Valid() && srcBase.Valid() && srcExponent.Valid() && srcModulus.Valid() && srcModulus.Mag() > 0
    requires srcBase == dst || srcBase.words != dst.words
    requires srcExponent == dst || srcExponent.words != dst.words
    requires srcModulus == dst || srcModulus.words != dst.words
    modifies dst, dst.words
    ensures dst.Valid()
    ensures dst.Value() == PowerLeft(old(srcBase.Value()), old(srcExponent.Mag()), old(srcModulus.Mag()))
  {
    ghost var b0, e, m := srcBase.Value(), srcExponent.Mag(), srcModulus.Mag();
    ghost var sign := srcBase.neg && e % 2 == 1;
    var base, exponent, modulus := Start(dst, srcBase, srcExponent, srcModulus);
    PowerLoop(dst, base, exponent, modulus, IntPow(b0, e), m, e, sign);
    PowerEnds(dst.Value(), base.Value(), b0, m, e, sign);
  }

  method PowerLoop(dst: Bigint, base: Bigint, exponent: Bigint, modulus: Bigint,
                   ghost goal: int, ghost m: nat, ghost e: nat, ghost sign: bool)
    requires Multiplying(dst, base, exponent, modulus, goal, m, sign) && Small(dst.Mag(), exponent.Mag(), e, m)
    modifies dst, dst.words, base, base.words, exponent, exponent.words
    ensures Multiplying(dst, base, exponent, modulus, goal, m, sign) && Small(dst.Mag(), exponent.Mag(), e, m)
    ensures exponent.Mag() == 0
  {
    while exponent.size != 0
      invariant Multiplying(dst, base, exponent, modulus, goal, m, sign) && Small(dst.Mag(), exponent.Mag(), e, m)
      invariant dst.words == old(dst.words) || fresh(dst.words)
      invariant base.words == old(base.words) || fresh(base.words)
      invariant exponent.words == old(exponent.words) || fresh(exponent.words)
      decreases exponent.Mag()
    {
      exponent.SizeZero();
      PowerRound(dst, base, exponent, modulus, goal, m, sign);
    }
    exponent.SizeZero();
  }

  /** The factor found so far is a residue, or still the one it started as. */
  predicate Small(d: nat, left: nat, e: nat, m: nat) {
    && left <= e && (e == 0 ==> d == 1)
    && (d < m || (m == 1 && d == 1 && (left > 0 || e == 0)))
  }

  /** Powers of negative numbers alternate. */
  lemma {:induction false} PowSign(b: int, e: nat)
    ensures b >= 0 || e % 2 == 0 ==> IntPow(b, e) >= 0
    ensures b <= 0 && e % 2 == 1 ==> IntPow(b, e) <= 0
    decreases e
  {
    if e > 0 {
      PowSign(b, e - 1);
      var p := IntPow(b, e - 1);
      if b >= 0 && p >= 0 {
        MulMonotone(b, 0, p);
      } else if b <= 0 && p <= 0 {
        MulMonotone(-b, 0, -p);
        assert (-b) * (-p) == b * p;
      } else {
        MulMonotone(-b, 0, p);
        assert (-b) * p == -(b * p);
      }
    }
  }

  lemma {:induction false} CongruentNegated(x: int, y: int, m: nat)
    requires Congruent(x, y, m)
    ensures Congruent(-x, -y, m)
  {
    var k: int :| x - y == m * k;
    assert -x - -y == m * (-k);
  }

  /** At the end the factor is the power's remainder, sign included. */
  lemma {:induction false} PowerEnds(d: int, b: int, b0: int, m: nat, e: nat, sign: bool)
    requires m > 0 && Powering(d, b, 0, IntPow(b0, e), m) && Small(if d < 0 then -d else d, 0, e, m)
    requires if sign then d <= 0 && b0 <= 0 && e % 2 == 1 else d >= 0 && (b0 >= 0 || e % 2 == 0)
    ensures d == PowerLeft(b0, e, m)
  {
    assert d * 1 == d;
    var goal := IntPow(b0, e);
    PowSign(b0, e);
    if !(m == 1 && e == 0) {
      if sign {
        CongruentNegated(d, goal, m);
        ResidueIs(-d, -goal, m);
      } else {
        ResidueIs(d, goal, m);
      }
    }
  }

  method Prepare(srcBase: Bigint, srcExponent: Bigint, srcModulus: Bigint)
    returns (base: Bigint, exponent: Bigint, modulus: Bigint)
    requires srcBase.Valid() && srcExponent.Valid() && srcModulus.Valid() && srcModulus.Mag() > 0
    ensures base.Valid() && exponent.Valid() && modulus.Valid()
    ensures fresh(base) && fresh(base.words) && fresh(exponent) && fresh(exponent.words) && fresh(modulus) && fresh(modulus.words)
    ensures Separate(base, exponent) && Separate(base, modulus) && Separate(exponent, modulus)
    ensures exponent.Mag() == srcExponent.Mag() && modulus.Mag() == srcModulus.Mag()
    ensures Congruent(base.Value(), srcBase.Value(), modulus.Mag()) && base.neg == srcBase.neg
  {
    exponent := CopyOf(srcExponent);
    modulus := CopyOf(srcModulus);
    base := ReduceBase(srcBase, modulus);
  }

  /** Copy the operands, and then let the result be one. */
  method Start(dst: Bigint, srcBase: Bigint, srcExponent: Bigint, srcModulus: Bigint)
    returns (base: Bigint, exponent: Bigint, modulus: Bigint)
    requires dst.Valid() && srcBase.Valid() && srcExponent.Valid() && srcModulus.Valid() && srcModulus.Mag() > 0
    modifies dst, dst.words
    ensures fresh(base) && fresh(base.words) && fresh(exponent) && fresh(exponent.words) && fresh(modulus) && fresh(modulus.words)
    ensures dst.words == old(dst.words) || fresh(dst.words)
    ensures var b0, e, m := old(srcBase.Value()), old(srcExponent.Mag()), old(srcModulus.Mag());
      && Multiplying(dst, base, exponent, modulus, IntPow(b0, e), m, old(srcBase.neg) && e % 2 == 1)
      && Congruent(base.Value(), b0, m)
      && exponent.Mag() == e && dst.Mag() == 1 && dst.Value() == 1
  {
    ghost var b0, e := srcBase.Value(), srcExponent.Mag();
    base, exponent, modulus := Prepare(srcBase, srcExponent, srcModulus);
    dst.FromWord(1);
    PowerStarts(base.Value(), b0, e, modulus.Mag());
  }

  lemma {:induction false} PowerStarts(b: int, b0: int, e: nat, m: nat)
    requires Congruent(b, b0, m)
    ensures Powering(1, b, e, IntPow(b0, e), m)
  {
    CongruentPow(b, b0, e, m);
    assert 1 * IntPow(b, e) == IntPow(b, e);
  }
}
