/**
  What a buffer of 32-bit words stands for: the sum of its words, word i counting
  2^(32 i).  Multiplying by such a power is written Up, which keeps the solver
  away from products of variables.
*/
module BigintValue {

  const BASE: nat := 0x1_0000_0000

  type Word = x: nat | x < BASE

  // ---------- Moving up by words ----------

  function Pow(n: nat): (p: nat)
    ensures p > 0
  {
    if n == 0 then 1 else BASE * Pow(n - 1)
  }

  /** v moved up by n words. */
  function Up(v: nat, n: nat): nat
    decreases n
  {
    if n == 0 then v else Up(v * BASE, n - 1)
  }

  lemma {:induction false} UpScale(v: nat, n: nat)
    ensures Up(v * BASE, n) == BASE * Up(v, n)
    ensures Up(v, n + 1) == BASE * Up(v, n)
    decreases n
  {
    if n > 0 {
      UpScale(v * BASE, n - 1);
    }
  }

  lemma {:induction false} UpAdd(u: nat, v: nat, n: nat)
    ensures Up(u + v, n) == Up(u, n) + Up(v, n)
    decreases n
  {
    if n > 0 {
      UpAdd(u * BASE, v * BASE, n - 1);
      assert (u + v) * BASE == u * BASE + v * BASE;
    }
  }

  /** One column of a sum, moved to its place. */
  lemma {:induction false} UpColumn(w: nat, c: nat, a: nat, b: nat, carry: nat, i: nat)
    requires w + BASE * c == a + b + carry
    ensures Up(w, i) + Up(c, i + 1) == Up(a, i) + Up(b, i) + Up(carry, i)
  {
    UpAdd(a + b, carry, i);
    UpAdd(a, b, i);
    UpAdd(w, BASE * c, i);
    assert Up(c, i + 1) == Up(c * BASE, i);
  }

  lemma {:induction false} UpTwice(v: nat, m: nat, n: nat)
    ensures Up(Up(v, m), n) == Up(v, m + n)
    decreases m
  {
    if m > 0 {
      UpTwice(v * BASE, m - 1, n);
    }
  }

  lemma {:induction false} UpOne(n: nat)
    ensures Up(1, n) == Pow(n) && Up(0, n) == 0
    decreases n
  {
    if n > 0 {
      UpOne(n - 1);
      UpScale(1, n - 1);
    }
  }

  lemma {:induction false} UpPow(m: nat, n: nat)
    ensures Up(Pow(m), n) == Pow(m + n)
  {
    UpOne(m);
    UpOne(m + n);
    UpTwice(1, m, n);
  }

  lemma {:induction false} UpMonotone(u: nat, v: nat, n: nat)
    ensures u <= v ==> Up(u, n) <= Up(v, n)
    ensures u < v ==> Up(u, n) + Pow(n) <= Up(v, n)
  {
    if u <= v {
      UpAdd(u, v - u, n);
    }
    if u < v {
      UpAdd(1, v - u - 1, n);
      UpOne(n);
    }
  }

  lemma {:induction false} UpBelow(u: nat, v: nat, n: nat)
    requires Up(u, n) < Up(v, n)
    ensures u < v
  {
    UpMonotone(v, u, n);
  }

  lemma {:induction false} PowGrows(i: nat, j: nat)
    requires i <= j
    ensures Pow(i) <= Pow(j)
  {
    if i < j {
      PowGrows(i, j - 1);
    }
  }

  /** The product, likewise. */
  function Times(a: nat, b: nat): nat
    decreases b
  {
    if b == 0 then 0 else Times(a, b - 1) + a
  }

  lemma {:induction false} TimesIs(a: nat, b: nat)
    ensures Times(a, b) == a * b
    decreases b
  {
    if b > 0 {
      TimesIs(a, b - 1);
      assert a * b == a * (b - 1) + a;
    }
  }

  lemma {:induction false} TimesCommute(a: nat, b: nat)
    ensures Times(a, b) == Times(b, a)
  {
    TimesIs(a, b);
    TimesIs(b, a);
  }

  lemma {:induction false} TimesAdd(f: nat, a: nat, b: nat)
    ensures Times(f, a + b) == Times(f, a) + Times(f, b)
    decreases b
  {
    if b > 0 {
      TimesAdd(f, a, b - 1);
      assert a + b - 1 == a + (b - 1);
    }
  }

  lemma {:induction false} TimesAddLeft(a: nat, b: nat, f: nat)
    ensures Times(a + b, f) == Times(a, f) + Times(b, f)
    decreases f
  {
    if f > 0 {
      TimesAddLeft(a, b, f - 1);
    }
  }

  lemma {:induction false} TimesUpLeft(a: nat, b: nat, n: nat)
    ensures Times(Up(a, n), b) == Up(Times(a, b), n)
    decreases b
  {
    if b > 0 {
      TimesUpLeft(a, b - 1, n);
      UpAdd(Times(a, b - 1), a, n);
    } else {
      UpOne(n);
    }
  }

  lemma {:induction false} TimesUp(a: nat, b: nat, n: nat)
    ensures Times(a, Up(b, n)) == Up(Times(a, b), n)
  {
    TimesCommute(a, Up(b, n));
    TimesCommute(a, b);
    TimesUpLeft(b, a, n);
  }

  lemma {:induction false} TimesZero(a: nat)
    ensures Times(a, 0) == 0 && Times(0, a) == 0
  {
    TimesCommute(0, a);
  }

  lemma {:induction false} TimesBound(a: nat, b: nat, m: nat, n: nat)
    requires a < Pow(m) && b < Pow(n)
    ensures Times(a, b) < Pow(m + n)
  {
    TimesAdd(a, b, Pow(n) - b);
    UpOne(n);
    TimesUp(a, 1, n);
    assert Times(a, 1) == Times(a, 0) + a;
    UpMonotone(a, Pow(m), n);
    UpPow(m, n);
  }

  // ---------- Numbers in a buffer ----------

  /** The value of the n words from o on. */
  function Num(s: seq<Word>, o: nat, n: nat): nat
    requires o + n <= |s|
    decreases n
  {
    if n == 0 then 0 else s[o] + BASE * Num(s, o + 1, n - 1)
  }

  /** The number at o has no leading zero word and the value v. */
  predicate Number(s: seq<Word>, o: nat, n: nat, v: nat) {
    o + n <= |s| && Num(s, o, n) == v && (n > 0 ==> s[o + n - 1] != 0)
  }

  predicate ZeroWords(s: seq<Word>, from: nat, to: nat) {
    to <= |s| && forall j :: from <= j < to ==> s[j] == 0
  }

  /** Nothing but the n words from d on has changed. */
  predicate Outside(before: seq<Word>, after: seq<Word>, d: nat, n: nat) {
    |after| == |before| && forall i :: 0 <= i < |before| && !(d <= i < d + n) ==> after[i] == before[i]
  }

  lemma {:induction false} NumSame(s: seq<Word>, o: nat, t: seq<Word>, p: nat, n: nat)
    requires o + n <= |s| && p + n <= |t| && forall i :: o <= i < o + n ==> s[i] == t[i - o + p]
    ensures Num(s, o, n) == Num(t, p, n)
    decreases n
  {
    if n > 0 {
      NumSame(s, o + 1, t, p + 1, n - 1);
    }
  }

  /** A number apart from the changed words stays. */
  lemma {:induction false} NumStays(before: seq<Word>, after: seq<Word>, d: nat, room: nat, o: nat, n: nat)
    requires Outside(before, after, d, room) && o + n <= |before| && (n == 0 || o + n <= d || d + room <= o)
    ensures Num(after, o, n) == Num(before, o, n)
    ensures n > 0 ==> after[o + n - 1] == before[o + n - 1]
  {
    NumSame(before, o, after, o, n);
  }

  lemma {:induction false} NumSplit(s: seq<Word>, o: nat, n: nat, i: nat)
    requires i <= n && o + n <= |s|
    ensures Num(s, o, n) == Num(s, o, i) + Up(Num(s, o + i, n - i), i)
    decreases i
  {
    if i > 0 {
      NumSplit(s, o + 1, n - 1, i - 1);
      UpScale(Num(s, o + i, n - i), i - 1);
    }
  }

  lemma {:induction false} NumSnoc(s: seq<Word>, o: nat, n: nat)
    requires o + n < |s|
    ensures Num(s, o, n + 1) == Num(s, o, n) + Up(s[o + n], n)
  {
    NumSplit(s, o, n + 1, n);
  }

  lemma {:induction false} NumZero(s: seq<Word>, o: nat, n: nat)
    requires ZeroWords(s, o, o + n)
    ensures Num(s, o, n) == 0
    decreases n
  {
    if n > 0 {
      NumZero(s, o + 1, n - 1);
    }
  }

  /** Zero words above do not count. */
  lemma {:induction false} NumShort(s: seq<Word>, o: nat, n: nat, len: nat)
    requires len <= n && ZeroWords(s, o + len, o + n)
    ensures Num(s, o, len) == Num(s, o, n)
  {
    NumSplit(s, o, n, len);
    NumZero(s, o + len, n - len);
    UpOne(len);
  }

  lemma {:induction false} NumBound(s: seq<Word>, o: nat, n: nat)
    requires o + n <= |s|
    ensures Num(s, o, n) < Pow(n)
    decreases n
  {
    if n > 0 {
      NumBound(s, o + 1, n - 1);
    }
  }

  lemma {:induction false} NumberTop(s: seq<Word>, o: nat, n: nat, v: nat)
    requires Number(s, o, n, v) && n > 0
    ensures Pow(n - 1) <= v
    decreases n
  {
    if n > 1 {
      NumberTop(s, o + 1, n - 1, Num(s, o + 1, n - 1));
    }
  }

  /** A number below Pow(m) without leading zeros has at most m words. */
  lemma {:induction false} NumberFits(s: seq<Word>, o: nat, n: nat, v: nat, m: nat)
    requires Number(s, o, n, v) && v < Pow(m)
    ensures n <= m
  {
    if n > m {
      NumberTop(s, o, n, v);
      PowGrows(m, n - 1);
    }
  }

  // ---------- The low words of a number ----------

  function At(s: seq<Word>, o: nat, n: nat, i: nat): Word
    requires o + n <= |s|
  {
    if i < n then s[o + i] else 0
  }

  /** The value of the first i words, or of all if there are fewer. */
  function Low(s: seq<Word>, o: nat, n: nat, i: nat): nat
    requires o + n <= |s|
  {
    Num(s, o, if i < n then i else n)
  }

  lemma {:induction false} LowStep(s: seq<Word>, o: nat, n: nat, i: nat)
    requires o + n <= |s|
    ensures Low(s, o, n, i + 1) == Low(s, o, n, i) + Up(At(s, o, n, i), i)
  {
    if i < n {
      NumSnoc(s, o, i);
    } else {
      UpOne(i);
    }
  }
}
