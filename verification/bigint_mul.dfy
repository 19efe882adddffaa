/**
  Multiplying buffers of words: by a word, and by one another, word by word.
*/
module BigintMul {
  import opened BigintValue
  import opened BigintWords
  import opened BigintRaw

  /** The i words at d are the low words of t + x * f + init, up to the carry. */
  ghost predicate Acc(s: seq<Word>, d: nat, i: nat, t: Source, x: Source, f: nat, init: nat, carry: Word) {
    && d + i <= |s| && t.Valid() && x.Valid()
    && Num(s, d, i) + Up(carry, i) == t.LowValue(i) + Times(x.LowValue(i), f) + init
  }

  lemma {:induction false} AccStep(
    s: seq<Word>, d: nat, i: nat, t: Source, x: Source, f: nat, init: nat, carry: Word, w: Word, c: Word)
    requires d + i < |s| && Acc(s, d, i, t, x, f, init, carry)
    requires w + BASE * c == t.Word(i) + x.Word(i) * f + carry
    ensures Acc(s[d + i := w], d, i + 1, t, x, f, init, c)
  {
    var s' := s[d + i := w];
    NumSame(s, d, s', d, i);
    NumSnoc(s', d, i);
    LowStep(t.words, t.o, t.n, i);
    LowStep(x.words, x.o, x.n, i);
    UpColumn(w, c, t.Word(i), x.Word(i) * f, carry, i);
    TimesAddLeft(x.LowValue(i), Up(x.Word(i), i), f);
    TimesUpLeft(x.Word(i), f, i);
    TimesIs(x.Word(i), f);
  }

  lemma {:induction false} AccStart(s: seq<Word>, d: nat, t: Source, x: Source, f: nat, init: Word)
    requires d <= |s| && t.Valid() && x.Valid()
    ensures Acc(s, d, 0, t, x, f, init, init)
  {
    TimesZero(f);
  }

  /** The carry still fits below the top of the region. */
  lemma {:induction false} AccRoom(s: seq<Word>, d: nat, i: nat, t: Source, x: Source, f: nat, init: nat, carry: Word)
    requires Acc(s, d, i, t, x, f, init, carry) && x.n <= i <= t.n && t.Value() + Times(x.Value(), f) + init < Pow(t.n)
    ensures carry != 0 ==> i < t.n
  {
    if carry != 0 && i == t.n {
      UpOne(i);
      UpMonotone(1, carry, i);
    }
  }

  // ---------- dst += src * factor ----------

  /** i words of the region are done, the others are as they were. */
  ghost predicate Accumulating(before: seq<Word>, now: seq<Word>, d: nat, room: nat, i: nat,
                               x: Source, f: nat, init: nat, carry: Word)
  {
    && d + room <= |before| && i <= room && Outside(before, now, d, i)
    && Acc(now, d, i, Source(before, d, room), x, f, init, carry)
  }

  method PutAcc(dst: array<Word>, d: nat, ghost room: nat, i: nat, w: Word, ghost before: seq<Word>,
                ghost x: Source, ghost f: nat, ghost init: nat, ghost carry: Word, ghost c: Word)
    requires Accumulating(before, dst[..], d, room, i, x, f, init, carry) && i < room
    requires w + BASE * c == before[d + i] + x.Word(i) * f + carry
    modifies dst
    ensures Accumulating(before, dst[..], d, room, i + 1, x, f, init, c)
  {
    ghost var s := dst[..];
    AccStep(s, d, i, Source(before, d, room), x, f, init, carry, w, c);
    dst[d + i] := w;
    assert dst[..] == s[d + i := w];
  }

  /** Let the carry run up the region; the sum is complete when it is used up. */
  method CarryUp(dst: array<Word>, d: nat, ghost room: nat, i0: nat, carry0: Word, ghost before: seq<Word>,
                 ghost x: Source, ghost f: nat, ghost init: nat) returns (i: nat)
    requires Accumulating(before, dst[..], d, room, i0, x, f, init, carry0) && x.n <= i0
    requires Num(before, d, room) + Times(x.Value(), f) + init < Pow(room)
    modifies dst
    ensures i0 <= i <= room && Outside(before, dst[..], d, i)
    ensures Num(dst[..], d, room) == Num(before, d, room) + Times(x.Value(), f) + init
  {
    var carry := carry0;
    i := i0;
    while carry != 0
      invariant i0 <= i <= room && Accumulating(before, dst[..], d, room, i, x, f, init, carry)
      decreases room - i
    {
      AccRoom(dst[..], d, i, Source(before, d, room), x, f, init, carry);
      var total := AddGetCarry(dst[d + i], carry);
      PutAcc(dst, d, room, i, total.0, before, x, f, init, carry, total.1);
      carry := total.1;
      i := i + 1;
    }
    CarriedUp(before, dst[..], d, room, i, x, f, init);
  }

  lemma {:induction false} CarriedUp(before: seq<Word>, after: seq<Word>, d: nat, room: nat, i: nat, x: Source, f: nat, init: nat)
    requires Accumulating(before, after, d, room, i, x, f, init, 0) && x.n <= i
    ensures Num(after, d, room) == Num(before, d, room) + Times(x.Value(), f) + init
  {
    UpOne(i);
    NumSplit(before, d, room, i);
    NumSplit(after, d, room, i);
    NumSame(before, d + i, after, d + i, room - i);
  }

  /** Add a multiple of src into a region that has room for it. */
  method MulWordAdd(dst: array<Word>, d: nat, ghost room: nat, src: array<Word>, so: nat, n: nat, factor: Word)
    returns (len: nat)
    requires d + room <= dst.Length && so + n <= src.Length && n <= room && Disjoint(dst, d, room, src, so, n)
    requires Num(dst[..], d, room) + Times(Num(src[..], so, n), factor) < Pow(room)
    modifies dst
    ensures Outside(old(dst[..]), dst[..], d, room) && len <= room
    ensures Num(dst[..], d, room) == Num(old(dst[..]), d, room) + Times(Num(old(src[..]), so, n), factor)
  {
    ghost var x, before := Source(src[..], so, n), dst[..];
    var carry: Word := 0;
    var i := 0;
    AccStart(before, d, Source(before, d, room), x, factor, 0);
    while i < n
      invariant 0 <= i <= n && Accumulating(before, dst[..], d, room, i, x, factor, 0, carry)
      invariant Rest(src, x, 0)
    {
      var word := src[so + i];
      MulAccumulate(word, factor, dst[d + i], carry);
      var sum := AddGetCarry(MulLo(word, factor), carry);
      var total := AddGetCarry(dst[d + i], sum.0);
      var next: Word := sum.1 + MulHi(word, factor) + total.1;
      PutAcc(dst, d, room, i, total.0, before, x, factor, 0, carry, next);
      carry := next;
      i := i + 1;
    }
    i := CarryUp(dst, d, room, i, carry, before, x, factor, 0);
    len := Truncate(dst, d, i);
  }

  // ---------- dst = a * b, one word of b after the other ----------

  /** The region holds the product of x and the first i words of y. */
  ghost predicate Multiplied(before: seq<Word>, now: seq<Word>, d: nat, x: Source, y: Source, i: nat) {
    && x.Valid() && y.Valid() && d + x.n + y.n <= |now| && Outside(before, now, d, x.n + y.n)
    && i <= y.n && Num(now, d, x.n + y.n) == Times(x.Value(), y.LowValue(i))
  }

  lemma {:induction false} NextRow(x: Source, y: Source, i: nat)
    requires x.Valid() && y.Valid() && i < y.n
    ensures Times(x.Value(), y.LowValue(i + 1)) == Times(x.Value(), y.LowValue(i)) + Up(Times(x.Value(), y.Word(i)), i)
    ensures Times(x.Value(), y.LowValue(i + 1)) < Pow(x.n + i + 1)
  {
    LowStep(y.words, y.o, y.n, i);
    TimesAdd(x.Value(), y.LowValue(i), Up(y.Word(i), i));
    TimesUp(x.Value(), y.Word(i), i);
    NumBound(x.words, x.o, x.n);
    NumBound(y.words, y.o, i + 1);
    TimesBound(x.Value(), y.LowValue(i + 1), x.n, i + 1);
  }

  /** The next row has room above the first i words. */
  lemma {:induction false} RowReady(before: seq<Word>, now: seq<Word>, d: nat, x: Source, y: Source, i: nat)
    requires Multiplied(before, now, d, x, y, i) && i < y.n
    ensures Num(now, d + i, x.n + y.n - i) + Times(x.Value(), y.Word(i)) < Pow(x.n + y.n - i)
  {
    var room := x.n + y.n;
    var hi, row := Num(now, d + i, room - i), Times(x.Value(), y.Word(i));
    NumSplit(now, d, room, i);
    NextRow(x, y, i);
    UpAdd(hi, row, i);
    PowGrows(x.n + i + 1, room);
    UpPow(room - i, i);
    UpBelow(hi + row, Pow(room - i), i);
  }

  lemma {:induction false} RowAdded(before: seq<Word>, now: seq<Word>, after: seq<Word>, d: nat, x: Source, y: Source, i: nat)
    requires Multiplied(before, now, d, x, y, i) && i < y.n
    requires Outside(now, after, d + i, x.n + y.n - i)
    requires Num(after, d + i, x.n + y.n - i) == Num(now, d + i, x.n + y.n - i) + Times(x.Value(), y.Word(i))
    ensures Multiplied(before, after, d, x, y, i + 1)
  {
    var room := x.n + y.n;
    NumSplit(now, d, room, i);
    NumSplit(after, d, room, i);
    NumSame(now, d, after, d, i);
    NextRow(x, y, i);
    UpAdd(Num(now, d + i, room - i), Times(x.Value(), y.Word(i)), i);
  }

  /** Add the row of the i-th word of y. */
  method MulRow(dst: array<Word>, d: nat, i: nat, a: array<Word>, ao: nat, na: nat, factor: Word,
                ghost before: seq<Word>, ghost x: Source, ghost y: Source)
    requires Multiplied(before, dst[..], d, x, y, i) && i < y.n && factor == y.Word(i)
    requires ao + na <= a.Length && na == x.n && Num(a[..], ao, na) == x.Value() && Disjoint(dst, d, x.n + y.n, a, ao, na)
    modifies dst
    ensures Multiplied(before, dst[..], d, x, y, i + 1)
  {
    ghost var now := dst[..];
    RowReady(before, now, d, x, y, i);
    var len := MulWordAdd(dst, d + i, x.n + y.n - i, a, ao, na, factor);
    RowAdded(before, now, dst[..], d, x, y, i);
  }

  /** What lies outside the region is still there. */
  lemma {:induction false} Unmoved(dst: array<Word>, before: seq<Word>, d: nat, room: nat, a: array<Word>, x: Source)
    requires Outside(before, dst[..], d, room) && Disjoint(dst, d, room, a, x.o, x.n) && x.Valid()
    requires x.words == if a == dst then before else a[..]
    ensures Num(a[..], x.o, x.n) == x.Value() && forall j :: x.o <= j < x.o + x.n ==> a[j] == x.words[j]
  {
    NumSame(x.words, x.o, a[..], x.o, x.n);
  }

  /** Multiply into a region of na + nb zero words. */
  method MulAdd(dst: array<Word>, d: nat, a: array<Word>, ao: nat, na: nat, b: array<Word>, bo: nat, nb: nat)
    returns (n: nat)
    requires d + na + nb <= dst.Length && ao + na <= a.Length && bo + nb <= b.Length
    requires Disjoint(dst, d, na + nb, a, ao, na) && Disjoint(dst, d, na + nb, b, bo, nb)
    requires ZeroWords(dst[..], d, d + na + nb)
    modifies dst
    ensures Result(old(dst[..]), dst[..], d, na + nb, na + nb, n, Times(Num(old(a[..]), ao, na), Num(old(b[..]), bo, nb)))
  {
    ghost var x, y, before, room := Source(a[..], ao, na), Source(b[..], bo, nb), dst[..], na + nb;
    NumZero(before, d, room);
    TimesZero(x.Value());
    TimesZero(y.Value());
    if na == 0 || nb == 0 {
      return 0;
    }
    var i := 0;
    while i < nb
      invariant 0 <= i <= nb && Multiplied(before, dst[..], d, x, y, i)
    {
      Unmoved(dst, before, d, room, a, x);
      Unmoved(dst, before, d, room, b, y);
      MulRow(dst, d, i, a, ao, na, b[bo + i], before, x, y);
      i := i + 1;
    }
    n := Truncate(dst, d, na + nb);
    Finished(before, dst[..], d, room, room, room, n, Times(x.Value(), y.Value()));
  }

  // ---------- In place, by a word and plus a word ----------

  /** i words of the multiple are written, the rest of the source is still there. */
  ghost predicate Scaling(before: seq<Word>, dst: array<Word>, d: nat, i: nat, src: array<Word>, x: Source, f: nat, carry: Word)
    reads dst, src
  {
    && Outside(before, dst[..], d, i) && Rest(src, x, i)
    && Acc(dst[..], d, i, Source([], 0, 0), x, f, 0, carry)
  }

  method PutScaled(dst: array<Word>, d: nat, ghost room: nat, i: nat, w: Word, ghost before: seq<Word>,
                   ghost src: array<Word>, ghost x: Source, ghost f: nat, ghost carry: Word, ghost c: Word)
    requires d + room <= dst.Length && i < room && Scaling(before, dst, d, i, src, x, f, carry)
    requires Readable(dst, d, room, src, x.o, x.n)
    requires w + BASE * c == x.Word(i) * f + carry
    modifies dst
    ensures Scaling(before, dst, d, i + 1, src, x, f, c)
  {
    AccStep(dst[..], d, i, Source([], 0, 0), x, f, 0, carry, w, c);
    Put(dst, d, i, w, before, room, src, x, src, x);
  }

  /** Multiply by a word, in place if src is dst. */
  method MulWord(dst: array<Word>, d: nat, ghost room: nat, src: array<Word>, so: nat, n: nat, factor: Word)
    returns (len: nat)
    requires d + room <= dst.Length && so + n <= src.Length && n <= room && Readable(dst, d, room, src, so, n)
    requires Times(Num(src[..], so, n), factor) < Pow(room)
    modifies dst
    ensures Result(old(dst[..]), dst[..], d, room, n, len, Times(Num(old(src[..]), so, n), factor))
  {
    ghost var x, before := Source(src[..], so, n), dst[..];
    var carry: Word := 0;
    var i := 0;
    AccStart(before, d, Source([], 0, 0), x, factor, 0);
    while i < n
      invariant 0 <= i <= n && Scaling(before, dst, d, i, src, x, factor, carry)
    {
      var word := src[so + i];
      MulAccumulate(word, factor, 0, carry);
      var sum := AddGetCarry(MulLo(word, factor), carry);
      var next: Word := sum.1 + MulHi(word, factor);
      PutScaled(dst, d, room, i, sum.0, before, src, x, factor, carry, next);
      carry := next;
      i := i + 1;
    }
    ScaledFits(dst[..], d, i, x, factor, carry, room);
    if carry != 0 {
      ghost var s := dst[..];
      dst[d + i] := carry;
      assert dst[..] == s[d + i := carry];
      i := i + 1;
    }
    len := Truncate(dst, d, i);
    Finished(before, dst[..], d, room, i, n, len, Times(x.Value(), factor));
  }

  lemma {:induction false} ScaledFits(s: seq<Word>, d: nat, i: nat, x: Source, f: nat, carry: Word, room: nat)
    requires Acc(s, d, i, Source([], 0, 0), x, f, 0, carry) && x.n <= i <= room && Times(x.Value(), f) < Pow(room)
    requires d + room <= |s|
    ensures carry == 0 ==> Num(s, d, i) == Times(x.Value(), f)
    ensures carry != 0 ==> i < room && Num(s[d + i := carry], d, i + 1) == Times(x.Value(), f)
  {
    UpOne(i);
    UpMonotone(1, carry, i);
    if carry != 0 {
      var t := s[d + i := carry];
      NumSame(s, d, t, d, i);
      NumSnoc(t, d, i);
    }
  }

  /** Add a word to a number above which the buffer is zero. */
  method AddWord(dst: array<Word>, d: nat, ghost room: nat, n: nat, b: Word)
    returns (len: nat)
    requires d + room <= dst.Length && n <= room && ZeroWords(dst[..], d + n, d + room)
    requires Num(dst[..], d, n) + b < Pow(room)
    modifies dst
    ensures Result(old(dst[..]), dst[..], d, room, room, len, Num(old(dst[..]), d, n) + b)
  {
    ghost var before := dst[..];
    ghost var none := Source(before, 0, 0);
    NumShort(before, d, room, n);
    TimesZero(0);
    var carry: Word := b;
    var i := 0;
    AccStart(before, d, Source(before, d, room), none, 0, b);
    while i < n
      invariant 0 <= i <= n && Accumulating(before, dst[..], d, room, i, none, 0, b, carry)
    {
      var sum := AddGetCarry(dst[d + i], carry);
      PutAcc(dst, d, room, i, sum.0, before, none, 0, b, carry, sum.1);
      carry := sum.1;
      i := i + 1;
    }
    i := CarryUp(dst, d, room, i, carry, before, none, 0, b);
    NumShort(dst[..], d, room, i);
    len := Truncate(dst, d, i);
    Finished(before, dst[..], d, room, i, i, len, Num(before, d, n) + b);
  }
}
