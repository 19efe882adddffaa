/**
  Operations on buffers of words: comparing, copying, adding and subtracting, in
  place where a source and the destination start together.
*/
module BigintRaw {
  import opened BigintValue
  import opened BigintWords

  // ---------- Regions of buffers ----------

  /** The region of a may be read while dst is written from its start on: it is
      elsewhere, or starts where dst does. */
  predicate Readable(dst: array<Word>, d: nat, room: nat, a: array<Word>, ao: nat, na: nat) {
    a != dst || na == 0 || ao == d || ao + na <= d || d + room <= ao
  }

  predicate Disjoint(dst: array<Word>, d: nat, room: nat, a: array<Word>, ao: nat, na: nat) {
    a != dst || na == 0 || ao + na <= d || d + room <= ao
  }

  /** A number of a source, as it was before the operation. */
  datatype Source = Source(words: seq<Word>, o: nat, n: nat) {
    predicate Valid() { o + n <= |words| }
    function Value(): nat
      requires Valid()
    {
      Num(words, o, n)
    }
    function LowValue(i: nat): nat
      requires Valid()
    {
      Low(words, o, n, i)
    }
    function Word(i: nat): Word
      requires Valid()
    {
      At(words, o, n, i)
    }
  }

  /** The words of the source from the i-th on are still in its buffer. */
  predicate Rest(a: array<Word>, x: Source, i: nat)
    reads a
  {
    x.Valid() && a.Length == |x.words| && forall j :: x.o + i <= j < x.o + x.n ==> a[j] == x.words[j]
  }

  // ---------- Truncating, comparing, copying ----------

  method Truncate(a: array<Word>, o: nat, n0: nat) returns (n: nat)
    requires o + n0 <= a.Length
    ensures n <= n0 && ZeroWords(a[..], o + n, o + n0) && Number(a[..], o, n, Num(a[..], o, n0))
  {
    n := n0;
    while n > 0 && a[o + n - 1] == 0
      invariant n <= n0 && ZeroWords(a[..], o + n, o + n0)
    {
      n := n - 1;
    }
    NumShort(a[..], o, n0, n);
  }

  lemma {:induction false} TopDiffers(s: seq<Word>, o: nat, t: seq<Word>, p: nat, n: nat, i: nat)
    requires i < n && o + n <= |s| && p + n <= |t| && s[o + i] < t[p + i]
    requires forall j :: o + i < j < o + n ==> s[j] == t[j - o + p]
    ensures Num(s, o, n) < Num(t, p, n)
  {
    NumSplit(s, o, n, i);
    NumSplit(t, p, n, i);
    NumSame(s, o + i + 1, t, p + i + 1, n - i - 1);
    NumBound(s, o, i);
    UpMonotone(Num(s, o + i, n - i), Num(t, p + i, n - i), i);
  }

  lemma {:induction false} LongerIsMore(s: seq<Word>, o: nat, n: nat, t: seq<Word>, p: nat, m: nat, v: nat)
    requires o + n <= |s| && Number(t, p, m, v) && n < m
    ensures Num(s, o, n) < v
  {
    NumBound(s, o, n);
    NumberTop(t, p, m, v);
    PowGrows(n, m - 1);
  }

  /** Compare two numbers without leading zeros. */
  method CmpAbs(a: array<Word>, ao: nat, na: nat, b: array<Word>, bo: nat, nb: nat, ghost u: nat, ghost v: nat) returns (c: int)
    requires Number(a[..], ao, na, u) && Number(b[..], bo, nb, v)
    ensures c < 0 <==> u < v
    ensures c == 0 <==> u == v
  {
    ghost var x, y := a[..], b[..];
    if na > nb {
      LongerIsMore(y, bo, nb, x, ao, na, u);
      return 1;
    }
    if na < nb {
      LongerIsMore(x, ao, na, y, bo, nb, v);
      return -1;
    }
    var i := na;
    while i > 0
      invariant 0 <= i <= na && forall j :: ao + i <= j < ao + na ==> x[j] == y[j - ao + bo]
    {
      i := i - 1;
      if a[ao + i] < b[bo + i] {
        TopDiffers(x, ao, y, bo, na, i);
        return -1;
      }
      if a[ao + i] > b[bo + i] {
        assert forall j :: bo + i < j < bo + na ==> x[j - bo + ao] == y[j];
        TopDiffers(y, bo, x, ao, na, i);
        return 1;
      }
    }
    NumSame(x, ao, y, bo, na);
    c := 0;
  }

  method Zero(dst: array<Word>, from: nat, to: nat)
    requires to <= dst.Length
    modifies dst
    ensures forall i :: 0 <= i < dst.Length ==> dst[i] == if from <= i < to then 0 else old(dst[i])
  {
    var i := from;
    while i < to
      invariant from <= i && (from <= to ==> i <= to) && (to < from ==> i == from)
      invariant forall k :: 0 <= k < dst.Length ==> dst[k] == if from <= k < i then 0 else old(dst[k])
    {
      dst[i] := 0;
      i := i + 1;
    }
  }

  method Copy(dst: array<Word>, d: nat, src: array<Word>, s: nat, n: nat)
    requires d + n <= dst.Length && s + n <= src.Length && Disjoint(dst, d, n, src, s, n)
    modifies dst
    ensures Outside(old(dst[..]), dst[..], d, n) && Num(dst[..], d, n) == Num(old(src[..]), s, n)
    ensures forall j :: d <= j < d + n ==> dst[j] == old(src[..])[j - d + s]
  {
    ghost var x := src[..];
    var i := 0;
    while i < n
      invariant 0 <= i <= n && Outside(old(dst[..]), dst[..], d, i)
      invariant forall j :: d <= j < d + i ==> dst[j] == x[j - d + s]
      invariant forall j :: s + i <= j < s + n ==> src[j] == x[j]
    {
      dst[d + i] := src[s + i];
      i := i + 1;
    }
    NumSame(dst[..], d, x, s, n);
  }

  /** What the destination region is after an operation that yields v in n words:
      zeros above, up to where words were written. */
  ghost predicate Result(before: seq<Word>, after: seq<Word>, d: nat, room: nat, written: nat, n: nat, v: nat) {
    && n <= room && d + room <= |before| && Outside(before, after, d, room) && Number(after, d, n, v)
    && forall j :: d + n <= j < d + room ==> after[j] == 0 || (j >= d + written && after[j] == before[j])
  }

  lemma {:induction false} Finished(before: seq<Word>, after: seq<Word>, d: nat, room: nat, i: nat, written: nat, n: nat, v: nat)
    requires n <= i <= room && d + room <= |before| && Outside(before, after, d, i) && written <= i
    requires ZeroWords(after, d + n, d + i) && Number(after, d, n, v)
    ensures Result(before, after, d, room, written, n, v)
  {
  }

  // ---------- Adding ----------

  /** The i words at d are the low words of the sum of x and y, up to the carry. */
  ghost predicate SumUpTo(s: seq<Word>, d: nat, i: nat, x: Source, y: Source, carry: Word) {
    && d + i <= |s| && x.Valid() && y.Valid() && carry <= 1
    && Num(s, d, i) + Up(carry, i) == x.LowValue(i) + y.LowValue(i)
  }

  lemma {:induction false} SumStep(s: seq<Word>, d: nat, i: nat, x: Source, y: Source, carry: Word, w: Word, c: Word)
    requires d + i < |s| && SumUpTo(s, d, i, x, y, carry) && c <= 1
    requires w + BASE * c == x.Word(i) + y.Word(i) + carry
    ensures SumUpTo(s[d + i := w], d, i + 1, x, y, c)
  {
    var t := s[d + i := w];
    NumSame(s, d, t, d, i);
    NumSnoc(t, d, i);
    LowStep(x.words, x.o, x.n, i);
    LowStep(y.words, y.o, y.n, i);
    UpColumn(w, c, x.Word(i), y.Word(i), carry, i);
  }

  lemma {:induction false} NothingAdded(s: seq<Word>, d: nat, x: Source, y: Source)
    requires d <= |s| && x.Valid() && y.Valid()
    ensures SumUpTo(s, d, 0, x, y, 0) && DifUpTo(s, d, 0, x, y, 0)
  {
  }

  /** Once all words of both are in, the carry is the next word. */
  lemma {:induction false} SumFits(s: seq<Word>, d: nat, i: nat, x: Source, y: Source, carry: Word, room: nat)
    requires SumUpTo(s, d, i, x, y, carry) && x.n <= i && y.n <= i <= room && x.Value() + y.Value() < Pow(room)
    requires d + room <= |s|
    ensures carry == 0 ==> Num(s, d, i) == x.Value() + y.Value()
    ensures carry != 0 ==> i < room && Num(s[d + i := carry], d, i + 1) == x.Value() + y.Value()
  {
    UpOne(i);
    if carry != 0 {
      assert carry == 1 && i < room;
      var t := s[d + i := carry];
      NumSame(s, d, t, d, i);
      NumSnoc(t, d, i);
    }
  }

  /** i words of a sum are written, the rest of the summands is still there. */
  ghost predicate Adding(before: seq<Word>, dst: array<Word>, d: nat, i: nat, carry: Word,
                         a: array<Word>, x: Source, b: array<Word>, y: Source)
    reads dst, a, b
  {
    Outside(before, dst[..], d, i) && Rest(a, x, i) && Rest(b, y, i) && SumUpTo(dst[..], d, i, x, y, carry)
  }

  /** Write the i-th word of the result. */
  method Put(dst: array<Word>, d: nat, i: nat, w: Word, ghost before: seq<Word>, ghost room: nat,
             ghost a: array<Word>, ghost x: Source, ghost b: array<Word>, ghost y: Source)
    requires i < room && d + room <= dst.Length && Outside(before, dst[..], d, i)
    requires Readable(dst, d, room, a, x.o, x.n) && Readable(dst, d, room, b, y.o, y.n)
    requires Rest(a, x, i) && Rest(b, y, i)
    modifies dst
    ensures Outside(before, dst[..], d, i + 1) && Rest(a, x, i + 1) && Rest(b, y, i + 1)
    ensures dst[..] == old(dst[..])[d + i := w]
  {
    dst[d + i] := w;
  }

  method PutSum(dst: array<Word>, d: nat, i: nat, w: Word, ghost before: seq<Word>, ghost room: nat,
                ghost a: array<Word>, ghost x: Source, ghost b: array<Word>, ghost y: Source, ghost carry: Word, ghost c: Word)
    requires i < room && d + room <= dst.Length && Adding(before, dst, d, i, carry, a, x, b, y)
    requires Readable(dst, d, room, a, x.o, x.n) && Readable(dst, d, room, b, y.o, y.n)
    requires c <= 1 && w + BASE * c == x.Word(i) + y.Word(i) + carry
    modifies dst
    ensures Adding(before, dst, d, i + 1, c, a, x, b, y)
  {
    SumStep(dst[..], d, i, x, y, carry, w, c);
    Put(dst, d, i, w, before, room, a, x, b, y);
  }

  /** Carry on through the words of the summand src that the other does not have. */
  method AddTail(dst: array<Word>, d: nat, i0: nat, carry0: Word, src: array<Word>, so: nat, ns: nat,
                 ghost before: seq<Word>, ghost room: nat,
                 ghost a: array<Word>, ghost x: Source, ghost b: array<Word>, ghost y: Source)
    returns (i: nat, carry: Word)
    requires d + room <= dst.Length && i0 <= room && ns <= room && Adding(before, dst, d, i0, carry0, a, x, b, y)
    requires Readable(dst, d, room, a, x.o, x.n) && Readable(dst, d, room, b, y.o, y.n)
    requires i0 < ns ==> (src == a && so == x.o && ns == x.n && y.n <= i0) || (src == b && so == y.o && ns == y.n && x.n <= i0)
    modifies dst
    ensures Adding(before, dst, d, i, carry, a, x, b, y) && i == if i0 < ns then ns else i0
  {
    i, carry := i0, carry0;
    while i < ns
      invariant i0 <= i && (i0 < ns ==> i <= ns) && (i0 >= ns ==> i == i0)
      invariant Adding(before, dst, d, i, carry, a, x, b, y)
    {
      var s := AddGetCarry(src[so + i], carry);
      PutSum(dst, d, i, s.0, before, room, a, x, b, y, carry, s.1);
      carry := s.1;
      i := i + 1;
    }
  }

  /** Append the last carry and drop leading zeros. */
  method AddLast(dst: array<Word>, d: nat, i0: nat, carry: Word, ghost before: seq<Word>, ghost room: nat,
                 ghost x: Source, ghost y: Source)
    returns (n: nat)
    requires d + room <= dst.Length && i0 <= room && Outside(before, dst[..], d, i0) && SumUpTo(dst[..], d, i0, x, y, carry)
    requires x.n <= i0 && y.n <= i0 && x.Value() + y.Value() < Pow(room)
    modifies dst
    ensures Result(before, dst[..], d, room, i0, n, x.Value() + y.Value())
  {
    var i := i0;
    SumFits(dst[..], d, i, x, y, carry, room);
    if carry != 0 {
      ghost var s := dst[..];
      dst[d + i] := carry;
      assert dst[..] == s[d + i := carry];
      i := i + 1;
    }
    n := Truncate(dst, d, i);
    Finished(before, dst[..], d, room, i, i0, n, x.Value() + y.Value());
  }

  /** Add two numbers whose sum fits the region of room words. */
  method Add(dst: array<Word>, d: nat, ghost room: nat, a: array<Word>, ao: nat, na: nat, b: array<Word>, bo: nat, nb: nat)
    returns (n: nat)
    requires d + room <= dst.Length && na <= room && nb <= room && ao + na <= a.Length && bo + nb <= b.Length
    requires Readable(dst, d, room, a, ao, na) && Readable(dst, d, room, b, bo, nb)
    requires Num(a[..], ao, na) + Num(b[..], bo, nb) < Pow(room)
    modifies dst
    ensures Result(old(dst[..]), dst[..], d, room, if na > nb then na else nb, n,
      Num(old(a[..]), ao, na) + Num(old(b[..]), bo, nb))
  {
    ghost var x, y, before := Source(a[..], ao, na), Source(b[..], bo, nb), dst[..];
    var carry: Word := 0;
    var i := 0;
    var m := if na < nb then na else nb;
    NothingAdded(before, d, x, y);
    while i < m
      invariant 0 <= i <= m && Adding(before, dst, d, i, carry, a, x, b, y)
    {
      var s := AddGetCarry(carry, a[ao + i]);
      var t := AddGetCarry(s.0, b[bo + i]);
      PutSum(dst, d, i, t.0, before, room, a, x, b, y, carry, s.1 + t.1);
      carry := s.1 + t.1;
      i := i + 1;
    }
    i, carry := AddTail(dst, d, i, carry, a, ao, na, before, room, a, x, b, y);
    i, carry := AddTail(dst, d, i, carry, b, bo, nb, before, room, a, x, b, y);
    n := AddLast(dst, d, i, carry, before, room, x, y);
  }

  // ---------- Subtracting ----------

  ghost predicate DifUpTo(s: seq<Word>, d: nat, i: nat, x: Source, y: Source, carry: Word) {
    && d + i <= |s| && x.Valid() && y.Valid() && carry <= 1
    && Num(s, d, i) + y.LowValue(i) == x.LowValue(i) + Up(carry, i)
  }

  lemma {:induction false} DifStep(s: seq<Word>, d: nat, i: nat, x: Source, y: Source, carry: Word, w: Word, c: Word)
    requires d + i < |s| && DifUpTo(s, d, i, x, y, carry) && c <= 1
    requires w + y.Word(i) + carry == x.Word(i) + BASE * c
    ensures DifUpTo(s[d + i := w], d, i + 1, x, y, c)
  {
    var t := s[d + i := w];
    NumSame(s, d, t, d, i);
    NumSnoc(t, d, i);
    LowStep(x.words, x.o, x.n, i);
    LowStep(y.words, y.o, y.n, i);
    UpColumn(x.Word(i), c, w, y.Word(i), carry, i);
  }

  lemma {:induction false} DifDone(s: seq<Word>, d: nat, x: Source, y: Source, carry: Word)
    requires DifUpTo(s, d, x.n, x, y, carry) && y.n <= x.n && y.Value() <= x.Value()
    ensures carry == 0 && Num(s, d, x.n) == x.Value() - y.Value()
  {
    NumBound(s, d, x.n);
    UpOne(x.n);
  }

  ghost predicate Subtracting(before: seq<Word>, dst: array<Word>, d: nat, i: nat, carry: Word,
                              a: array<Word>, x: Source, b: array<Word>, y: Source)
    reads dst, a, b
  {
    Outside(before, dst[..], d, i) && Rest(a, x, i) && Rest(b, y, i) && DifUpTo(dst[..], d, i, x, y, carry)
  }

  method PutDif(dst: array<Word>, d: nat, i: nat, w: Word, ghost before: seq<Word>, ghost room: nat,
                ghost a: array<Word>, ghost x: Source, ghost b: array<Word>, ghost y: Source, ghost carry: Word, ghost c: Word)
    requires i < room && d + room <= dst.Length && Subtracting(before, dst, d, i, carry, a, x, b, y)
    requires Readable(dst, d, room, a, x.o, x.n) && Readable(dst, d, room, b, y.o, y.n)
    requires c <= 1 && w + y.Word(i) + carry == x.Word(i) + BASE * c
    modifies dst
    ensures Subtracting(before, dst, d, i + 1, c, a, x, b, y)
  {
    DifStep(dst[..], d, i, x, y, carry, w, c);
    Put(dst, d, i, w, before, room, a, x, b, y);
  }

  /** Carry the borrow on through the words of a above b. */
  method SubTail(dst: array<Word>, d: nat, i0: nat, carry0: Word, a: array<Word>, ao: nat, na: nat,
                 ghost before: seq<Word>, ghost x: Source, ghost b: array<Word>, ghost y: Source)
    returns (i: nat, carry: Word)
    requires d + na <= dst.Length && ao + na <= a.Length && x.o == ao && x.n == na && y.n <= i0 <= na
    requires Subtracting(before, dst, d, i0, carry0, a, x, b, y)
    requires Readable(dst, d, na, a, x.o, x.n) && Readable(dst, d, na, b, y.o, y.n)
    modifies dst
    ensures i == na && Subtracting(before, dst, d, na, carry, a, x, b, y)
  {
    i, carry := i0, carry0;
    while i < na
      invariant i0 <= i <= na && Subtracting(before, dst, d, i, carry, a, x, b, y)
    {
      var s := SubGetCarry(a[ao + i], carry);
      PutDif(dst, d, i, s.0, before, na, a, x, b, y, carry, s.1);
      carry := s.1;
      i := i + 1;
    }
  }

  /** Subtract a number that is not larger. */
  method Sub(dst: array<Word>, d: nat, a: array<Word>, ao: nat, na: nat, b: array<Word>, bo: nat, nb: nat)
    returns (n: nat)
    requires nb <= na && d + na <= dst.Length && ao + na <= a.Length && bo + nb <= b.Length
    requires Readable(dst, d, na, a, ao, na) && Readable(dst, d, na, b, bo, nb)
    requires Num(b[..], bo, nb) <= Num(a[..], ao, na)
    modifies dst
    ensures Result(old(dst[..]), dst[..], d, na, na, n, Num(old(a[..]), ao, na) - Num(old(b[..]), bo, nb))
  {
    ghost var x, y, before := Source(a[..], ao, na), Source(b[..], bo, nb), dst[..];
    var carry: Word := 0;
    var i := 0;
    NothingAdded(before, d, x, y);
    while i < nb
      invariant 0 <= i <= nb && Subtracting(before, dst, d, i, carry, a, x, b, y)
    {
      var s := SubGetCarry(a[ao + i], carry);
      var t := SubGetCarry(s.0, b[bo + i]);
      PutDif(dst, d, i, t.0, before, na, a, x, b, y, carry, s.1 + t.1);
      carry := s.1 + t.1;
      i := i + 1;
    }
    i, carry := SubTail(dst, d, i, carry, a, ao, na, before, x, b, y);
    DifDone(dst[..], d, x, y, carry);
    n := Truncate(dst, d, i);
    Finished(before, dst[..], d, na, i, na, n, x.Value() - y.Value());
  }
}
