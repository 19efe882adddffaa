/**
  Karatsuba multiplication on word buffers.  The product and all intermediate
  results share one buffer; the factors may lie in it as well.
*/
module BigintKaratsuba {
  import opened BigintValue
  import opened BigintRaw
  import opened BigintMul

  const THRESHOLD: nat := 20

  function Max(a: nat, b: nat): nat { if a > b then a else b }
  function Min(a: nat, b: nat): nat { if a < b then a else b }

  /** Words of scratch space that multiplying numbers of up to m words uses. */
  function Scratch(m: nat): nat {
    if m < THRESHOLD then 0 else 8 * (m / 2 + 2) + Scratch(m / 2 + 2)
  }

  /** What the caller of the multiplication provides is enough. */
  lemma {:induction false} ScratchBound(m: nat)
    ensures Scratch(m) <= 11 * m + 180
  {
    if m >= 36 {
      ScratchBound(m / 2 + 2);
    } else if m >= THRESHOLD {
      assert Scratch(m / 2 + 2) == 0;
    }
  }

  lemma {:induction false} ScratchGrows(m: nat, n: nat)
    requires m <= n
    ensures Scratch(m) <= Scratch(n)
  {
    if n >= THRESHOLD && m >= THRESHOLD {
      ScratchGrows(m / 2 + 2, n / 2 + 2);
    }
  }

  // ---------- Splitting a factor ----------

  /** The value of the words of x from the h-th on. */
  function High(x: Source, h: nat): nat
    requires x.Valid()
  {
    Num(x.words, x.o + Min(h, x.n), x.n - Min(h, x.n))
  }

  lemma {:induction false} Halves(x: Source, h: nat)
    requires x.Valid()
    ensures x.Value() == x.LowValue(h) + Up(High(x, h), h)
    ensures x.LowValue(h) < Pow(h)
    ensures x.n <= 2 * h + 1 ==> High(x, h) < Pow(h + 1) && x.LowValue(h) + High(x, h) < Pow(h + 2)
  {
    var i := Min(h, x.n);
    NumSplit(x.words, x.o, x.n, i);
    NumBound(x.words, x.o, i);
    PowGrows(i, h);
    NumBound(x.words, x.o + i, x.n - i);
    UpOne(h);
    if x.n <= 2 * h + 1 {
      PowGrows(x.n - i, h + 1);
      PowGrows(h, h + 1);
    }
  }

  /** The halves of x are the first nlo words and the nhi words from the cut on. */
  ghost predicate IsSplit(x: Source, h: nat, nlo: nat, nhi: nat) {
    && x.Valid() && nlo <= Min(h, x.n) && nhi <= x.n - Min(h, x.n)
    && Number(x.words, x.o, nlo, x.LowValue(h)) && Number(x.words, x.o + Min(h, x.n), nhi, High(x, h))
  }

  method Split(a: array<Word>, ao: nat, na: nat, h: nat) returns (nlo: nat, nhi: nat)
    requires ao + na <= a.Length
    ensures IsSplit(Source(a[..], ao, na), h, nlo, nhi)
  {
    var cut := Min(h, na);
    nlo := Truncate(a, ao, cut);
    nhi := Truncate(a, ao + cut, na - cut);
  }

  // ---------- Numbers in the shared buffer ----------

  /** Nothing but two regions has changed. */
  predicate Outside2(before: seq<Word>, after: seq<Word>, d: nat, n: nat, t: nat, m: nat) {
    |after| == |before| && forall i :: 0 <= i < |before| && !(d <= i < d + n) && !(t <= i < t + m) ==> after[i] == before[i]
  }

  lemma {:induction false} NumberStays2(before: seq<Word>, after: seq<Word>, d: nat, n: nat, t: nat, m: nat, o: nat, len: nat)
    requires Outside2(before, after, d, n, t, m) && o + len <= |before|
    requires (o + len <= d || d + n <= o) && (o + len <= t || t + m <= o)
    ensures Num(after, o, len) == Num(before, o, len)
    ensures forall v :: Number(before, o, len, v) ==> Number(after, o, len, v)
  {
    NumSame(before, o, after, o, len);
  }

  lemma {:induction false} NumberStays(before: seq<Word>, after: seq<Word>, d: nat, room: nat, o: nat, len: nat, v: nat)
    requires Outside(before, after, d, room) && Number(before, o, len, v) && (o + len <= d || d + room <= o)
    ensures Number(after, o, len, v)
  {
    NumStays(before, after, d, room, o, len);
  }

  // ---------- Putting the three products together ----------

  /** There is room for z above the first off words of the region. */
  lemma {:induction false} UpperRoom(s: seq<Word>, d: nat, room: nat, off: nat, len: nat, z: nat, nz: nat, v: nat)
    requires d + room <= |s| && off <= room && Num(s, d, room) + Up(v, off) < Pow(room)
    requires len <= room - off && ZeroWords(s, d + off + len, d + room) && Number(s, z, nz, v)
    ensures Num(s, d + off, len) == Num(s, d + off, room - off)
    ensures Num(s, d + off, len) + v < Pow(room - off) && nz <= room - off
  {
    NumSplit(s, d, room, off);
    NumShort(s, d + off, room - off, len);
    var u := Num(s, d + off, room - off);
    UpAdd(u, v, off);
    UpPow(room - off, off);
    UpBelow(u + v, Pow(room - off), off);
    NumberFits(s, z, nz, v, room - off);
  }

  lemma {:induction false} Raised(before: seq<Word>, after: seq<Word>, d: nat, room: nat, off: nat, len: nat, nz: nat, n: nat, v: nat)
    requires d + room <= |before| && off <= room && len <= room - off && ZeroWords(before, d + off + len, d + room)
    requires Result(before, after, d + off, room - off, Max(len, nz), n, Num(before, d + off, room - off) + v)
    ensures Outside(before, after, d, room) && off + n <= room && ZeroWords(after, d + off + n, d + room)
    ensures Num(after, d, room) == Num(before, d, room) + Up(v, off)
  {
    assert ZeroWords(after, d + off + n, d + room);
    NumShort(after, d + off, room - off, n);
    NumSplit(before, d, room, off);
    NumSplit(after, d, room, off);
    NumSame(before, d, after, d, off);
    UpAdd(Num(before, d + off, room - off), v, off);
  }

  /** Add a number into a region, off words up.  The region holds a number of at
      most len words. */
  method AddInto(mem: array<Word>, d: nat, ghost room: nat, off: nat, len: nat, z: nat, nz: nat, ghost v: nat) returns (n: nat)
    requires d + room <= mem.Length && off <= room && len <= room && ZeroWords(mem[..], d + len, d + room)
    requires (z + nz <= d || d + room <= z) && Number(mem[..], z, nz, v)
    requires Num(mem[..], d, room) + Up(v, off) < Pow(room)
    modifies mem
    ensures Outside(old(mem[..]), mem[..], d, room) && off + n <= room && ZeroWords(mem[..], d + off + n, d + room)
    ensures Num(mem[..], d, room) == Num(old(mem[..]), d, room) + Up(v, off)
  {
    ghost var before := mem[..];
    var upper := if len > off then len - off else 0;
    UpperRoom(before, d, room, off, upper, z, nz, v);
    n := Add(mem, d + off, room - off, mem, d + off, upper, mem, z, nz);
    Raised(before, mem[..], d, room, off, upper, nz, n, v);
  }

  /** The three products, h words apart, in a region that has room for their sum. */
  method Combine(mem: array<Word>, d: nat, room: nat, h: nat, z0: nat, nz0: nat, z1: nat, nz1: nat, z2: nat, nz2: nat,
                 ghost x0: nat, ghost x1: nat, ghost x2: nat) returns (n: nat)
    requires d + room <= mem.Length && 2 * h <= room
    requires Number(mem[..], z0, nz0, x0) && Number(mem[..], z1, nz1, x1) && Number(mem[..], z2, nz2, x2)
    requires z0 + nz0 <= d || d + room <= z0
    requires z1 + nz1 <= d || d + room <= z1
    requires z2 + nz2 <= d || d + room <= z2
    requires x0 + Up(x1, h) + Up(x2, 2 * h) < Pow(room)
    modifies mem
    ensures Outside(old(mem[..]), mem[..], d, room) && n <= room
    ensures Number(mem[..], d, n, x0 + Up(x1, h) + Up(x2, 2 * h))
  {
    ghost var before := mem[..];
    NumberFits(before, z0, nz0, x0, room);
    Copy(mem, d, mem, z0, nz0);
    ghost var s0 := mem[..];
    Zero(mem, d + nz0, d + room);
    ghost var s1 := mem[..];
    NumSame(s0, d, s1, d, nz0);
    NumShort(s1, d, room, nz0);
    NumberStays(before, s1, d, room, z1, nz1, x1);
    NumberStays(before, s1, d, room, z2, nz2, x2);
    var n1 := AddInto(mem, d, room, h, nz0, z1, nz1, x1);
    ghost var s2 := mem[..];
    NumberStays(s1, s2, d, room, z2, nz2, x2);
    var n2 := AddInto(mem, d, room, 2 * h, h + n1, z2, nz2, x2);
    NumShort(mem[..], d, room, 2 * h + n2);
    n := Truncate(mem, d, 2 * h + n2);
  }

  // ---------- The products ----------

  /** The cross products, from the product of the sums. */
  lemma {:induction false} CrossProducts(l1: nat, h1: nat, l2: nat, h2: nat)
    ensures Times(l1 + h1, l2 + h2) == Times(l1, l2) + (Times(l1, h2) + Times(h1, l2)) + Times(h1, h2)
  {
    TimesAddLeft(l1, h1, l2 + h2);
    TimesAdd(l1, l2, h2);
    TimesAdd(h1, l2, h2);
  }

  lemma {:induction false} Assembled(l1: nat, h1: nat, l2: nat, h2: nat, h: nat)
    ensures Times(l1 + Up(h1, h), l2 + Up(h2, h)) ==
      Times(l1, l2) + Up(Times(l1, h2) + Times(h1, l2), h) + Up(Times(h1, h2), 2 * h)
  {
    TimesAddLeft(l1, Up(h1, h), l2 + Up(h2, h));
    TimesAdd(l1, l2, Up(h2, h));
    TimesUp(l1, h2, h);
    TimesUpLeft(h1, l2 + Up(h2, h), h);
    TimesAdd(h1, l2, Up(h2, h));
    TimesUp(h1, h2, h);
    UpAdd(Times(h1, l2), Up(Times(h1, h2), h), h);
    UpTwice(Times(h1, h2), h, h);
    UpAdd(Times(l1, h2), Times(h1, l2), h);
  }

  /** Where everything is: the product at d, scratch from t on, the factors apart. */
  predicate Layout(mem: array<Word>, d: nat, t: nat, room: nat, scratch: nat, a: array<Word>, ao: nat, na: nat) {
    && d + room <= mem.Length && t + scratch <= mem.Length && (d + room <= t || t + scratch <= d)
    && ao + na <= a.Length && Disjoint(mem, d, room, a, ao, na) && Disjoint(mem, t, scratch, a, ao, na)
  }

  /** Where a factor may be: in another buffer or apart from the scratch region. */
  predicate Factor(mem: array<Word>, t: nat, total: nat, a: array<Word>, ao: nat, na: nat, v: nat)
    reads a
  {
    Number(a[..], ao, na, v) && Disjoint(mem, t, total, a, ao, na)
  }

  /** Changes within the scratch region leave a factor alone. */
  lemma {:induction false} FactorStays(
    before: seq<Word>, mem: array<Word>, t: nat, total: nat, a: array<Word>, words: seq<Word>, ao: nat, na: nat, v: nat)
    requires Outside(before, mem[..], t, total) && words == if a == mem then before else a[..]
    requires Number(words, ao, na, v) && Disjoint(mem, t, total, a, ao, na)
    ensures Factor(mem, t, total, a, ao, na, v)
  {
    NumSame(words, ao, a[..], ao, na);
  }

  /** Both halves of a factor, of at most k words each. */
  predicate BothHalves(mem: array<Word>, t: nat, total: nat, k: nat, a: array<Word>, lo: nat, nlo: nat, hi: nat, nhi: nat,
                       l: nat, h: nat)
    reads a
  {
    nlo <= k && nhi <= k && Factor(mem, t, total, a, lo, nlo, l) && Factor(mem, t, total, a, hi, nhi, h)
  }

  lemma {:induction false} HalvesStay(
    before: seq<Word>, mem: array<Word>, t: nat, total: nat, k: nat, a: array<Word>, words: seq<Word>,
    lo: nat, nlo: nat, hi: nat, nhi: nat, l: nat, h: nat)
    requires Outside(before, mem[..], t, total) && words == if a == mem then before else a[..]
    requires nlo <= k && nhi <= k && Number(words, lo, nlo, l) && Number(words, hi, nhi, h)
    requires Disjoint(mem, t, total, a, lo, nlo) && Disjoint(mem, t, total, a, hi, nhi)
    ensures BothHalves(mem, t, total, k, a, lo, nlo, hi, nhi, l, h)
  {
    FactorStays(before, mem, t, total, a, words, lo, nlo, l);
    FactorStays(before, mem, t, total, a, words, hi, nhi, h);
  }

  lemma {:induction false} Outside2Within(before: seq<Word>, after: seq<Word>, d: nat, n: nat, t: nat, m: nat, from: nat, len: nat)
    requires Outside2(before, after, d, n, t, m)
    requires from <= d && d + n <= from + len && from <= t && t + m <= from + len
    ensures Outside(before, after, from, len)
  {
  }

  lemma {:induction false} OutsideTwice(before: seq<Word>, mid: seq<Word>, after: seq<Word>, d: nat, n: nat)
    requires Outside(before, mid, d, n) && Outside(mid, after, d, n)
    ensures Outside(before, after, d, n)
  {
  }

  /** The scratch region: two sums of k words, three products of 2 k words, the rest. */
  predicate ScratchFits(mem: array<Word>, t: nat, k: nat) {
    t + 8 * k + Scratch(k) <= mem.Length
  }

  /** One product, of numbers of at most k words, at place z of the scratch region. */
  method Part(mem: array<Word>, z: nat, t: nat, k: nat, a: array<Word>, ao: nat, na: nat, b: array<Word>, bo: nat, nb: nat,
              ghost u: nat, ghost v: nat) returns (n: nat)
    requires ScratchFits(mem, t, k) && na <= k && nb <= k && t + 2 * k <= z && z + 2 * k <= t + 8 * k
    requires Number(a[..], ao, na, u) && Number(b[..], bo, nb, v)
    requires Disjoint(mem, z, 2 * k, a, ao, na) && Disjoint(mem, t + 8 * k, Scratch(k), a, ao, na)
    requires Disjoint(mem, z, 2 * k, b, bo, nb) && Disjoint(mem, t + 8 * k, Scratch(k), b, bo, nb)
    modifies mem
    ensures Outside2(old(mem[..]), mem[..], z, 2 * k, t + 8 * k, Scratch(k)) && n <= 2 * k
    ensures Number(mem[..], z, n, Times(u, v))
    decreases k, 2
  {
    ScratchGrows(Max(na, nb), k);
    n := Karatsuba(mem, z, t + 8 * k, a, ao, na, b, bo, nb);
  }

  /** The numbers at the places of the scratch region. */
  predicate Sums2(s: seq<Word>, t: nat, k: nat, ns1: nat, ns2: nat, u: nat, v: nat) {
    ns1 <= k && ns2 <= k && Number(s, t, ns1, u) && Number(s, t + k, ns2, v)
  }

  predicate Product(s: seq<Word>, z: nat, k: nat, nz: nat, v: nat) {
    nz <= 2 * k && Number(s, z, nz, v)
  }

  lemma {:induction false} Sums2Stay(before: seq<Word>, after: seq<Word>, t: nat, k: nat, z: nat, ns1: nat, ns2: nat, u: nat, v: nat)
    requires Outside2(before, after, z, 2 * k, t + 8 * k, Scratch(k)) && t + 2 * k <= z
    requires Sums2(before, t, k, ns1, ns2, u, v)
    ensures Sums2(after, t, k, ns1, ns2, u, v)
  {
    NumberStays2(before, after, z, 2 * k, t + 8 * k, Scratch(k), t, ns1);
    NumberStays2(before, after, z, 2 * k, t + 8 * k, Scratch(k), t + k, ns2);
  }

  lemma {:induction false} ProductStays(before: seq<Word>, after: seq<Word>, z: nat, k: nat, t: nat, m: nat, o: nat, nz: nat, v: nat)
    requires Outside2(before, after, z, 2 * k, t, m) && Product(before, o, k, nz, v)
    requires (o + 2 * k <= z || z + 2 * k <= o) && o + 2 * k <= t
    ensures Product(after, o, k, nz, v)
  {
    NumberStays2(before, after, z, 2 * k, t, m, o, nz);
  }

  /** The product of the low halves and of the sums. */
  method FirstProducts(mem: array<Word>, t: nat, k: nat, a: array<Word>, alo: nat, nlo1: nat, b: array<Word>, blo: nat, nlo2: nat,
                       ns1: nat, ns2: nat, ghost l1: nat, ghost l2: nat, ghost u: nat, ghost v: nat)
    returns (nz0: nat, nz1: nat)
    requires ScratchFits(mem, t, k) && nlo1 <= k && nlo2 <= k
    requires Factor(mem, t, 8 * k + Scratch(k), a, alo, nlo1, l1) && Factor(mem, t, 8 * k + Scratch(k), b, blo, nlo2, l2)
    requires Sums2(mem[..], t, k, ns1, ns2, u, v)
    modifies mem
    ensures Outside(old(mem[..]), mem[..], t, 8 * k + Scratch(k))
    ensures Product(mem[..], t + 2 * k, k, nz0, Times(l1, l2)) && Product(mem[..], t + 4 * k, k, nz1, Times(u, v))
    decreases k, 3
  {
    ghost var m0, total := mem[..], 8 * k + Scratch(k);
    nz0 := Part(mem, t + 2 * k, t, k, a, alo, nlo1, b, blo, nlo2, l1, l2);
    ghost var m1 := mem[..];
    Outside2Within(m0, m1, t + 2 * k, 2 * k, t + 8 * k, Scratch(k), t, total);
    Sums2Stay(m0, m1, t, k, t + 2 * k, ns1, ns2, u, v);
    nz1 := Part(mem, t + 4 * k, t, k, mem, t, ns1, mem, t + k, ns2, u, v);
    SecondWritten(m0, m1, mem[..], t, k, nz0, Times(l1, l2));
  }

  lemma {:induction false} SecondWritten(m0: seq<Word>, m1: seq<Word>, m2: seq<Word>, t: nat, k: nat, nz0: nat, v0: nat)
    requires Outside(m0, m1, t, 8 * k + Scratch(k)) && Outside2(m1, m2, t + 4 * k, 2 * k, t + 8 * k, Scratch(k))
    requires Product(m1, t + 2 * k, k, nz0, v0)
    ensures Outside(m0, m2, t, 8 * k + Scratch(k)) && Product(m2, t + 2 * k, k, nz0, v0)
  {
    Outside2Within(m1, m2, t + 4 * k, 2 * k, t + 8 * k, Scratch(k), t, 8 * k + Scratch(k));
    OutsideTwice(m0, m1, m2, t, 8 * k + Scratch(k));
    ProductStays(m1, m2, t + 4 * k, k, t + 8 * k, Scratch(k), t + 2 * k, nz0, v0);
  }

  lemma {:induction false} ThirdWritten(m0: seq<Word>, m2: seq<Word>, m3: seq<Word>, t: nat, k: nat,
                                        nz0: nat, v0: nat, nz1: nat, v1: nat)
    requires Outside(m0, m2, t, 8 * k + Scratch(k)) && Outside2(m2, m3, t + 6 * k, 2 * k, t + 8 * k, Scratch(k))
    requires Product(m2, t + 2 * k, k, nz0, v0) && Product(m2, t + 4 * k, k, nz1, v1)
    ensures Outside(m0, m3, t, 8 * k + Scratch(k))
    ensures Product(m3, t + 2 * k, k, nz0, v0) && Product(m3, t + 4 * k, k, nz1, v1)
  {
    Outside2Within(m2, m3, t + 6 * k, 2 * k, t + 8 * k, Scratch(k), t, 8 * k + Scratch(k));
    OutsideTwice(m0, m2, m3, t, 8 * k + Scratch(k));
    ProductStays(m2, m3, t + 6 * k, k, t + 8 * k, Scratch(k), t + 2 * k, nz0, v0);
    ProductStays(m2, m3, t + 6 * k, k, t + 8 * k, Scratch(k), t + 4 * k, nz1, v1);
  }

  /** The three products. */
  method Products(mem: array<Word>, t: nat, k: nat, a: array<Word>, alo: nat, nlo1: nat, ahi: nat, nhi1: nat,
                  b: array<Word>, blo: nat, nlo2: nat, bhi: nat, nhi2: nat, ns1: nat, ns2: nat,
                  ghost l1: nat, ghost h1: nat, ghost l2: nat, ghost h2: nat)
    returns (nz0: nat, nz1: nat, nz2: nat)
    requires ScratchFits(mem, t, k)
    requires BothHalves(mem, t, 8 * k + Scratch(k), k, a, alo, nlo1, ahi, nhi1, l1, h1)
    requires BothHalves(mem, t, 8 * k + Scratch(k), k, b, blo, nlo2, bhi, nhi2, l2, h2)
    requires Sums2(mem[..], t, k, ns1, ns2, l1 + h1, l2 + h2)
    modifies mem
    ensures Outside(old(mem[..]), mem[..], t, 8 * k + Scratch(k))
    ensures Product(mem[..], t + 2 * k, k, nz0, Times(l1, l2))
    ensures Product(mem[..], t + 4 * k, k, nz1, Times(l1 + h1, l2 + h2))
    ensures Product(mem[..], t + 6 * k, k, nz2, Times(h1, h2))
    decreases k, 4
  {
    ghost var m0, x, y, total := mem[..], a[..], b[..], 8 * k + Scratch(k);
    nz0, nz1 := FirstProducts(mem, t, k, a, alo, nlo1, b, blo, nlo2, ns1, ns2, l1, l2, l1 + h1, l2 + h2);
    ghost var m2 := mem[..];
    FactorStays(m0, mem, t, total, a, x, ahi, nhi1, h1);
    FactorStays(m0, mem, t, total, b, y, bhi, nhi2, h2);
    nz2 := Part(mem, t + 6 * k, t, k, a, ahi, nhi1, b, bhi, nhi2, h1, h2);
    ThirdWritten(m0, m2, mem[..], t, k, nz0, Times(l1, l2), nz1, Times(l1 + h1, l2 + h2));
  }

  /** The sums of the halves of both factors. */
  method Sums(mem: array<Word>, t: nat, k: nat, ghost total: nat, a: array<Word>, alo: nat, nlo1: nat, ahi: nat, nhi1: nat,
              b: array<Word>, blo: nat, nlo2: nat, bhi: nat, nhi2: nat,
              ghost l1: nat, ghost h1: nat, ghost l2: nat, ghost h2: nat)
    returns (ns1: nat, ns2: nat)
    requires t + total <= mem.Length && 2 * k <= total
    requires BothHalves(mem, t, total, k, a, alo, nlo1, ahi, nhi1, l1, h1)
    requires BothHalves(mem, t, total, k, b, blo, nlo2, bhi, nhi2, l2, h2)
    requires l1 + h1 < Pow(k) && l2 + h2 < Pow(k)
    modifies mem
    ensures Outside(old(mem[..]), mem[..], t, total) && Sums2(mem[..], t, k, ns1, ns2, l1 + h1, l2 + h2)
    ensures BothHalves(mem, t, total, k, a, alo, nlo1, ahi, nhi1, l1, h1)
    ensures BothHalves(mem, t, total, k, b, blo, nlo2, bhi, nhi2, l2, h2)
  {
    ghost var m0, x, y := mem[..], a[..], b[..];
    ns1 := Add(mem, t, k, a, alo, nlo1, a, ahi, nhi1);
    ghost var m1 := mem[..];
    HalvesStay(m0, mem, t, total, k, b, y, blo, nlo2, bhi, nhi2, l2, h2);
    ns2 := Add(mem, t + k, k, b, blo, nlo2, b, bhi, nhi2);
    NumberStays(m1, mem[..], t + k, k, t, ns1, l1 + h1);
    HalvesStay(m0, mem, t, total, k, a, x, alo, nlo1, ahi, nhi1, l1, h1);
    HalvesStay(m0, mem, t, total, k, b, y, blo, nlo2, bhi, nhi2, l2, h2);
  }

  /** Take the outer products out of the product of the sums.  Both subtractions take
      the smaller number from the larger. */
  method Middle(mem: array<Word>, z0: nat, nz0: nat, z1: nat, nz1: nat, z2: nat, nz2: nat, room: nat,
                ghost x0: nat, ghost x1: nat, ghost x2: nat)
    returns (n: nat)
    requires z1 + room <= mem.Length && nz1 <= room
    requires (z0 + nz0 <= z1 || z1 + room <= z0) && (z2 + nz2 <= z1 || z1 + room <= z2)
    requires Number(mem[..], z0, nz0, x0) && Number(mem[..], z1, nz1, x0 + x1 + x2) && Number(mem[..], z2, nz2, x2)
    modifies mem
    ensures Outside(old(mem[..]), mem[..], z1, room) && n <= room && Number(mem[..], z1, n, x1)
    ensures Number(mem[..], z0, nz0, x0) && Number(mem[..], z2, nz2, x2)
  {
    ghost var m0 := mem[..];
    LengthFollows(m0, z1, nz1, x0 + x1 + x2, m0, z0, nz0, x0);
    n := Sub(mem, z1, mem, z1, nz1, mem, z0, nz0);
    ghost var m1 := mem[..];
    NumberStays(m0, m1, z1, nz1, z0, nz0, x0);
    NumberStays(m0, m1, z1, nz1, z2, nz2, x2);
    LengthFollows(m1, z1, n, x1 + x2, m1, z2, nz2, x2);
    n := Sub(mem, z1, mem, z1, n, mem, z2, nz2);
    NumberStays(m1, mem[..], z1, nz1, z0, nz0, x0);
    NumberStays(m1, mem[..], z1, nz1, z2, nz2, x2);
  }

  /** The smaller number is not the longer one. */
  lemma {:induction false} LengthFollows(s: seq<Word>, o: nat, n: nat, u: nat, t: seq<Word>, p: nat, m: nat, v: nat)
    requires Number(s, o, n, u) && Number(t, p, m, v) && v <= u
    ensures m <= n
  {
    NumBound(s, o, n);
    NumberFits(t, p, m, v, n);
  }

  lemma {:induction false} ProductFits(x: Source, y: Source)
    requires x.Valid() && y.Valid()
    ensures Times(x.Value(), y.Value()) < Pow(x.n + y.n)
  {
    NumBound(x.words, x.o, x.n);
    NumBound(y.words, y.o, y.n);
    TimesBound(x.Value(), y.Value(), x.n, y.n);
  }

  /** The arithmetic of one level. */
  lemma {:induction false} Level(x: Source, y: Source, h: nat)
    requires x.Valid() && y.Valid() && x.n <= 2 * h + 1 && y.n <= 2 * h + 1
    ensures var l1, h1, l2, h2 := x.LowValue(h), High(x, h), y.LowValue(h), High(y, h);
      && l1 + h1 < Pow(h + 2) && l2 + h2 < Pow(h + 2)
      && Times(l1 + h1, l2 + h2) == Times(l1, l2) + (Times(l1, h2) + Times(h1, l2)) + Times(h1, h2)
      && Times(x.Value(), y.Value()) == Times(l1, l2) + Up(Times(l1, h2) + Times(h1, l2), h) + Up(Times(h1, h2), 2 * h)
      && Times(x.Value(), y.Value()) < Pow(x.n + y.n)
  {
    Halves(x, h);
    Halves(y, h);
    CrossProducts(x.LowValue(h), High(x, h), y.LowValue(h), High(y, h));
    Assembled(x.LowValue(h), High(x, h), y.LowValue(h), High(y, h), h);
    ProductFits(x, y);
  }

  /** One level of the recursion, given the halves of both factors. */
  method Recurse(mem: array<Word>, d: nat, room: nat, t: nat, h: nat, k: nat, a: array<Word>, alo: nat, nlo1: nat, ahi: nat, nhi1: nat,
                 b: array<Word>, blo: nat, nlo2: nat, bhi: nat, nhi2: nat,
                 ghost l1: nat, ghost h1: nat, ghost l2: nat, ghost h2: nat, ghost p: nat)
    returns (n: nat)
    requires k == h + 2 && ScratchFits(mem, t, k) && d + room <= mem.Length && 2 * h <= room
    requires d + room <= t || t + 8 * k + Scratch(k) <= d
    requires BothHalves(mem, t, 8 * k + Scratch(k), k, a, alo, nlo1, ahi, nhi1, l1, h1)
    requires BothHalves(mem, t, 8 * k + Scratch(k), k, b, blo, nlo2, bhi, nhi2, l2, h2)
    requires l1 + h1 < Pow(k) && l2 + h2 < Pow(k)
    requires p == Times(l1, l2) + Up(Times(l1, h2) + Times(h1, l2), h) + Up(Times(h1, h2), 2 * h) && p < Pow(room)
    modifies mem
    ensures Outside2(old(mem[..]), mem[..], d, room, t, 8 * k + Scratch(k)) && n <= room
    ensures Number(mem[..], d, n, p)
    decreases k, 5
  {
    ghost var m0, total := mem[..], 8 * k + Scratch(k);
    ghost var x0, x1, x2 := Times(l1, l2), Times(l1, h2) + Times(h1, l2), Times(h1, h2);
    CrossProducts(l1, h1, l2, h2);
    var ns1, ns2 := Sums(mem, t, k, total, a, alo, nlo1, ahi, nhi1, b, blo, nlo2, bhi, nhi2, l1, h1, l2, h2);
    ghost var m1 := mem[..];
    var nz0, nz1, nz2 := Products(mem, t, k, a, alo, nlo1, ahi, nhi1, b, blo, nlo2, bhi, nhi2, ns1, ns2, l1, h1, l2, h2);
    OutsideTwice(m0, m1, mem[..], t, total);
    ghost var m2 := mem[..];
    n := PutTogether(mem, d, room, t, h, k, nz0, nz1, nz2, x0, x1, x2);
    Outside2Twice(m0, m2, mem[..], d, room, t, total);
  }

  lemma {:induction false} Outside2Twice(before: seq<Word>, mid: seq<Word>, after: seq<Word>, d: nat, n: nat, t: nat, m: nat)
    requires Outside(before, mid, t, m) && Outside2(mid, after, d, n, t, m)
    ensures Outside2(before, after, d, n, t, m)
  {
  }

  /** From the three products to the whole one. */
  method PutTogether(mem: array<Word>, d: nat, room: nat, t: nat, h: nat, k: nat, nz0: nat, nz1: nat, nz2: nat,
                     ghost x0: nat, ghost x1: nat, ghost x2: nat) returns (n: nat)
    requires k == h + 2 && ScratchFits(mem, t, k) && d + room <= mem.Length && 2 * h <= room
    requires d + room <= t || t + 8 * k + Scratch(k) <= d
    requires Product(mem[..], t + 2 * k, k, nz0, x0) && Product(mem[..], t + 4 * k, k, nz1, x0 + x1 + x2)
    requires Product(mem[..], t + 6 * k, k, nz2, x2)
    requires x0 + Up(x1, h) + Up(x2, 2 * h) < Pow(room)
    modifies mem
    ensures Outside2(old(mem[..]), mem[..], d, room, t, 8 * k + Scratch(k)) && n <= room
    ensures Number(mem[..], d, n, x0 + Up(x1, h) + Up(x2, 2 * h))
  {
    var z0, z1, z2 := t + 2 * k, t + 4 * k, t + 6 * k;
    var nm := Middle(mem, z0, nz0, z1, nz1, z2, nz2, 2 * k, x0, x1, x2);
    n := Combine(mem, d, room, h, z0, nz0, z1, nm, z2, nz2, x0, x1, x2);
  }

  lemma {:induction false} HalvesFound(mem: array<Word>, t: nat, total: nat, k: nat, a: array<Word>, ao: nat, na: nat,
                                       h: nat, nlo: nat, nhi: nat)
    requires ao + na <= a.Length && na <= 2 * h + 1 && k == h + 2 && Disjoint(mem, t, total, a, ao, na)
    requires IsSplit(Source(a[..], ao, na), h, nlo, nhi)
    ensures var x := Source(a[..], ao, na);
      BothHalves(mem, t, total, k, a, ao, nlo, ao + Min(h, na), nhi, x.LowValue(h), High(x, h))
  {
  }

  /** Multiply a and b.  The product goes to na + nb words at d; scratch space from t
      on is used, and nothing else changes. */
  method Karatsuba(mem: array<Word>, d: nat, t: nat, a: array<Word>, ao: nat, na: nat, b: array<Word>, bo: nat, nb: nat)
    returns (n: nat)
    requires Layout(mem, d, t, na + nb, Scratch(Max(na, nb)), a, ao, na)
    requires Layout(mem, d, t, na + nb, Scratch(Max(na, nb)), b, bo, nb)
    modifies mem
    ensures Outside2(old(mem[..]), mem[..], d, na + nb, t, Scratch(Max(na, nb))) && n <= na + nb
    ensures Number(mem[..], d, n, Times(Num(old(a[..]), ao, na), Num(old(b[..]), bo, nb)))
    decreases Max(na, nb), 1
  {
    if na < THRESHOLD && nb < THRESHOLD {
      n := SchoolBook(mem, d, a, ao, na, b, bo, nb);
    } else {
      n := DivideAndConquer(mem, d, t, a, ao, na, b, bo, nb);
    }
  }

  method DivideAndConquer(mem: array<Word>, d: nat, t: nat, a: array<Word>, ao: nat, na: nat, b: array<Word>, bo: nat, nb: nat)
    returns (n: nat)
    requires Max(na, nb) >= THRESHOLD
    requires Layout(mem, d, t, na + nb, Scratch(Max(na, nb)), a, ao, na)
    requires Layout(mem, d, t, na + nb, Scratch(Max(na, nb)), b, bo, nb)
    modifies mem
    ensures Outside2(old(mem[..]), mem[..], d, na + nb, t, Scratch(Max(na, nb))) && n <= na + nb
    ensures Number(mem[..], d, n, Times(Num(old(a[..]), ao, na), Num(old(b[..]), bo, nb)))
    decreases Max(na, nb), 0
  {
    var h := Max(na, nb) / 2;
    var k := h + 2;
    ghost var x, y, total := Source(a[..], ao, na), Source(b[..], bo, nb), 8 * k + Scratch(k);
    assert Scratch(Max(na, nb)) == total;
    var nlo1, nhi1 := Split(a, ao, na, h);
    var nlo2, nhi2 := Split(b, bo, nb, h);
    ghost var l1, h1, l2, h2, p := LevelReady(mem, t, total, h, k, a, x, nlo1, nhi1, b, y, nlo2, nhi2);
    n := Recurse(mem, d, na + nb, t, h, k, a, ao, nlo1, ao + Min(h, na), nhi1, b, bo, nlo2, bo + Min(h, nb), nhi2, l1, h1, l2, h2, p);
  }

  /** Names for the values of one level. */
  lemma {:induction false} LevelReady(
    mem: array<Word>, t: nat, total: nat, h: nat, k: nat, a: array<Word>, x: Source, nlo1: nat, nhi1: nat,
    b: array<Word>, y: Source, nlo2: nat, nhi2: nat) returns (l1: nat, h1: nat, l2: nat, h2: nat, p: nat)
    requires IsSplit(x, h, nlo1, nhi1) && x.words == a[..] && Disjoint(mem, t, total, a, x.o, x.n)
    requires IsSplit(y, h, nlo2, nhi2) && y.words == b[..] && Disjoint(mem, t, total, b, y.o, y.n)
    requires x.n <= 2 * h + 1 && y.n <= 2 * h + 1 && k == h + 2
    ensures BothHalves(mem, t, total, k, a, x.o, nlo1, x.o + Min(h, x.n), nhi1, l1, h1)
    ensures BothHalves(mem, t, total, k, b, y.o, nlo2, y.o + Min(h, y.n), nhi2, l2, h2)
    ensures l1 + h1 < Pow(k) && l2 + h2 < Pow(k) && p < Pow(x.n + y.n)
    ensures p == Times(Num(x.words, x.o, x.n), Num(y.words, y.o, y.n))
    ensures p == Times(l1, l2) + Up(Times(l1, h2) + Times(h1, l2), h) + Up(Times(h1, h2), 2 * h)
  {
    Level(x, y, h);
    l1, h1, l2, h2 := x.LowValue(h), High(x, h), y.LowValue(h), High(y, h);
    p := Times(x.Value(), y.Value());
    HalvesFound(mem, t, total, k, a, x.o, x.n, h, nlo1, nhi1);
    HalvesFound(mem, t, total, k, b, y.o, y.n, h, nlo2, nhi2);
  }

  method SchoolBook(mem: array<Word>, d: nat, a: array<Word>, ao: nat, na: nat, b: array<Word>, bo: nat, nb: nat)
    returns (n: nat)
    requires Layout(mem, d, d + na + nb, na + nb, 0, a, ao, na) && Layout(mem, d, d + na + nb, na + nb, 0, b, bo, nb)
    modifies mem
    ensures Outside(old(mem[..]), mem[..], d, na + nb) && n <= na + nb
    ensures Number(mem[..], d, n, Times(Num(old(a[..]), ao, na), Num(old(b[..]), bo, nb)))
  {
    ghost var x, y := a[..], b[..];
    Zero(mem, d, d + na + nb);
    NumSame(x, ao, a[..], ao, na);
    NumSame(y, bo, b[..], bo, nb);
    n := MulAdd(mem, d, a, ao, na, b, bo, nb);
  }
}
