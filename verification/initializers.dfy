/**
  Post-processing of an initializer: the assignments to parts of an object are put
  in order, later ones replacing earlier ones, and everything between and after
  them is filled with stores of zero.
*/
module Initializers {
  datatype Value = Zero | Init(v: int)

  /** An assignment to the bytes from an offset on. */
  datatype Store = Store(offset: nat, size: nat, value: Value)

  // ---------- The last assignment to an offset ----------

  /** s is the last one of the first n to be assigned at its offset. */
  predicate LastAt(values: seq<Store>, n: nat, s: Store)
    requires n <= |values|
  {
    exists q :: 0 <= q < n && values[q] == s && NoneAfter(values, n, q)
  }

  predicate NoneAfter(values: seq<Store>, n: nat, q: nat)
    requires q < n <= |values|
  {
    forall r :: q < r < n ==> values[r].offset != values[q].offset
  }

  predicate Increasing(code: seq<Store>) {
    forall i, j :: 0 <= i < j < |code| ==> code[i].offset < code[j].offset
  }

  /** code is the last assignments among the first n, by offset. */
  predicate Trimmed(values: seq<Store>, n: nat, code: seq<Store>)
    requires n <= |values|
  {
    && Increasing(code)
    && (forall i :: 0 <= i < |code| ==> LastAt(values, n, code[i]))
    && (forall q :: 0 <= q < n && NoneAfter(values, n, q) ==> values[q] in code)
  }

  /** code with e in the place of the elements from low up to k. */
  function Spliced(code: seq<Store>, low: nat, k: nat, e: Store): (after: seq<Store>)
    requires low <= k <= |code|
    ensures |after| == |code| - (k - low) + 1
    ensures forall i :: 0 <= i < |after| ==> after[i] == if i < low then code[i] else if i == low then e else code[i - low - 1 + k]
  {
    code[..low] + [e] + code[k..]
  }

  /** An element goes in at k, replacing the one before it if that has its offset. */
  lemma {:induction false} TrimmedMore(values: seq<Store>, n: nat, code: seq<Store>, low: nat, k: nat)
    requires n < |values| && Trimmed(values, n, code) && low <= k <= |code|
    requires forall j :: k <= j < |code| ==> code[j].offset > values[n].offset
    requires forall j :: 0 <= j < low ==> code[j].offset < values[n].offset
    requires forall j :: low <= j < k ==> code[j].offset == values[n].offset
    ensures Trimmed(values, n + 1, Spliced(code, low, k, values[n]))
  {
    var e, after := values[n], Spliced(code, low, k, values[n]);
    var n' := n + 1;
    SplicedIncreasing(code, low, k, e);
    forall i | 0 <= i < |after|
      ensures LastAt(values, n', after[i])
    {
      if i == low {
        assert NoneAfter(values, n', n);
      } else {
        StaysLast(values, n, after[i]);
      }
    }
    forall q | 0 <= q < n' && NoneAfter(values, n', q)
      ensures values[q] in after
    {
      StillThere(values, n, code, low, k, q);
    }
  }

  lemma {:induction false} SplicedIncreasing(code: seq<Store>, low: nat, k: nat, e: Store)
    requires Increasing(code) && low <= k <= |code|
    requires forall j :: k <= j < |code| ==> code[j].offset > e.offset
    requires forall j :: 0 <= j < low ==> code[j].offset < e.offset
    ensures Increasing(Spliced(code, low, k, e))
  {
  }

  lemma {:induction false} StaysLast(values: seq<Store>, n: nat, s: Store)
    requires n < |values| && LastAt(values, n, s) && s.offset != values[n].offset
    ensures LastAt(values, n + 1, s)
  {
    var q :| 0 <= q < n && values[q] == s && NoneAfter(values, n, q);
    assert NoneAfter(values, n + 1, q);
  }

  lemma {:induction false} StillThere(values: seq<Store>, n: nat, code: seq<Store>, low: nat, k: nat, q: nat)
    requires n < |values| && Trimmed(values, n, code) && low <= k <= |code| && q <= n && NoneAfter(values, n + 1, q)
    requires forall j :: low <= j < k ==> code[j].offset == values[n].offset
    ensures values[q] in Spliced(code, low, k, values[n])
  {
    var after := Spliced(code, low, k, values[n]);
    if q == n {
      assert after[low] == values[q];
    } else {
      assert NoneAfter(values, n, q) && values[n].offset != values[q].offset;
      var i :| 0 <= i < |code| && code[i] == values[q];
      assert after[if i < low then i else i - k + low + 1] == values[q];
    }
  }

  /** Swap the element at place i down to where its offset belongs; j tells the place
      before it, 0 if there is none. */
  method SwapDown(code0: seq<Store>, i: nat) returns (code: seq<Store>, j: nat, ghost k: nat)
    requires 0 < i < |code0| && Increasing(code0[..i])
    ensures k <= i && code == code0[..k] + [code0[i]] + code0[k..i] + code0[i + 1..]
    ensures forall h :: k <= h < i ==> code0[h].offset > code0[i].offset
    ensures k > 0 ==> code0[k - 1].offset <= code0[i].offset
    ensures j == if k == 0 then 0 else k - 1
  {
    code, j, k := code0, i - 1, i;
    while code[j].offset > code[j + 1].offset
      invariant j < i && k == j + 1
      invariant code == code0[..k] + [code0[i]] + code0[k..i] + code0[i + 1..]
      invariant forall h :: k <= h < i ==> code0[h].offset > code0[i].offset
    {
      var tmp := code[j];
      code := code[j := code[j + 1]];
      code := code[j + 1 := tmp];
      k := j;
      assert code == code0[..k] + [code0[i]] + code0[k..i] + code0[i + 1..];
      if j == 0 {
        break;
      }
      j := j - 1;
    }
  }

  /** The first i elements are the last assignments among the first n; the rest is
      still to come. */
  predicate SortedUpTo(values: seq<Store>, n: nat, code: seq<Store>, i: nat) {
    && 1 <= i <= |code| && i <= n <= |values| && code[i..] == values[n..]
    && Trimmed(values, n, code[..i])
  }

  lemma {:induction false} SortStep(values: seq<Store>, n: nat, code0: seq<Store>, i: nat, code: seq<Store>, k: nat)
    requires SortedUpTo(values, n, code0, i) && i < |code0| && k <= i
    requires code == code0[..k] + [code0[i]] + code0[k..i] + code0[i + 1..]
    requires forall h :: k <= h < i ==> code0[h].offset > code0[i].offset
    requires k > 0 ==> code0[k - 1].offset <= code0[i].offset
    ensures var j := if k == 0 then 0 else k - 1;
      && n < |values| && j + 1 < |code|
      && if code[j].offset == code[j + 1].offset then SortedUpTo(values, n + 1, code[..j] + code[j + 1..], i)
         else SortedUpTo(values, n + 1, code, i + 1)
  {
    var done, e := code0[..i], code0[i];
    RestFollows(code0, i, values, n);
    Moved(code0, i, code, k);
    if k > 0 && code0[k - 1].offset == e.offset {
      TrimmedMore(values, n, done, k - 1, k);
    } else {
      TrimmedMore(values, n, done, k, k);
    }
  }

  lemma {:induction false} RestFollows(code0: seq<Store>, i: nat, values: seq<Store>, n: nat)
    requires i < |code0| && n <= |values| && code0[i..] == values[n..]
    ensures n < |values| && code0[i] == values[n] && code0[i + 1..] == values[n + 1..]
  {
    assert code0[i] == code0[i..][0] && code0[i + 1..] == code0[i..][1..] == values[n..][1..];
  }

  /** The array after the swaps: with the element in its place, and with the one before
      it erased. */
  lemma {:induction false} Moved(code0: seq<Store>, i: nat, code: seq<Store>, k: nat)
    requires k <= i && 0 < i < |code0| && code == code0[..k] + [code0[i]] + code0[k..i] + code0[i + 1..]
    ensures |code| == |code0| && code[k] == code0[i] && (k > 0 ==> code[k - 1] == code0[k - 1]) && (k == 0 ==> code[1] == code0[0])
    ensures code[..i + 1] == Spliced(code0[..i], k, k, code0[i]) && code[i + 1..] == code0[i + 1..]
    ensures k > 0 ==> var cut := code[..k - 1] + code[k..];
      |cut| == |code0| - 1 && cut[..i] == Spliced(code0[..i], k - 1, k, code0[i]) && cut[i..] == code0[i + 1..]
  {
    assert |code| == |code0|;
    assert code[..i + 1] == Spliced(code0[..i], k, k, code0[i]);
    if k > 0 {
      var cut := code[..k - 1] + code[k..];
      assert |cut| == |code0| - 1;
      assert cut[..i] == Spliced(code0[..i], k - 1, k, code0[i]);
    }
  }

  /** Put the next assignment in order; it replaces an earlier one to the same offset. */
  method PlaceOne(ghost values: seq<Store>, ghost n: nat, code0: seq<Store>, i0: nat) returns (code: seq<Store>, i: nat)
    requires SortedUpTo(values, n, code0, i0) && i0 < |code0|
    ensures n < |values| && SortedUpTo(values, n + 1, code, i)
  {
    i := i0;
    var j;
    ghost var k;
    code, j, k := SwapDown(code0, i);
    SortStep(values, n, code0, i, code, k);
    if code[j].offset == code[j + 1].offset {
      code := code[..j] + code[j + 1..];
      i := i - 1;
    }
    i := i + 1;
  }

  /** Put the assignments in order and drop those that were assigned again. */
  method SortAndTrim(values: seq<Store>) returns (code: seq<Store>)
    ensures Trimmed(values, |values|, code)
  {
    code := values;
    if |code| == 0 {
      return;
    }
    var i := 1;
    ghost var n := 1;
    FirstTrimmed(values);
    while i < |code|
      invariant SortedUpTo(values, n, code, i)
      decreases |values| - n
    {
      code, i := PlaceOne(values, n, code, i);
      n := n + 1;
    }
    assert code[..i] == code && code[i..] == [];
  }

  lemma {:induction false} FirstTrimmed(values: seq<Store>)
    requires |values| > 0
    ensures SortedUpTo(values, 1, values, 1)
  {
    assert NoneAfter(values, 1, 0) && values[..1] == [values[0]];
  }

  // ---------- Filling ----------

  /** The stores cover the bytes from a up to b exactly, in order. */
  predicate Tiles(code: seq<Store>, a: nat, b: nat) {
    if code == [] then a == b
    else code[0].offset == a && code[0].size > 0 && Tiles(code[1..], a + code[0].size, b)
  }

  lemma {:induction false} TilesAppend(code: seq<Store>, a: nat, b: nat, more: seq<Store>, c: nat)
    requires Tiles(code, a, b) && Tiles(more, b, c)
    ensures Tiles(code + more, a, c)
    decreases |code|
  {
    if code == [] {
      assert code + more == more;
    } else {
      TilesAppend(code[1..], a + code[0].size, b, more, c);
      assert (code + more)[1..] == code[1..] + more;
    }
  }

  lemma {:induction false} TilesOne(code: seq<Store>, a: nat, b: nat, s: Store)
    requires Tiles(code, a, b) && s.offset == b && s.size > 0
    ensures Tiles(code + [s], a, b + s.size)
  {
    assert Tiles([s], b, b + s.size);
    TilesAppend(code, a, b, [s], b + s.size);
  }

  /** Where the i-th of the stores lies. */
  lemma {:induction false} TileAt(code: seq<Store>, a: nat, b: nat, i: nat)
    requires Tiles(code, a, b) && i < |code|
    ensures a <= code[i].offset < code[i].offset + code[i].size <= b
    ensures i + 1 < |code| ==> code[i + 1].offset == code[i].offset + code[i].size
    decreases i
  {
    if i > 0 {
      TileAt(code[1..], a + code[0].size, b, i - 1);
    } else {
      TilesForward(code[1..], a + code[0].size, b);
    }
  }

  lemma {:induction false} TilesForward(code: seq<Store>, a: nat, b: nat)
    requires Tiles(code, a, b)
    ensures a <= b && (code != [] ==> code[0].offset == a)
    decreases |code|
  {
    if code != [] {
      TilesForward(code[1..], a + code[0].size, b);
    }
  }

  /** Exactly one of the stores covers each byte. */
  lemma {:induction false} TileCovers(code: seq<Store>, a: nat, b: nat, x: nat) returns (i: nat)
    requires Tiles(code, a, b) && a <= x < b
    ensures i < |code| && Covers(code[i], x)
    ensures forall j :: 0 <= j < |code| && j != i ==> !Covers(code[j], x)
    decreases |code|
  {
    var rest, next := code[1..], a + code[0].size;
    if x < next {
      i := 0;
      forall j | 0 < j < |code|
        ensures !Covers(code[j], x)
      {
        TileAt(rest, next, b, j - 1);
      }
    } else {
      var k := TileCovers(rest, next, b, x);
      i := k + 1;
      forall j | 0 <= j < |code| && j != i
        ensures !Covers(code[j], x)
      {
        assert j > 0 ==> code[j] == rest[j - 1];
      }
    }
  }

  predicate Covers(s: Store, x: nat) { s.offset <= x < s.offset + s.size }

  /** How many bytes are set to zero at once when so many are left. */
  predicate ZeroSize(size: nat, left: nat) {
    size == if left % 8 == 0 then 8 else if left % 8 in {1, 2, 4} then left % 8 else 1
  }

  /** Append stores of zero, of 1, 2, 4 or 8 bytes. */
  method ZeroInitializeBytes(block0: seq<Store>, offset0: nat, bytes0: nat, ghost a: nat) returns (block: seq<Store>)
    requires Tiles(block0, a, offset0)
    ensures Tiles(block, a, offset0 + bytes0) && block0 <= block
    ensures forall i :: |block0| <= i < |block| ==> block[i].value == Zero && block[i].size in {1, 2, 4, 8}
    ensures forall i :: |block0| <= i < |block| ==>
      offset0 <= block[i].offset < offset0 + bytes0 && ZeroSize(block[i].size, offset0 + bytes0 - block[i].offset)
  {
    block := block0;
    var offset, bytes := offset0, bytes0;
    while bytes > 0
      invariant offset + bytes == offset0 + bytes0 && Tiles(block, a, offset) && block0 <= block
      invariant forall i :: |block0| <= i < |block| ==> block[i].value == Zero && block[i].size in {1, 2, 4, 8}
      invariant forall i :: |block0| <= i < |block| ==>
        offset0 <= block[i].offset < offset0 + bytes0 && ZeroSize(block[i].size, offset0 + bytes0 - block[i].offset)
      decreases bytes
    {
      var size := bytes % 8;
      if size == 0 {
        size := 8;
      }
      if size !in {1, 2, 4, 8} {
        size := 1;
      }
      TilesOne(block, a, offset, Store(offset, size, Zero));
      block := block + [Store(offset, size, Zero)];
      offset, bytes := offset + size, bytes - size;
    }
  }

  /** The assignments that count lie inside the object and do not overlap. */
  ghost predicate Disjoint(values: seq<Store>, total: nat) {
    && (forall s :: LastAt(values, |values|, s) ==> s.size > 0 && s.offset + s.size <= total)
    && (forall s, t :: LastAt(values, |values|, s) && LastAt(values, |values|, t) && s.offset < t.offset ==>
          s.offset + s.size <= t.offset)
  }

  /** The stores among which only those of code are not padding. */
  predicate Padded(block: seq<Store>, code: seq<Store>) {
    && (forall i :: 0 <= i < |code| ==> code[i] in block)
    && (forall i :: 0 <= i < |block| ==> block[i] in code || block[i].value == Zero)
  }

  /** Fill the gap before an assignment, and append it. */
  method PadAndAppend(block0: seq<Store>, offset: nat, s: Store, ghost code: seq<Store>) returns (block: seq<Store>)
    requires Tiles(block0, 0, offset) && offset <= s.offset && s.size > 0 && Padded(block0, code)
    ensures Tiles(block, 0, s.offset + s.size) && Padded(block, code + [s])
  {
    block := block0;
    if offset < s.offset {
      block := ZeroInitializeBytes(block, offset, s.offset - offset, 0);
    }
    TilesOne(block, 0, s.offset, s);
    block := block + [s];
  }

  /** Order the assignments and fill every gap.  The result covers the object exactly
      once, byte by byte; the last assignment to each offset is there, and everything
      else is zero. */
  method PostprocessObjectInitialization(values: seq<Store>, total: nat) returns (block: seq<Store>)
    requires Disjoint(values, total)
    ensures Tiles(block, 0, total)
    ensures forall s :: LastAt(values, |values|, s) ==> s in block
    ensures forall i :: 0 <= i < |block| ==> LastAt(values, |values|, block[i]) || block[i].value == Zero
  {
    var code := SortAndTrim(values);
    KeptInside(values, total, code);
    block := FillGaps(code, total);
    AllKept(values, code);
  }

  /** Each store ends where the next starts, or before, and inside the object. */
  predicate Spaced(code: seq<Store>, total: nat) {
    forall i :: 0 <= i < |code| ==> SpacedAt(code, total, i)
  }

  predicate SpacedAt(code: seq<Store>, total: nat, i: nat)
    requires i < |code|
  {
    code[i].size > 0 && code[i].offset + code[i].size <= if i + 1 < |code| then code[i + 1].offset else total
  }

  method FillGaps(code: seq<Store>, total: nat) returns (block: seq<Store>)
    requires Spaced(code, total)
    ensures Tiles(block, 0, total) && Padded(block, code)
  {
    block := [];
    var offset: nat, i: nat := 0, 0;
    while i < |code|
      invariant 0 <= i <= |code| && Tiles(block, 0, offset) && Padded(block, code[..i])
      invariant offset <= if i < |code| then code[i].offset else total
    {
      assert SpacedAt(code, total, i);
      block := PadAndAppend(block, offset, code[i], code[..i]);
      assert code[..i + 1] == code[..i] + [code[i]];
      offset := code[i].offset + code[i].size;
      i := i + 1;
    }
    assert code[..i] == code;
    if offset < total {
      block := ZeroInitializeBytes(block, offset, total - offset, 0);
    }
  }

  lemma {:induction false} KeptInside(values: seq<Store>, total: nat, code: seq<Store>)
    requires Disjoint(values, total) && Trimmed(values, |values|, code)
    ensures Spaced(code, total)
  {
    forall i | 0 <= i < |code|
      ensures SpacedAt(code, total, i)
    {
      assert LastAt(values, |values|, code[i]);
      assert i + 1 < |code| ==> LastAt(values, |values|, code[i + 1]);
    }
  }

  lemma {:induction false} AllKept(values: seq<Store>, code: seq<Store>)
    requires Trimmed(values, |values|, code)
    ensures forall s :: LastAt(values, |values|, s) ==> s in code
  {
  }

  // ---------- What the object holds ----------

  datatype Byte = Undefined | ZeroByte | Part(v: int, k: nat)

  function ByteOf(s: Store, x: nat): Byte
    requires Covers(s, x)
  {
    match s.value
    case Zero => ZeroByte
    case Init(v) => Part(v, x - s.offset)
  }

  /** Byte x after the first n stores. */
  function After(stores: seq<Store>, n: nat, x: nat): Byte
    requires n <= |stores|
  {
    if n == 0 then Undefined
    else if Covers(stores[n - 1], x) then ByteOf(stores[n - 1], x)
    else After(stores, n - 1, x)
  }

  lemma {:induction false} LastCovering(stores: seq<Store>, n: nat, x: nat, i: nat)
    requires i < n <= |stores| && Covers(stores[i], x) && forall j :: i < j < n ==> !Covers(stores[j], x)
    ensures After(stores, n, x) == ByteOf(stores[i], x)
    decreases n
  {
    if i + 1 < n {
      LastCovering(stores, n - 1, x, i);
    }
  }

  /** Any two assignments are to the same bytes or to different ones. */
  predicate EqualOrDisjoint(values: seq<Store>, total: nat) {
    && (forall i :: 0 <= i < |values| ==> values[i].size > 0 && values[i].offset + values[i].size <= total)
    && (forall i, j :: 0 <= i < |values| && 0 <= j < |values| ==> ApartOrSame(values[i], values[j]))
  }

  predicate ApartOrSame(s: Store, t: Store) {
    || (s.offset == t.offset && s.size == t.size)
    || s.offset + s.size <= t.offset || t.offset + t.size <= s.offset
  }

  lemma {:induction false} ApartIsDisjoint(values: seq<Store>, total: nat)
    requires EqualOrDisjoint(values, total)
    ensures Disjoint(values, total)
  {
    forall s, t | LastAt(values, |values|, s) && LastAt(values, |values|, t) && s.offset < t.offset
      ensures s.offset + s.size <= t.offset
    {
      var i :| 0 <= i < |values| && values[i] == s && NoneAfter(values, |values|, i);
      var j :| 0 <= j < |values| && values[j] == t && NoneAfter(values, |values|, j);
      assert ApartOrSame(values[i], values[j]);
    }
  }

  /** Running the result leaves the object as zeroing it and then making the
      assignments one after another would. */
  lemma {:induction false} SameObject(values: seq<Store>, total: nat, block: seq<Store>, x: nat)
    requires EqualOrDisjoint(values, total) && Tiles(block, 0, total) && x < total
    requires forall s :: LastAt(values, |values|, s) ==> s in block
    requires forall i :: 0 <= i < |block| ==> LastAt(values, |values|, block[i]) || block[i].value == Zero
    ensures var plain := [Store(0, total, Zero)] + values;
      After(block, |block|, x) == After(plain, |plain|, x)
  {
    var plain := [Store(0, total, Zero)] + values;
    var t := TileCovers(block, 0, total, x);
    LastCovering(block, |block|, x, t);
    var q := LastIndex(values, x);
    if q < 0 {
      forall j | 0 < j < |plain|
        ensures !Covers(plain[j], x)
      {
        assert plain[j] == values[j - 1];
      }
      LastCovering(plain, |plain|, x, 0);
      NotAssigned(values, block[t], x);
    } else {
      forall j | q + 1 < j < |plain|
        ensures !Covers(plain[j], x)
      {
        assert plain[j] == values[j - 1];
      }
      assert plain[q + 1] == values[q];
      LastCovering(plain, |plain|, x, q + 1);
      LastCoveringIsKept(values, total, q, x);
      assert values[q] in block;
    }
  }

  lemma {:induction false} NotAssigned(values: seq<Store>, s: Store, x: nat)
    requires Covers(s, x) && forall j :: 0 <= j < |values| ==> !Covers(values[j], x)
    ensures !LastAt(values, |values|, s)
  {
  }

  /** The last assignment that covers a byte, -1 if there is none. */
  lemma {:induction false} LastIndex(values: seq<Store>, x: nat) returns (q: int)
    ensures -1 <= q < |values| && (q >= 0 ==> Covers(values[q], x))
    ensures forall j :: q < j < |values| ==> !Covers(values[j], x)
  {
    q := |values| - 1;
    while q >= 0 && !Covers(values[q], x)
      invariant -1 <= q < |values| && forall j :: q < j < |values| ==> !Covers(values[j], x)
    {
      q := q - 1;
    }
  }

  lemma {:induction false} LastCoveringIsKept(values: seq<Store>, total: nat, q: nat, x: nat)
    requires EqualOrDisjoint(values, total) && q < |values| && Covers(values[q], x)
    requires forall j :: q < j < |values| ==> !Covers(values[j], x)
    ensures LastAt(values, |values|, values[q])
  {
    forall r | q < r < |values|
      ensures values[r].offset != values[q].offset
    {
      assert ApartOrSame(values[r], values[q]);
    }
    assert NoneAfter(values, |values|, q);
  }
}
