/**
  Lowering a switch statement: sorting its cases, and linking a chain of
  comparisons, a tree of comparisons or a jump table.
*/
module SwitchLowering {
  import opened SwitchSpec
  import opened SwitchBlocks

  // ---------- The sorted list of cases ----------

  /** head and next link the cases of order, in that order; -1 ends the list. */
  predicate Linked(head: int, next: seq<int>, order: seq<nat>) {
    && head == (if order == [] then -1 else order[0])
    && (forall k :: 0 <= k < |order| ==> order[k] < |next|)
    && (forall k :: 0 <= k < |order| ==> LinkOk(next, order, k))
    && (forall j, k :: 0 <= j < k < |order| ==> order[j] != order[k])
  }

  predicate LinkOk(next: seq<int>, order: seq<nat>, k: nat)
    requires k < |order|
  {
    order[k] < |next| && next[order[k]] == if k + 1 < |order| then order[k + 1] else -1
  }

  function Listed(cases: seq<Case>, order: seq<nat>): (s: seq<Case>)
    requires forall k :: 0 <= k < |order| ==> order[k] < |cases|
    ensures |s| == |order| && forall k :: 0 <= k < |order| ==> s[k] == cases[order[k]]
  {
    seq(|order|, k requires 0 <= k < |order| => cases[order[k]])
  }

  /** The first i cases, sorted and linked. */
  ghost predicate SortedUpTo(cases: seq<Case>, head: int, next: seq<int>, order: seq<nat>, i: nat) {
    && i <= |cases| == |next| && Linked(head, next, order) && |order| == i
    && (forall k :: 0 <= k < |order| ==> order[k] < i)
    && Ascending(Listed(cases, order)) && multiset(Listed(cases, order)) == multiset(cases[..i])
  }

  lemma {:induction false} Inserted(cases: seq<Case>, head: int, next: seq<int>, order: seq<nat>, i: nat, k: nat)
    requires SortedUpTo(cases, head, next, order, i) && i < |cases| && ValidCases(cases) && k <= |order|
    requires forall j :: 0 <= j < k ==> cases[order[j]].value <= cases[i].value
    requires k < |order| ==> cases[i].value < cases[order[k]].value
    ensures var next1 := next[i := if k < |order| then order[k] else -1];
      SortedUpTo(cases, if k == 0 then i else head, if k == 0 then next1 else next1[order[k - 1] := i],
        order[..k] + [i] + order[k..], i + 1)
  {
    InsertedLinked(head, next, order, i, k);
    InsertedCases(cases, order, i, k);
  }

  lemma {:induction false} InsertedCases(cases: seq<Case>, order: seq<nat>, i: nat, k: nat)
    requires i < |cases| && ValidCases(cases) && k <= |order| && forall j :: 0 <= j < |order| ==> order[j] < i
    requires Ascending(Listed(cases, order)) && multiset(Listed(cases, order)) == multiset(cases[..i])
    requires forall j :: 0 <= j < k ==> cases[order[j]].value <= cases[i].value
    requires k < |order| ==> cases[i].value < cases[order[k]].value
    ensures var order' := order[..k] + [i] + order[k..];
      && (forall j :: 0 <= j < |order'| ==> order'[j] < i + 1)
      && Ascending(Listed(cases, order')) && multiset(Listed(cases, order')) == multiset(cases[..i + 1])
  {
    var order' := order[..k] + [i] + order[k..];
    var s, t := Listed(cases, order), Listed(cases, order');
    forall j | 0 <= j < |t|
      ensures t[j] == (s[..k] + [cases[i]] + s[k..])[j]
    {
    }
    forall j | 0 <= j < k
      ensures s[j].value < cases[i].value
    {
      assert s[j] == cases[order[j]] && order[j] < i;
    }
    CaseInserted(s, cases[i], k, t);
    assert cases[..i + 1] == cases[..i] + [cases[i]];
  }

  lemma {:induction false} CaseInserted(s: seq<Case>, c: Case, k: nat, t: seq<Case>)
    requires Ascending(s) && k <= |s| && IsInt(c.value) && |t| == |s| + 1
    requires forall j :: 0 <= j < k ==> s[j].value < c.value
    requires k < |s| ==> c.value < s[k].value
    requires forall j :: 0 <= j < |t| ==> t[j] == (s[..k] + [c] + s[k..])[j]
    ensures Ascending(t) && multiset(t) == multiset(s) + multiset{c}
  {
    assert t == s[..k] + [c] + s[k..];
    InsertedAscending(s, c, k);
    InsertedMultiset(s, c, k);
  }

  lemma {:induction false} InsertedMultiset(s: seq<Case>, c: Case, k: nat)
    requires k <= |s|
    ensures multiset(s[..k] + [c] + s[k..]) == multiset(s) + multiset{c}
  {
    assert s == s[..k] + s[k..];
  }

  lemma {:induction false} InsertedAscending(s: seq<Case>, c: Case, k: nat)
    requires Ascending(s) && k <= |s| && IsInt(c.value)
    requires forall j :: 0 <= j < k ==> s[j].value < c.value
    requires k < |s| ==> c.value < s[k].value
    ensures Ascending(s[..k] + [c] + s[k..])
  {
    var t := s[..k] + [c] + s[k..];
    forall i, j | 0 <= i < j < |t|
      ensures t[i].value < t[j].value
    {
      if i == k {
        assert t[j] == s[j - 1] && (j - 1 == k || s[k].value < s[j - 1].value);
      }
    }
  }

  lemma {:induction false} InsertedLinked(head: int, next: seq<int>, order: seq<nat>, i: nat, k: nat)
    requires Linked(head, next, order) && i < |next| && k <= |order| && forall j :: 0 <= j < |order| ==> order[j] < i
    ensures var next1 := next[i := if k < |order| then order[k] else -1];
      Linked(if k == 0 then i else head, if k == 0 then next1 else next1[order[k - 1] := i], order[..k] + [i] + order[k..])
  {
    var order' := order[..k] + [i] + order[k..];
    var next1 := next[i := if k < |order| then order[k] else -1];
    var next2 := if k == 0 then next1 else next1[order[k - 1] := i];
    forall j | 0 <= j < |order'|
      ensures LinkOk(next2, order', j)
    {
      LinkAt(head, next, order, i, k, j);
    }
  }

  lemma {:induction false} LinkAt(head: int, next: seq<int>, order: seq<nat>, i: nat, k: nat, j: nat)
    requires Linked(head, next, order) && i < |next| && k <= |order| && forall m :: 0 <= m < |order| ==> order[m] < i
    requires j <= |order|
    ensures var order' := order[..k] + [i] + order[k..];
      var next1 := next[i := if k < |order| then order[k] else -1];
      var next2 := if k == 0 then next1 else next1[order[k - 1] := i];
      LinkOk(next2, order', j)
  {
    var order' := order[..k] + [i] + order[k..];
    if j < k {
      assert order'[j] == order[j] && LinkOk(next, order, j);
      assert j < k - 1 ==> order[j] != order[k - 1] && order'[j + 1] == order[j + 1];
    } else if j == k {
      assert order'[j] == i;
      assert k < |order| ==> order'[j + 1] == order[k];
    } else {
      assert order'[j] == order[j - 1] && LinkOk(next, order, j - 1);
      assert k > 0 ==> order[j - 1] != order[k - 1];
      assert j < |order| ==> order'[j + 1] == order[j];
    }
  }

  /** Insert case after case into the list. */
  method SortCases(cases: seq<Case>) returns (sorted: seq<Case>)
    requires ValidCases(cases)
    ensures Ascending(sorted) && multiset(sorted) == multiset(cases)
  {
    var head: int := -1;
    var next: seq<int> := seq(|cases|, k => -1);
    ghost var order: seq<nat> := [];
    var i := 0;
    while i < |cases|
      invariant 0 <= i <= |cases| && SortedUpTo(cases, head, next, order, i)
    {
      var p, q;
      ghost var k;
      p, q, k := FindPlace(cases, head, next, order, i);
      Inserted(cases, head, next, order, i, k);
      next := next[i := q];
      if p == -1 {
        head := i;
      } else {
        next := next[p := i];
      }
      order := order[..k] + [i] + order[k..];
      i := i + 1;
    }
    assert cases[..i] == cases;
    sorted := Collect(cases, head, next, order);
  }

  /** The list element in front of the place of case i, and the one behind it. */
  method FindPlace(cases: seq<Case>, head: int, next: seq<int>, ghost order: seq<nat>, i: nat)
    returns (p: int, q: int, ghost k: nat)
    requires Linked(head, next, order) && |next| == |cases| && i < |cases|
    ensures k <= |order| && p == (if k == 0 then -1 else order[k - 1]) && q == (if k < |order| then order[k] else -1)
    ensures forall j :: 0 <= j < k ==> cases[order[j]].value <= cases[i].value
    ensures k < |order| ==> cases[i].value < cases[order[k]].value
  {
    p, q, k := -1, head, 0;
    while q != -1 && !(cases[i].value < cases[q].value)
      invariant 0 <= k <= |order| && p == (if k == 0 then -1 else order[k - 1])
      invariant q == if k < |order| then order[k] else -1
      invariant forall j :: 0 <= j < k ==> cases[order[j]].value <= cases[i].value
      decreases |order| - k
    {
      assert LinkOk(next, order, k);
      p := q;
      q := next[q];
      k := k + 1;
    }
  }

  method Collect(cases: seq<Case>, head: int, next: seq<int>, ghost order: seq<nat>) returns (sorted: seq<Case>)
    requires Linked(head, next, order) && |next| == |cases|
    ensures sorted == Listed(cases, order)
  {
    sorted := [];
    var q := head;
    ghost var k := 0;
    while q != -1
      invariant 0 <= k <= |order| && q == (if k < |order| then order[k] else -1)
      invariant sorted == Listed(cases, order)[..k]
      decreases |order| - k
    {
      assert LinkOk(next, order, k);
      sorted := sorted + [cases[q]];
      q := next[q];
      k := k + 1;
    }
  }

  // ---------- What is linked ----------

  /** All labels are older than the blocks to be made. */
  predicate Labels(cases: seq<Case>, last: nat, lo: nat) {
    last < lo && forall i :: 0 <= i < |cases| ==> cases[i].target < lo
  }

  /** Control from block b on goes where the tree over s[start..end] says. */
  ghost predicate PicksTree(blocks: seq<Block>, lo: nat, b: int, s: seq<Case>, last: nat, start: nat, end: nat)
    requires end <= |s|
  {
    forall x :: IsInt(x) ==> Picks(blocks, lo, b, x, Tree(s, last, start, end, x))
  }

  lemma {:induction false} TreeLabel(s: seq<Case>, last: nat, start: nat, end: nat, x: int, lo: nat)
    requires end <= |s| && Labels(s, last, lo)
    ensures Tree(s, last, start, end, x) < lo
    decreases end - start
  {
    if start < end {
      var center := (start + end) / 2;
      if end - start == 2 {
        TreeLabel(s, last, start, center, x, lo);
      } else if end - start > 2 {
        TreeLabel(s, last, start, center, x, lo);
        TreeLabel(s, last, center + 1, end, x, lo);
      }
    }
  }

  lemma {:induction false} PicksTreeSame(
    blocks: seq<Block>, hi: nat, blocks': seq<Block>, lo: nat, b: int, s: seq<Case>, last: nat, start: nat, end: nat)
    requires end <= |s| && Labels(s, last, lo) && PicksTree(blocks, hi, b, s, last, start, end)
    requires lo <= hi && |blocks| <= |blocks'| && forall i :: hi <= i < |blocks| ==> blocks'[i] == blocks[i]
    ensures PicksTree(blocks', lo, b, s, last, start, end)
  {
    forall x | IsInt(x)
      ensures Picks(blocks', lo, b, x, Tree(s, last, start, end, x))
    {
      TreeLabel(s, last, start, end, x, lo);
      PicksSame(blocks, hi, blocks', lo, b, x, Tree(s, last, start, end, x));
    }
  }

  /** A single label. */
  lemma {:induction false} PicksLabel(blocks: seq<Block>, lo: nat, t: nat, s: seq<Case>, last: nat, start: nat, end: nat)
    requires end <= |s| && t < lo && forall x :: IsInt(x) ==> Tree(s, last, start, end, x) == t
    ensures PicksTree(blocks, lo, t, s, last, start, end)
  {
    forall x | IsInt(x)
      ensures Picks(blocks, lo, t, x, Tree(s, last, start, end, x))
    {
      PicksItself(blocks, lo, t, x);
    }
  }

  /** A comparison for equality, with child taking the values that differ. */
  lemma {:induction false} PicksEqual(
    blocks: seq<Block>, lo: nat, b: nat, child: int, s: seq<Case>, last: nat, start: nat, end: nat)
    requires start < end <= |s| && Labels(s, last, lo) && lo <= b < |blocks| && !(end - start == 1 && Wedged(s, start, end))
    requires var c := s[(start + end) / 2]; blocks[b] == Block(Equal(c.value), child, c.target, [])
    requires forall x :: IsInt(x) && x != s[(start + end) / 2].value ==>
      Picks(blocks, lo, child, x, Tree(s, last, start, end, x))
    ensures PicksTree(blocks, lo, b, s, last, start, end)
  {
    var c := s[(start + end) / 2];
    forall x | IsInt(x)
      ensures Picks(blocks, lo, b, x, Tree(s, last, start, end, x))
    {
      if x == c.value {
        PicksItself(blocks, lo, c.target, x);
      }
      PicksStep(blocks, lo, b, x, Tree(s, last, start, end, x));
    }
  }

  /** A comparison for size between two subtrees. */
  lemma {:induction false} PicksAbove(
    blocks: seq<Block>, lo: nat, b: nat, lower: int, upper: int, s: seq<Case>, last: nat, start: nat, end: nat, x: int)
    requires start + 2 < end <= |s| && lo <= b < |blocks| && IsInt(x) && lower >= 0
    requires blocks[b] == Block(Above(s[(start + end) / 2].value), upper, lower, [])
    requires PicksTree(blocks, lo, lower, s, last, start, (start + end) / 2)
    requires PicksTree(blocks, lo, upper, s, last, (start + end) / 2 + 1, end)
    requires x != s[(start + end) / 2].value
    ensures Picks(blocks, lo, b, x, Tree(s, last, start, end, x))
  {
    TreeCut(s, last, start, end, x);
    PicksStep(blocks, lo, b, x, Tree(s, last, start, end, x));
  }

  class Definition {
    var blocks: seq<Block>

    constructor (blocks: seq<Block>)
      ensures this.blocks == blocks
    {
      this.blocks := blocks;
    }

    method NewBlock() returns (b: nat)
      modifies this
      ensures b == |old(blocks)| && blocks == old(blocks) + [FRESH]
    {
      b := |blocks|;
      blocks := blocks + [FRESH];
    }

    // ---------- The comparison tree ----------

    /** Link the tree over s[start..end]. */
    method BsearchItem(s: seq<Case>, last: nat, start: nat, end: nat) returns (b: nat)
      requires end <= |s| && Labels(s, last, |blocks|)
      modifies this
      ensures old(blocks) <= blocks && PicksTree(blocks, |old(blocks)|, b, s, last, start, end)
      ensures NoTables(blocks, |old(blocks)|)
      decreases end - start
    {
      ghost var lo := |blocks|;
      if start >= end {
        PicksLabel(blocks, lo, last, s, last, start, end);
        return last;
      }
      var count := end - start;
      var center := (start + end) / 2;
      var sc := s[center];
      if count == 1 && 0 < start && end < |s| {
        var pv, nv := s[start - 1].value, s[end].value;
        if pv == nv - 2 {
          PicksLabel(blocks, lo, sc.target, s, last, start, end);
          return sc.target;
        }
      }
      b := NewBlock();
      blocks := blocks[b := Block(Equal(sc.value), -1, sc.target, [])];
      if count == 1 {
        blocks := blocks[b := blocks[b].(jump0 := last)];
        LeafPicks(blocks, lo, b, s, last, start, end);
      } else if count == 2 {
        ghost var lo1 := |blocks|;
        var child := BsearchItem(s, last, start, center);
        ghost var before := blocks;
        blocks := blocks[b := blocks[b].(jump0 := child)];
        PicksTreeSame(before, lo1, blocks, lo, child, s, last, start, center);
        TwoPicks(blocks, lo, b, child, s, last, start);
      } else {
        var left := NewBlock();
        blocks := blocks[b := blocks[b].(jump0 := left)];
        blocks := blocks[left := Block(Above(sc.value), -1, -1, [])];
        ghost var lo1 := |blocks|;
        var lower := BsearchItem(s, last, start, center);
        ghost var blocks1 := blocks;
        blocks := blocks[left := blocks[left].(jump1 := lower)];
        ghost var lo2 := |blocks|;
        var upper := BsearchItem(s, last, center + 1, end);
        ghost var blocks2 := blocks;
        blocks := blocks[left := blocks[left].(jump0 := upper)];
        PicksTreeSame(blocks1, lo1, blocks, lo, lower, s, last, start, center);
        PicksTreeSame(blocks2, lo2, blocks, lo, upper, s, last, center + 1, end);
        ManyPicks(blocks, lo, b, left, lower, upper, s, last, start, end);
      }
    }

    method Bsearch(s: seq<Case>, last: nat, parent: nat)
      requires parent < |blocks| && Labels(s, last, |blocks|)
      modifies this
      ensures Extended(old(blocks), blocks, parent) && NoTables(blocks, |old(blocks)|)
      ensures forall x :: IsInt(x) ==> Picks(blocks, |old(blocks)|, blocks[parent].jump0, x, Tree(s, last, 0, |s|, x))
    {
      ghost var lo := |blocks|;
      var b := BsearchItem(s, last, 0, |s|);
      ghost var before := blocks;
      blocks := blocks[parent := blocks[parent].(jump0 := b)];
      PicksTreeSame(before, lo, blocks, lo, b, s, last, 0, |s|);
    }

    // ---------- The chain of comparisons ----------

    method Chain(cases: seq<Case>, last: nat, parent: nat)
      requires parent < |blocks| && Labels(cases, last, |blocks|)
      modifies this
      ensures Extended(old(blocks), blocks, parent) && NoTables(blocks, |old(blocks)|)
      ensures forall x :: IsInt(x) ==> Picks(blocks, |old(blocks)|, blocks[parent].jump0, x, Select(cases, last, x))
    {
      ghost var lo := |blocks|;
      var cond := parent;
      var i := 0;
      while i < |cases|
        invariant 0 <= i <= |cases| && cond == (if i == 0 then parent else lo + i - 1)
        invariant Extended(old(blocks), blocks, parent) && ChainUpTo(blocks, lo, parent, cases, i)
        invariant NoTables(blocks, lo)
      {
        ghost var before := blocks;
        var prev := cond;
        cond := NewBlock();
        blocks := blocks[cond := Block(Equal(cases[i].value), -1, cases[i].target, [])];
        blocks := blocks[prev := blocks[prev].(jump0 := cond)];
        ChainGrows(before, blocks, lo, parent, cases, i);
        i := i + 1;
      }
      ghost var linked := blocks;
      blocks := blocks[cond := blocks[cond].(jump0 := last)];
      forall x | IsInt(x)
        ensures Picks(blocks, lo, blocks[parent].jump0, x, Select(cases, last, x))
      {
        assert cases[0..] == cases;
        forall j | 0 <= j < |cases|
          ensures ClosedLink(blocks, lo, cases, last, j)
        {
          assert ChainLink(linked, lo, cases, |cases|, j);
        }
        ChainPicks(blocks, lo, cases, last, 0, x);
      }
    }

    // ---------- The jump table ----------

    /** Range tests in front of a table with an entry for every value between the
        least case and the greatest. */
    method JumpTable(s: seq<Case>, last: nat, parent: nat, minv: int, maxv: int)
      requires parent < |blocks| && Labels(s, last, |blocks|)
      requires Ascending(s) && |s| > 0 && minv == s[0].value && maxv == s[|s| - 1].value
      modifies this
      ensures Extended(old(blocks), blocks, parent) && |blocks| == |old(blocks)| + 3
      ensures |blocks[|old(blocks)| + 2].table| == maxv - minv + 1
      ensures forall x :: IsInt(x) ==> Picks(blocks, |old(blocks)|, blocks[parent].jump0, x,
        Lookup(TableOf(s, last), last, minv, maxv, x))
    {
      ghost var lo := |blocks|;
      var comp1 := NewBlock();
      var comp2 := NewBlock();
      var jtbl := NewBlock();
      blocks := blocks[parent := blocks[parent].(jump0 := comp1)];
      blocks := blocks[comp1 := Block(Negative(minv), comp2, last, [])];
      blocks := blocks[comp2 := Block(Exceeds(minv, Wrap(maxv - minv)), jtbl, last, [])];
      var table := FillTable(s, last, minv);
      blocks := blocks[jtbl := Block(Index(minv), -1, -1, table)];
      forall x | IsInt(x)
        ensures Picks(blocks, lo, comp1, x, Lookup(TableOf(s, last), last, minv, maxv, x))
      {
        TablePicks(blocks, lo, s, last, table, x);
      }
    }

    /** The largest step between neighbours. */
    method LargestStep(s: seq<Case>) returns (maxdiff: int)
      ensures maxdiff == MaxStep(s, |s|)
    {
      var prev := 0;
      maxdiff := 0;
      var i := 0;
      while i < |s|
        invariant 0 <= i <= |s| && maxdiff == MaxStep(s, i) && (i > 0 ==> prev == s[i - 1].value)
      {
        if i > 0 {
          var d := Wrap(s[i].value - prev);
          if d > maxdiff {
            maxdiff := d;
          }
        }
        prev := s[i].value;
        i := i + 1;
      }
    }

    // ---------- The choice ----------

    /** Choose between table and tree. */
    method LinkSorted(s: seq<Case>, last: nat, parent: nat)
      requires parent < |blocks| && Labels(s, last, |blocks|) && Ascending(s) && |s| > 4
      modifies this
      ensures Extended(old(blocks), blocks, parent) && TableIfClose(s, blocks, |old(blocks)|)
      ensures forall x :: IsInt(x) ==> Picks(blocks, |old(blocks)|, blocks[parent].jump0, x, SortedOutcome(s, last, x))
    {
      ChosenIff(s, |s|);
      var step := LargestStep(s);
      if |s| > 0 && step < THRESHOLD {
        JumpTable(s, last, parent, s[0].value, s[|s| - 1].value);
      } else {
        Bsearch(s, last, parent);
      }
    }

    /** Link the cases below the parent block.  Control then goes where Outcome says;
        OutcomeRightIff tells when that is what the switch statement means.  A table is
        linked for five or more cases that are close, and for no others. */
    method Link(cases: seq<Case>, last: nat, parent: nat) returns (ghost s: seq<Case>)
      requires parent < |blocks| && Labels(cases, last, |blocks|) && ValidCases(cases)
      modifies this
      ensures Extended(old(blocks), blocks, parent)
      ensures |cases| > 4 ==> Ascending(s) && multiset(s) == multiset(cases)
      ensures forall x :: IsInt(x) ==> Picks(blocks, |old(blocks)|, blocks[parent].jump0, x, Outcome(cases, s, last, x))
      ensures if |cases| > 4 then TableIfClose(s, blocks, |old(blocks)|) else NoTables(blocks, |old(blocks)|)
    {
      if |cases| > 4 {
        var sorted := SortCases(cases);
        s := sorted;
        Permuted(cases, s, last, |blocks|);
        LinkSorted(sorted, last, parent);
      } else {
        s := cases;
        Chain(cases, last, parent);
      }
    }
  }

  // ---------- What the methods rely on ----------

  /** No block from lo on has a table. */
  predicate NoTables(blocks: seq<Block>, lo: nat) {
    forall b :: lo <= b < |blocks| ==> blocks[b].table == []
  }

  /** Close cases get a table with an entry for every value from the least to the
      greatest; others get none. */
  predicate TableIfClose(s: seq<Case>, blocks: seq<Block>, lo: nat)
    requires |s| > 0
  {
    if Close(s) then |blocks| == lo + 3 && |blocks[lo + 2].table| == s[|s| - 1].value - s[0].value + 1
    else NoTables(blocks, lo)
  }

  /** Older blocks are unchanged, but for the parent's jump. */
  predicate Extended(before: seq<Block>, after: seq<Block>, parent: nat) {
    && parent < |before| <= |after| && after[parent] == before[parent].(jump0 := after[parent].jump0)
    && forall i :: 0 <= i < |before| && i != parent ==> after[i] == before[i]
  }

  predicate ChainLink(blocks: seq<Block>, lo: nat, cases: seq<Case>, i: nat, j: nat)
    requires j < i <= |cases|
  {
    lo + j < |blocks|
    && blocks[lo + j] == Block(Equal(cases[j].value), if j + 1 < i then lo + j + 1 else -1, cases[j].target, [])
  }

  /** The first i cases are chained; the last link is open. */
  predicate ChainUpTo(blocks: seq<Block>, lo: nat, parent: nat, cases: seq<Case>, i: nat)
  {
    && i <= |cases| && |blocks| == lo + i && parent < lo
    && (i > 0 ==> blocks[parent].jump0 == lo)
    && (forall j :: 0 <= j < i ==> ChainLink(blocks, lo, cases, i, j))
  }

  lemma {:induction false} ChainGrows(before: seq<Block>, after: seq<Block>, lo: nat, parent: nat, cases: seq<Case>, i: nat)
    requires ChainUpTo(before, lo, parent, cases, i) && i < |cases|
    requires var prev := if i == 0 then parent else lo + i - 1;
      var grown := before + [Block(Equal(cases[i].value), -1, cases[i].target, [])];
      after == grown[prev := grown[prev].(jump0 := lo + i)]
    ensures ChainUpTo(after, lo, parent, cases, i + 1)
  {
    var n := i + 1;
    forall j | 0 <= j < n
      ensures ChainLink(after, lo, cases, n, j)
    {
      if j < i {
        assert ChainLink(before, lo, cases, i, j);
      }
    }
  }

  lemma {:induction false} SelectLabel(cases: seq<Case>, last: nat, x: int, lo: nat)
    requires Labels(cases, last, lo)
    ensures Select(cases, last, x) < lo
  {
    if cases != [] {
      SelectLabel(cases[1..], last, x, lo);
    }
  }

  lemma {:induction false} LeafPicks(blocks: seq<Block>, lo: nat, b: nat, s: seq<Case>, last: nat, start: nat, end: nat)
    requires end <= |s| && end - start == 1 && Labels(s, last, lo) && lo <= b < |blocks| && !Wedged(s, start, end)
    requires blocks[b] == Block(Equal(s[(start + end) / 2].value), last, s[(start + end) / 2].target, [])
    ensures PicksTree(blocks, lo, b, s, last, start, end)
  {
    forall x | IsInt(x) && x != s[(start + end) / 2].value
      ensures Picks(blocks, lo, last, x, Tree(s, last, start, end, x))
    {
      PicksItself(blocks, lo, last, x);
    }
    PicksEqual(blocks, lo, b, last, s, last, start, end);
  }

  lemma {:induction false} TwoPicks(blocks: seq<Block>, lo: nat, b: nat, child: nat, s: seq<Case>, last: nat, start: nat)
    requires start + 2 <= |s| && Labels(s, last, lo) && lo <= b < |blocks|
    requires blocks[b] == Block(Equal(s[start + 1].value), child, s[start + 1].target, [])
    requires PicksTree(blocks, lo, child, s, last, start, start + 1)
    ensures PicksTree(blocks, lo, b, s, last, start, start + 2)
  {
    assert (start + (start + 2)) / 2 == start + 1;
    forall x | IsInt(x) && x != s[start + 1].value
      ensures Picks(blocks, lo, child, x, Tree(s, last, start, start + 2, x))
    {
      assert Tree(s, last, start, start + 2, x) == Tree(s, last, start, start + 1, x);
    }
    PicksEqual(blocks, lo, b, child, s, last, start, start + 2);
  }

  lemma {:induction false} ManyPicks(
    blocks: seq<Block>, lo: nat, b: nat, left: nat, lower: nat, upper: nat, s: seq<Case>, last: nat, start: nat, end: nat)
    requires start + 2 < end <= |s| && Labels(s, last, lo) && lo <= b < |blocks| && lo <= left < |blocks|
    requires var c := s[(start + end) / 2]; blocks[b] == Block(Equal(c.value), left, c.target, [])
    requires blocks[left] == Block(Above(s[(start + end) / 2].value), upper, lower, [])
    requires PicksTree(blocks, lo, lower, s, last, start, (start + end) / 2)
    requires PicksTree(blocks, lo, upper, s, last, (start + end) / 2 + 1, end)
    ensures PicksTree(blocks, lo, b, s, last, start, end)
  {
    forall x | IsInt(x) && x != s[(start + end) / 2].value
      ensures Picks(blocks, lo, left, x, Tree(s, last, start, end, x))
    {
      PicksAbove(blocks, lo, left, lower, upper, s, last, start, end, x);
    }
    PicksEqual(blocks, lo, b, left, s, last, start, end);
  }

  // ---------- Chain ----------

  lemma {:induction false} ChainPicks(blocks: seq<Block>, lo: nat, cases: seq<Case>, last: nat, i: nat, x: int)
    requires i <= |cases| && Labels(cases, last, lo) && |blocks| >= lo + |cases|
    requires forall j :: 0 <= j < |cases| ==> ClosedLink(blocks, lo, cases, last, j)
    ensures Picks(blocks, lo, if i < |cases| then lo + i else last, x, Select(cases[i..], last, x))
    decreases |cases| - i
  {
    if i == |cases| {
      PicksItself(blocks, lo, last, x);
    } else {
      assert ClosedLink(blocks, lo, cases, last, i);
      assert cases[i..][0] == cases[i] && cases[i..][1..] == cases[i + 1..];
      ChainPicks(blocks, lo, cases, last, i + 1, x);
      if cases[i].value == x {
        PicksItself(blocks, lo, cases[i].target, x);
      }
      PicksStep(blocks, lo, lo + i, x, Select(cases[i..], last, x));
    }
  }

  predicate ClosedLink(blocks: seq<Block>, lo: nat, cases: seq<Case>, last: nat, j: nat)
    requires j < |cases|
  {
    lo + j < |blocks| && blocks[lo + j] ==
      Block(Equal(cases[j].value), if j + 1 < |cases| then lo + j + 1 else last, cases[j].target, [])
  }

  // ---------- Table ----------

  /** The labels for all values between the least case and the greatest. */
  function TableOf(s: seq<Case>, last: nat): (table: seq<nat>)
    requires Ascending(s) && |s| > 0
    ensures IsTable(s, last, table)
  {
    assert |s| == 1 || s[0].value < s[|s| - 1].value;
    seq<nat>(s[|s| - 1].value - s[0].value + 1, k requires k >= 0 => Select(s, last, s[0].value + k))
  }

  /** Entry k of the table is for offset k. */
  predicate TableUpTo(s: seq<Case>, last: nat, minv: int, table: seq<JumpPair>) {
    forall k :: 0 <= k < |table| ==> table[k] == JumpPair(k, Select(s, last, minv + k))
  }

  /** Fill the gaps between the cases with the default. */
  method FillTable(s: seq<Case>, last: nat, minv: int) returns (table: seq<JumpPair>)
    requires Ascending(s) && |s| > 0 && minv == s[0].value
    ensures TableUpTo(s, last, minv, table) && |table| == s[|s| - 1].value - minv + 1
  {
    table := [];
    var v := minv;
    var i := 0;
    while i < |s|
      invariant 0 <= i <= |s| && v == minv + |table| && TableUpTo(s, last, minv, table)
      invariant if i == 0 then v == minv else v == s[i - 1].value + 1
    {
      var value := s[i].value;
      assert i == 0 || s[i - 1].value < s[i].value;
      while v < value
        invariant v == minv + |table| && TableUpTo(s, last, minv, table)
        invariant v <= value && (i > 0 ==> s[i - 1].value < v)
      {
        Gap(s, last, i, v);
        table := table + [JumpPair(v - minv, last)];
        v := v + 1;
      }
      AtCase(s, last, i);
      table := table + [JumpPair(value - minv, s[i].target)];
      v := v + 1;
      i := i + 1;
    }
  }

  lemma {:induction false} Gap(s: seq<Case>, last: nat, i: nat, v: int)
    requires Ascending(s) && i < |s| && v < s[i].value && (i > 0 ==> s[i - 1].value < v)
    ensures Select(s, last, v) == last
  {
    forall j | 0 <= j < |s|
      ensures s[j].value != v
    {
      if j < i {
        assert j == i - 1 || s[j].value < s[i - 1].value;
      } else {
        assert j == i || s[i].value < s[j].value;
      }
    }
    SelectNone(s, last, v);
  }

  lemma {:induction false} AtCase(s: seq<Case>, last: nat, i: nat)
    requires Ascending(s) && i < |s|
    ensures Select(s, last, s[i].value) == s[i].target
  {
    SelectAt(s, last, s[i].value, i);
  }

  lemma {:induction false} TablePicks(blocks: seq<Block>, lo: nat, s: seq<Case>, last: nat, table: seq<JumpPair>, x: int)
    requires Ascending(s) && |s| > 0 && Labels(s, last, lo) && IsInt(x) && |blocks| >= lo + 3
    requires TableUpTo(s, last, s[0].value, table) && |table| == s[|s| - 1].value - s[0].value + 1
    requires blocks[lo] == Block(Negative(s[0].value), lo + 1, last, [])
    requires blocks[lo + 1] == Block(Exceeds(s[0].value, Wrap(s[|s| - 1].value - s[0].value)), lo + 2, last, [])
    requires blocks[lo + 2] == Block(Index(s[0].value), -1, -1, table)
    ensures Picks(blocks, lo, lo, x, Lookup(TableOf(s, last), last, s[0].value, s[|s| - 1].value, x))
  {
    var minv, maxv := s[0].value, s[|s| - 1].value;
    var t := Lookup(TableOf(s, last), last, minv, maxv, x);
    var check := Offset(x, minv);
    OffsetIs(x, minv);
    PicksItself(blocks, lo, last, x);
    RangeChecked(s, check);
    if 0 <= check <= Wrap(maxv - minv) {
      SelectLabel(s, last, minv + check, lo);
      assert TableOf(s, last)[check] == Select(s, last, minv + check);
      PicksItself(blocks, lo, t, x);
      PicksStep(blocks, lo, lo + 2, x, t);
    }
    if check >= 0 {
      PicksStep(blocks, lo, lo + 1, x, t);
    }
    PicksStep(blocks, lo, lo, x, t);
  }

  /** An offset that passes both tests has an entry. */
  lemma {:induction false} RangeChecked(s: seq<Case>, check: int)
    requires Ascending(s) && |s| > 0
    ensures 0 <= check <= Wrap(s[|s| - 1].value - s[0].value) ==> check < s[|s| - 1].value - s[0].value + 1
  {
    assert |s| == 1 || s[0].value < s[|s| - 1].value;
    WrapOver(s[|s| - 1].value - s[0].value);
  }

  // ---------- The whole lowering ----------

  /** Where sorted cases lead. */
  function SortedOutcome(s: seq<Case>, last: nat, x: int): nat
    requires Ascending(s)
  {
    if |s| > 0 && MaxStep(s, |s|) < THRESHOLD then
      Lookup(TableOf(s, last), last, s[0].value, s[|s| - 1].value, x)
    else Tree(s, last, 0, |s|, x)
  }

  /** Where the lowered switch goes: s are the sorted cases. */
  function Outcome(cases: seq<Case>, s: seq<Case>, last: nat, x: int): nat
    requires |cases| > 4 ==> Ascending(s)
  {
    if |cases| <= 4 then Select(cases, last, x) else SortedOutcome(s, last, x)
  }

  /** The cases can be lowered rightly: few of them, or a table whose range fits an
      int, or a tree that does not misfire. */
  predicate Works(cases: seq<Case>, s: seq<Case>) {
    || |cases| <= 4
    || (if Close(s) then |s| > 0 && IsInt(s[|s| - 1].value - s[0].value) else !Misfires(s, 0, |s|))
  }

  lemma {:induction false} Permuted(cases: seq<Case>, s: seq<Case>, last: nat, lo: nat)
    requires multiset(s) == multiset(cases) && Labels(cases, last, lo)
    ensures Labels(s, last, lo) && |s| == |cases|
  {
    assert |multiset(s)| == |s| && |multiset(cases)| == |cases|;
    forall i | 0 <= i < |s|
      ensures s[i].target < lo
    {
      assert s[i] in multiset(cases);
      var j :| 0 <= j < |cases| && cases[j] == s[i];
    }
  }

  /** Up to four cases, and more that are close and have an int for their range, are
      always lowered rightly. */
  lemma {:induction false} CloseIsRight(cases: seq<Case>, s: seq<Case>, last: nat, x: int)
    requires ValidCases(cases) && (|cases| > 4 ==> Ascending(s) && multiset(s) == multiset(cases)) && IsInt(x)
    requires |cases| <= 4 || (Close(s) && forall i, j :: 0 <= i < |cases| && 0 <= j < |cases| ==>
      cases[i].value - cases[j].value <= 0x7FFF_FFFF)
    ensures Outcome(cases, s, last, x) == Select(cases, last, x)
  {
    if |cases| > 4 {
      assert |multiset(s)| == |s| && |multiset(cases)| == |cases|;
      assert s[0] in multiset(cases) && s[|s| - 1] in multiset(cases);
      assert s[0].value < s[|s| - 1].value;
      ChosenIff(s, |s|);
      TableRight(s, last, TableOf(s, last), x);
      SelectPermuted(cases, s, last, x);
    }
  }

  /** A switch with distinct cases is lowered to what C99, section 6.8.4.2, asks for,
      for every value of the switch expression, exactly if Works holds. */
  lemma {:induction false} OutcomeRightIff(cases: seq<Case>, s: seq<Case>, last: nat)
    requires ValidCases(cases) && (|cases| > 4 ==> Ascending(s) && multiset(s) == multiset(cases))
    requires forall i :: 0 <= i < |cases| ==> cases[i].target != last
    ensures (forall x :: IsInt(x) ==> Outcome(cases, s, last, x) == Select(cases, last, x)) <==> Works(cases, s)
  {
    if |cases| > 4 {
      assert ValidCases(s);
      forall x
        ensures Select(cases, last, x) == Select(s, last, x)
      {
        SelectPermuted(cases, s, last, x);
      }
      forall i | 0 <= i < |s|
        ensures s[i].target != last
      {
        assert s[i] in multiset(cases);
        var j :| 0 <= j < |cases| && cases[j] == s[i];
      }
      assert |multiset(s)| == |s| && |multiset(cases)| == |cases|;
      ChosenIff(s, |s|);
      if |s| > 0 && MaxStep(s, |s|) < THRESHOLD {
        TableRightIff(s, last, TableOf(s, last));
      } else {
        TreeRightIff(s, last);
      }
    }
  }
}
