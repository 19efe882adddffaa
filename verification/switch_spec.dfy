/**
  What a switch statement selects, and what its three lowerings select.  Values are
  32-bit signed integers; labels are block numbers.
*/
module SwitchSpec {

  const INT_MIN: int := -0x8000_0000
  const INT_MAX: int := 0x7FFF_FFFF

  predicate IsInt(x: int) { INT_MIN <= x <= INT_MAX }

  /** Arithmetic on ints wraps at 32 bits. */
  function Wrap(x: int): (r: int)
    ensures IsInt(r)
    ensures IsInt(x) ==> r == x
  {
    (x + 0x8000_0000) % 0x1_0000_0000 - 0x8000_0000
  }

  lemma {:induction false} WrapOver(x: int)
    ensures INT_MAX < x <= INT_MAX + 0x1_0000_0000 ==> Wrap(x) == x - 0x1_0000_0000
    ensures INT_MIN - 0x1_0000_0000 <= x < INT_MIN ==> Wrap(x) == x + 0x1_0000_0000
  {
  }

  datatype Case = Case(value: int, target: nat)

  predicate ValidCases(cases: seq<Case>) {
    && (forall i :: 0 <= i < |cases| ==> IsInt(cases[i].value))
    && (forall i, j :: 0 <= i < j < |cases| ==> cases[i].value != cases[j].value)
  }

  /** The label of the case with value x, or the default. */
  function Select(cases: seq<Case>, last: nat, x: int): nat {
    if cases == [] then last
    else if cases[0].value == x then cases[0].target
    else Select(cases[1..], last, x)
  }

  lemma {:induction false} SelectAt(cases: seq<Case>, last: nat, x: int, i: nat)
    requires i < |cases| && cases[i].value == x && forall j :: 0 <= j < i ==> cases[j].value != x
    ensures Select(cases, last, x) == cases[i].target
  {
    if i > 0 {
      assert cases[0].value != x;
      SelectAt(cases[1..], last, x, i - 1);
    }
  }

  lemma {:induction false} SelectNone(cases: seq<Case>, last: nat, x: int)
    requires forall j :: 0 <= j < |cases| ==> cases[j].value != x
    ensures Select(cases, last, x) == last
  {
    if cases != [] {
      SelectNone(cases[1..], last, x);
    }
  }

  /** Distinct cases may be listed in any order. */
  lemma {:induction false} SelectPermuted(cases: seq<Case>, sorted: seq<Case>, last: nat, x: int)
    requires ValidCases(cases) && ValidCases(sorted) && multiset(cases) == multiset(sorted)
    ensures Select(cases, last, x) == Select(sorted, last, x)
  {
    if i :| 0 <= i < |cases| && cases[i].value == x {
      SelectAt(cases, last, x, i);
      assert cases[i] in multiset(sorted);
      var j :| 0 <= j < |sorted| && sorted[j] == cases[i];
      SelectAt(sorted, last, x, j);
    } else {
      SelectNone(cases, last, x);
      forall j | 0 <= j < |sorted|
        ensures sorted[j].value != x
      {
        assert sorted[j] in multiset(cases);
        var i :| 0 <= i < |cases| && cases[i] == sorted[j];
      }
      SelectNone(sorted, last, x);
    }
  }

  predicate Ascending(s: seq<Case>) {
    && (forall i :: 0 <= i < |s| ==> IsInt(s[i].value))
    && (forall i, j :: 0 <= i < j < |s| ==> s[i].value < s[j].value)
  }

  // ---------- The comparison tree ----------

  /** The neighbours on both sides leave room for one value only. */
  predicate Wedged(s: seq<Case>, start: nat, end: nat) {
    0 < start <= end < |s| && s[start - 1].value == s[end].value - 2
  }

  /** The label the tree over s[start..end] leads to. */
  function Tree(s: seq<Case>, last: nat, start: nat, end: nat, x: int): nat
    requires end <= |s|
    decreases end - start
  {
    if start >= end then last
    else
      var center := (start + end) / 2;
      if end - start == 1 && Wedged(s, start, end) then s[center].target
      else if s[center].value == x then s[center].target
      else if end - start == 1 then last
      else if end - start == 2 then Tree(s, last, start, center, x)
      else if s[center].value > x then Tree(s, last, start, center, x)
      else Tree(s, last, center + 1, end, x)
  }

  /** x lies between the neighbours of s[start..end]. */
  predicate Between(s: seq<Case>, start: nat, end: nat, x: int)
    requires end <= |s|
  {
    IsInt(x) && (0 < start <= |s| ==> s[start - 1].value < x) && (end < |s| ==> x < s[end].value)
  }

  /** A two-case subtree sends values above its second case to its first case
      without comparing them: the cases before and after the first one are its
      neighbours, and there are values above the second. */
  predicate Misfires(s: seq<Case>, start: nat, end: nat)
    requires end <= |s|
    decreases end - start
  {
    if start + 1 >= end then false
    else
      var center := (start + end) / 2;
      if end - start == 2 then
        Wedged(s, start, center) && s[center].value < (if end < |s| then s[end].value - 1 else INT_MAX)
      else Misfires(s, start, center) || Misfires(s, center + 1, end)
  }

  /** The label of the case of s[start..end] with value x, or the default. */
  function Range(s: seq<Case>, last: nat, start: nat, end: nat, x: int): nat
    requires start <= end <= |s|
  {
    Select(s[start..end], last, x)
  }

  lemma {:induction false} RangeAt(s: seq<Case>, last: nat, start: nat, end: nat, x: int, i: nat)
    requires Ascending(s) && start <= i < end <= |s| && s[i].value == x
    ensures Range(s, last, start, end, x) == s[i].target
  {
    SelectAt(s[start..end], last, x, i - start);
  }

  lemma {:induction false} RangeNone(s: seq<Case>, last: nat, start: nat, end: nat, x: int)
    requires start <= end <= |s| && forall i :: start <= i < end ==> s[i].value != x
    ensures Range(s, last, start, end, x) == last
  {
    SelectNone(s[start..end], last, x);
  }

  /** Values below s[mid] are decided by what is before it, values above by the rest. */
  lemma {:induction false} RangeSplit(s: seq<Case>, last: nat, start: nat, mid: nat, end: nat, x: int)
    requires Ascending(s) && start <= mid < end <= |s|
    ensures x < s[mid].value ==> Range(s, last, start, end, x) == Range(s, last, start, mid, x)
    ensures x > s[mid].value ==> Range(s, last, start, end, x) == Range(s, last, mid + 1, end, x)
  {
    if i :| start <= i < end && s[i].value == x {
      RangeAt(s, last, start, end, x, i);
      if i < mid {
        RangeAt(s, last, start, mid, x, i);
      } else if i > mid {
        RangeAt(s, last, mid + 1, end, x, i);
      }
    } else {
      RangeNone(s, last, start, end, x);
      RangeNone(s, last, start, mid, x);
      RangeNone(s, last, mid + 1, end, x);
    }
  }

  lemma {:induction false} RangeOne(s: seq<Case>, last: nat, i: nat, x: int)
    requires i < |s|
    ensures Range(s, last, i, i + 1, x) == if s[i].value == x then s[i].target else last
  {
    var one := [s[i]];
    assert s[i..i + 1] == one;
    if s[i].value == x {
      SelectAt(one, last, x, 0);
    } else {
      SelectNone(one, last, x);
    }
  }

  /** Without misfires the tree selects the right case. */
  lemma {:induction false} TreeRight(s: seq<Case>, last: nat, start: nat, end: nat, x: int)
    requires Ascending(s) && start <= end <= |s| && Between(s, start, end, x) && !Misfires(s, start, end)
    ensures Tree(s, last, start, end, x) == Range(s, last, start, end, x)
    decreases end - start
  {
    if end - start == 1 {
      TreeOne(s, last, start, x);
    } else if end - start == 2 {
      if s[start + 1].value == x {
        RangeAt(s, last, start, end, x, start + 1);
      } else {
        TreeTwo(s, last, start, x);
      }
    } else if start < end {
      var center := (start + end) / 2;
      TreeCut(s, last, start, end, x);
      RangeSplit(s, last, start, center, end, x);
      if s[center].value > x {
        TreeRight(s, last, start, center, x);
      } else if s[center].value < x {
        TreeRight(s, last, center + 1, end, x);
      } else {
        RangeAt(s, last, start, end, x, center);
      }
    }
  }

  lemma {:induction false} TreeCut(s: seq<Case>, last: nat, start: nat, end: nat, x: int)
    requires start + 2 < end <= |s|
    ensures var center := (start + end) / 2;
      && start < center < end
      && Tree(s, last, start, end, x) ==
           (if s[center].value == x then s[center].target
            else if s[center].value > x then Tree(s, last, start, center, x)
            else Tree(s, last, center + 1, end, x))
      && (Misfires(s, start, end) <==> Misfires(s, start, center) || Misfires(s, center + 1, end))
  {
  }

  lemma {:induction false} TreeOne(s: seq<Case>, last: nat, i: nat, x: int)
    requires Ascending(s) && i < |s| && Between(s, i, i + 1, x)
    ensures Tree(s, last, i, i + 1, x) == Range(s, last, i, i + 1, x)
  {
    RangeOne(s, last, i, x);
    assert (i + i + 1) / 2 == i;
  }

  lemma {:induction false} TreeTwo(s: seq<Case>, last: nat, start: nat, x: int)
    requires Ascending(s) && start + 2 <= |s| && Between(s, start, start + 2, x) && !Misfires(s, start, start + 2)
    requires x != s[start + 1].value
    ensures Tree(s, last, start, start + 2, x) == Range(s, last, start, start + 2, x)
  {
    RangeOne(s, last, start, x);
    RangeOne(s, last, start + 1, x);
    if s[start].value == x {
      RangeAt(s, last, start, start + 2, x, start);
    } else {
      RangeNone(s, last, start, start + 2, x);
      assert (start + start + 2) / 2 == start + 1 && (start + start + 1) / 2 == start;
      assert !Wedged(s, start, start + 1);
    }
  }

  /** Where the tree misfires, some value is sent to a wrong case. */
  lemma {:induction false} TreeWrong(s: seq<Case>, last: nat, start: nat, end: nat) returns (x: int)
    requires Ascending(s) && start <= end <= |s| && Misfires(s, start, end)
    requires forall i :: 0 <= i < |s| ==> s[i].target != last
    ensures Between(s, start, end, x) && Tree(s, last, start, end, x) != Range(s, last, start, end, x)
    decreases end - start
  {
    if end - start == 2 {
      x := TwoWrong(s, last, start);
    } else {
      var center := (start + end) / 2;
      TreeCut(s, last, start, end, INT_MIN);
      if Misfires(s, start, center) {
        x := TreeWrong(s, last, start, center);
      } else {
        x := TreeWrong(s, last, center + 1, end);
      }
      TreeCut(s, last, start, end, x);
      RangeSplit(s, last, start, center, end, x);
    }
  }

  lemma {:induction false} TwoWrong(s: seq<Case>, last: nat, start: nat) returns (x: int)
    requires Ascending(s) && start + 2 <= |s| && Misfires(s, start, start + 2)
    requires s[start].target != last
    ensures Between(s, start, start + 2, x) && Tree(s, last, start, start + 2, x) != Range(s, last, start, start + 2, x)
  {
    assert (start + start + 2) / 2 == start + 1 && (start + start + 1) / 2 == start;
    x := s[start + 1].value + 1;
    RangeNone(s, last, start, start + 2, x);
    assert Tree(s, last, start, start + 2, x) == Tree(s, last, start, start + 1, x);
  }

  /** The tree selects the right case for every value exactly if it does not misfire. */
  lemma {:induction false} TreeRightIff(s: seq<Case>, last: nat)
    requires Ascending(s) && forall i :: 0 <= i < |s| ==> s[i].target != last
    ensures (forall x :: IsInt(x) ==> Tree(s, last, 0, |s|, x) == Select(s, last, x)) <==> !Misfires(s, 0, |s|)
  {
    assert s[0..|s|] == s;
    if Misfires(s, 0, |s|) {
      var x := TreeWrong(s, last, 0, |s|);
      assert IsInt(x) && Tree(s, last, 0, |s|, x) != Select(s, last, x);
    } else {
      forall x | IsInt(x)
        ensures Tree(s, last, 0, |s|, x) == Select(s, last, x)
      {
        TreeRight(s, last, 0, |s|, x);
      }
    }
  }

  predicate NoThreeInARow(s: seq<Case>) {
    forall i :: 0 <= i < |s| ==> !ThreeFrom(s, i)
  }

  predicate ThreeFrom(s: seq<Case>, i: nat) {
    i + 2 < |s| && s[i].value == s[i + 2].value - 2
  }

  lemma {:induction false} NoThreeNoMisfire(s: seq<Case>, start: nat, end: nat)
    requires end <= |s| && NoThreeInARow(s)
    ensures !Misfires(s, start, end)
    decreases end - start
  {
    if start + 1 < end {
      var center := (start + end) / 2;
      if end - start == 2 {
        assert start >= 1 ==> !ThreeFrom(s, start - 1);
      } else {
        NoThreeNoMisfire(s, start, center);
        NoThreeNoMisfire(s, center + 1, end);
      }
    }
  }

  /** Five cases for which the tree takes value 50 to the case for 2. */
  lemma {:induction false} MisfireExample()
    ensures var s := [Case(-100, 10), Case(0, 11), Case(1, 12), Case(2, 13), Case(3, 14)];
      Ascending(s) && Tree(s, 0, 0, 5, 50) == 13 && Select(s, 0, 50) == 0
  {
    var s := [Case(-100, 10), Case(0, 11), Case(1, 12), Case(2, 13), Case(3, 14)];
    assert Tree(s, 0, 3, 4, 50) == 13;
    assert Tree(s, 0, 3, 5, 50) == Tree(s, 0, 3, 4, 50);
    assert Tree(s, 0, 0, 5, 50) == Tree(s, 0, 3, 5, 50);
    SelectNone(s, 0, 50);
  }

  // ---------- The jump table ----------

  /** The label found in a table for the values from least on. */
  function Lookup(table: seq<nat>, last: nat, least: int, greatest: int, x: int): nat {
    var check := Wrap(x - least);
    if 0 > check || check > Wrap(greatest - least) || check >= |table| then last else table[check]
  }

  /** Entry k is for the value least + k. */
  predicate IsTable(s: seq<Case>, last: nat, table: seq<nat>) {
    && |s| > 0 && |table| == s[|s| - 1].value - s[0].value + 1
    && forall k :: 0 <= k < |table| ==> table[k] == Select(s, last, s[0].value + k)
  }

  /** With a range that fits an int, the table is right for every value, although the
      subtraction may wrap. */
  lemma {:induction false} TableRight(s: seq<Case>, last: nat, table: seq<nat>, x: int)
    requires Ascending(s) && IsTable(s, last, table) && IsInt(x)
    requires IsInt(s[|s| - 1].value - s[0].value)
    ensures Lookup(table, last, s[0].value, s[|s| - 1].value, x) == Select(s, last, x)
  {
    var least, greatest := s[0].value, s[|s| - 1].value;
    assert least <= greatest;
    WrapOver(x - least);
    if least <= x <= greatest {
      assert table[x - least] == Select(s, last, least + (x - least));
    } else {
      forall j | 0 <= j < |s|
        ensures s[j].value != x
      {
        assert j == 0 || s[0].value < s[j].value;
        assert j == |s| - 1 || s[j].value < s[|s| - 1].value;
      }
      SelectNone(s, last, x);
    }
  }

  /** With a range that does not fit, every value goes to the default. */
  lemma {:induction false} TableWrong(s: seq<Case>, last: nat, table: seq<nat>, x: int)
    requires Ascending(s) && |s| > 0 && IsInt(x) && !IsInt(s[|s| - 1].value - s[0].value)
    ensures Lookup(table, last, s[0].value, s[|s| - 1].value, x) == last
  {
    assert |s| == 1 || s[0].value < s[|s| - 1].value;
    WrapOver(s[|s| - 1].value - s[0].value);
  }

  /** The table selects the right case for every value exactly if the range fits. */
  lemma {:induction false} TableRightIff(s: seq<Case>, last: nat, table: seq<nat>)
    requires Ascending(s) && IsTable(s, last, table) && forall i :: 0 <= i < |s| ==> s[i].target != last
    ensures (forall x :: IsInt(x) ==> Lookup(table, last, s[0].value, s[|s| - 1].value, x) == Select(s, last, x))
      <==> IsInt(s[|s| - 1].value - s[0].value)
  {
    var least, greatest := s[0].value, s[|s| - 1].value;
    if IsInt(greatest - least) {
      forall x | IsInt(x)
        ensures Lookup(table, last, least, greatest, x) == Select(s, last, x)
      {
        TableRight(s, last, table, x);
      }
    } else {
      TableWrong(s, last, table, least);
      assert Select(s, last, least) == s[0].target;
    }
  }

  const THRESHOLD: int := 16

  /** The largest step between neighbours, as the code computes it. */
  function MaxStep(s: seq<Case>, n: nat): (d: int)
    requires n <= |s|
    ensures d >= 0
  {
    if n <= 1 then 0
    else
      var d, m := Wrap(s[n - 1].value - s[n - 2].value), MaxStep(s, n - 1);
      if d > m then d else m
  }

  /** Neighbours are at most 15 apart, but for one step too large for an int. */
  predicate Close(s: seq<Case>) {
    forall k :: 0 < k < |s| ==> CloseStep(s[k].value - s[k - 1].value)
  }

  predicate CloseStep(d: int) { d <= 15 || d > 0x7FFF_FFFF }

  /** For which cases a table is chosen. */
  lemma {:induction false} ChosenIff(s: seq<Case>, n: nat)
    requires Ascending(s) && n <= |s|
    ensures MaxStep(s, n) < THRESHOLD <==> forall k :: 0 < k < n ==> CloseStep(s[k].value - s[k - 1].value)
    decreases n
  {
    if n > 1 {
      ChosenIff(s, n - 1);
      assert s[n - 2].value < s[n - 1].value;
      WrapOver(s[n - 1].value - s[n - 2].value);
    }
  }

  /** Tables that are used have at most 15 entries for every step. */
  lemma {:induction false} TableSize(s: seq<Case>, n: nat)
    requires Ascending(s) && 0 < n <= |s| && MaxStep(s, n) < THRESHOLD
    requires IsInt(s[|s| - 1].value - s[0].value)
    ensures s[n - 1].value - s[0].value + 1 <= 15 * (n - 1) + 1
    decreases n
  {
    if n > 1 {
      TableSize(s, n - 1);
      assert n == |s| || s[n - 1].value < s[|s| - 1].value;
      assert n == 2 || s[0].value < s[n - 2].value;
      assert s[n - 2].value < s[n - 1].value;
      assert Wrap(s[n - 1].value - s[n - 2].value) == s[n - 1].value - s[n - 2].value;
    }
  }

  /** Five cases for which a table is chosen, since the one large step wraps, and
      which all values miss. */
  lemma {:induction false} OverflowExample(table: seq<nat>, x: int)
    requires IsInt(x)
    ensures var s := [Case(-2000000000, 10), Case(-1999999999, 11), Case(1999999998, 12), Case(1999999999, 13),
                      Case(2000000000, 14)];
      && Ascending(s) && MaxStep(s, 5) < THRESHOLD
      && Lookup(table, 0, s[0].value, s[4].value, x) == 0 && Select(s, 0, -2000000000) == 10
  {
    var s := [Case(-2000000000, 10), Case(-1999999999, 11), Case(1999999998, 12), Case(1999999999, 13),
              Case(2000000000, 14)];
    assert MaxStep(s, 1) == 0;
    assert MaxStep(s, 2) == 1;
    assert MaxStep(s, 3) == 1;
    assert MaxStep(s, 4) == 1;
    TableWrong(s, 0, table, x);
  }
}
