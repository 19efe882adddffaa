/**
  Row displacement: all rows of the action table and all columns of the goto
  table are laid over one another in a single array, with a check array telling
  whose entry a cell holds.
*/
module Compression {
  import opened ActionRows

  // ---------- Rows in order of empty entries ----------

  /** A permutation of 0..n. */
  predicate IsOrder(o: seq<nat>, n: nat) {
    && |o| == n
    && (forall i :: 0 <= i < n ==> o[i] < n)
    && (forall i, j :: 0 <= i < j < n ==> o[i] != o[j])
    && (forall k :: 0 <= k < n ==> k in o)
  }

  predicate SortedByNdef(rows: seq<Row>, o: seq<nat>)
    requires forall i :: 0 <= i < |o| ==> o[i] < |rows|
  {
    forall i, j :: 0 <= i < j < |o| ==> rows[o[i]].ndef <= rows[o[j]].ndef
  }

  lemma {:induction false} InsertOrder(o: seq<nat>, n: nat, i: nat)
    requires IsOrder(o, n) && i <= n
    ensures IsOrder(o[..i] + [n] + o[i..], n + 1)
  {
    var p := o[..i] + [n] + o[i..];
    assert forall j :: 0 <= j < n + 1 ==> p[j] == if j < i then o[j] else if j == i then n else o[j - 1];
    forall k | 0 <= k < n + 1
      ensures k in p
    {
      if k < n {
        assert k in o;
        var j :| 0 <= j < |o| && o[j] == k;
        assert p[if j < i then j else j + 1] == k;
      } else {
        assert p[i] == n;
      }
    }
  }

  /** Where row n goes among the rows already in order. */
  method FindPlace(rows: seq<Row>, o: seq<nat>, n: nat) returns (i: nat)
    requires IsOrder(o, n) && n < |rows| && SortedByNdef(rows, o)
    ensures i <= n && SortedByNdef(rows, o[..i] + [n] + o[i..])
  {
    i := |o|;
    while i > 0 && rows[o[i - 1]].ndef > rows[n].ndef
      invariant 0 <= i <= |o|
      invariant forall j :: i <= j < |o| ==> rows[o[j]].ndef > rows[n].ndef
    {
      i := i - 1;
    }
  }

  method SortRows(rows: seq<Row>) returns (o: seq<nat>)
    ensures IsOrder(o, |rows|) && SortedByNdef(rows, o)
  {
    o := [];
    var n := 0;
    while n < |rows|
      invariant 0 <= n <= |rows| && IsOrder(o, n) && SortedByNdef(rows, o)
    {
      var i := FindPlace(rows, o, n);
      InsertOrder(o, n, i);
      o := o[..i] + [n] + o[i..];
      n := n + 1;
    }
  }

  // ---------- What a placement means ----------

  /** Row r's entries are found at displacement dsp, and nothing else is taken for one. */
  predicate Placed(r: seq<int>, tag: int -> int, dsp: int, act: seq<int>, chk: seq<int>) {
    && |act| == |chk|
    && forall t :: 0 <= t < |r| ==> Decodes(r[t], tag(t), dsp + t, act, chk)
  }

  /** A nonzero entry is at cell m under its tag; a zero entry's tag is not at m. */
  predicate Decodes(entry: int, tag: int, m: int, act: seq<int>, chk: seq<int>)
    requires |act| == |chk|
  {
    if entry != 0 then 0 <= m < |chk| && chk[m] == tag && act[m] == entry
    else 0 <= m < |chk| ==> chk[m] != tag
  }

  predicate AllZero(r: seq<int>) { forall t :: 0 <= t < |r| ==> r[t] == 0 }

  predicate IsActionPlaced(r: seq<int>, dsp: int, act: seq<int>, chk: seq<int>) {
    && Placed(r, (t: int) => t, dsp, act, chk)
    && dsp >= -|r| && (dsp == -|r| <==> AllZero(r))
  }

  predicate IsGotoPlaced(r: seq<int>, tag: int, dsp: int, act: seq<int>, chk: seq<int>) {
    Placed(r, (t: int) => tag, dsp, act, chk)
  }

  // ---------- Placing one action row ----------

  /** The row can be laid at dsp over what is already there. */
  predicate Fits(r: seq<int>, dsp: int, act: seq<int>, chk: seq<int>)
    requires |act| == |chk|
  {
    forall t :: 0 <= t < |r| && 0 <= dsp + t < |chk| && chk[dsp + t] >= 0 ==>
      if r[t] != 0 then chk[dsp + t] == t && act[dsp + t] == r[t] else chk[dsp + t] != t
  }

  predicate Overlay(r: seq<int>, dsp: int, tag: int -> int, n: nat,
                    act: seq<int>, chk: seq<int>, act': seq<int>, chk': seq<int>)
  {
    && |act| == |chk| == |act'| == |chk'| && n <= |r|
    && forall m :: 0 <= m < |chk| ==>
         if 0 <= m - dsp < n && r[m - dsp] != 0 then act'[m] == r[m - dsp] && chk'[m] == tag(m - dsp)
         else act'[m] == act[m] && chk'[m] == chk[m]
  }

  /** No cell is tagged as a goto column's. */
  predicate TokenTags(ntk: nat, chk: seq<int>) { forall m :: 0 <= m < |chk| ==> chk[m] < ntk }

  lemma {:induction false} TokenTagsKept(
    ntk: nat, r: seq<int>, dsp: int, act: seq<int>, chk: seq<int>, act': seq<int>, chk': seq<int>)
    requires TokenTags(ntk, chk) && |r| <= ntk && Overlay(r, dsp, (t: int) => t, |r|, act, chk, act', chk')
    ensures TokenTags(ntk, chk')
  {
    forall m | 0 <= m < |chk'|
      ensures chk'[m] < ntk
    {
      assert chk'[m] == chk[m] || (0 <= m - dsp < |r| && chk'[m] == m - dsp);
    }
  }

  lemma {:induction false} FewerZeros(r: seq<int>, k: seq<int>, t: nat)
    requires |r| == |k| && t < |r| && r[t] != 0 && k[t] == 0
    requires forall i :: 0 <= i < |k| && k[i] != 0 ==> r[i] != 0
    ensures Count(r, 0) < Count(k, 0)
  {
    CountSnoc(r, t, 0);
    CountSnoc(k, t, 0);
    FewerOrSameZeros(r[..t], k[..t]);
    FewerOrSameZeros(r[t + 1..], k[t + 1..]);
  }

  lemma {:induction false} FewerOrSameZeros(r: seq<int>, k: seq<int>)
    requires |r| == |k| && forall i :: 0 <= i < |k| && k[i] != 0 ==> r[i] != 0
    ensures Count(r, 0) <= Count(k, 0)
  {
    if r != [] {
      FewerOrSameZeros(r[1..], k[1..]);
    }
  }

  /** The heart of the method: a row laid down later cannot fill a hole of an
      earlier one at the same displacement, because it has no more entries. */
  lemma {:induction false} LaterRowKeepsEarlier(
    k: seq<int>, kdsp: int, r: seq<int>, dsp: int, act: seq<int>, chk: seq<int>, act': seq<int>, chk': seq<int>)
    requires |k| == |r| && |act| == |chk| && IsActionPlaced(k, kdsp, act, chk) && Fits(r, dsp, act, chk)
    requires Count(k, 0) <= Count(r, 0)
    requires Overlay(r, dsp, (t: int) => t, |r|, act, chk, act', chk')
    ensures IsActionPlaced(k, kdsp, act', chk')
  {
    forall t | 0 <= t < |k|
      ensures Decodes(k[t], t, kdsp + t, act', chk')
    {
      var m := kdsp + t;
      assert Decodes(k[t], t, m, act, chk);
      if k[t] == 0 && 0 <= m < |chk| && chk'[m] == t {
        assert m - dsp == t && r[t] != 0;
        forall i | 0 <= i < |k| && k[i] != 0
          ensures r[i] != 0
        {
          assert Decodes(k[i], i, kdsp + i, act, chk);
        }
        FewerZeros(r, k, t);
      }
    }
  }

  class Compressor {
    const ntk: nat
    const size: nat
    var act: seq<int>
    var chk: seq<int>
    var actsz: nat

    constructor (ntk: nat, size: nat)
      ensures this.ntk == ntk && this.size == size && actsz == 0
      ensures act == seq(size, i => 0) && chk == seq(size, i => -1)
    {
      this.ntk, this.size := ntk, size;
      act, chk, actsz := seq(size, i => 0), seq(size, i => -1), 0;
    }

    predicate Valid()
      reads this
    {
      && |act| == |chk| == size && actsz <= size
      && (forall m :: actsz <= m < size ==> chk[m] < 0)
    }

    /** Whether the row collides with what is laid at dsp already. */
    method Collides(r: seq<int>, dsp: int) returns (c: bool)
      requires Valid() && |r| == ntk && dsp + ntk <= size
      ensures c <==> !Fits(r, dsp, act, chk)
    {
      var t := 0;
      c := false;
      while t < ntk
        invariant 0 <= t <= ntk
        invariant forall k :: 0 <= k < t && 0 <= dsp + k < |chk| && chk[dsp + k] >= 0 ==>
          if r[k] != 0 then chk[dsp + k] == k && act[dsp + k] == r[k] else chk[dsp + k] != k
      {
        var m := dsp + t;
        if m >= 0 && chk[m] >= 0 {
          if (r[t] != 0 && (chk[m] != t || act[m] != r[t])) || (r[t] == 0 && chk[m] == t) {
            return true;
          }
        }
        t := t + 1;
      }
    }

    /** Write the row's entries under their tags. */
    method Write(r: seq<int>, dsp: int, tag: int, byToken: bool)
      requires Valid() && tag >= 0 && dsp + |r| <= size
      requires forall t :: 0 <= t < |r| && r[t] != 0 ==> 0 <= dsp + t
      modifies this`act, this`chk, this`actsz
      ensures Valid()
      ensures Overlay(r, dsp, if byToken then (t: int) => t else (t: int) => tag, |r|, old(act), old(chk), act, chk)
      ensures old(actsz) <= actsz
      ensures actsz == old(actsz) || actsz <= dsp + |r|
    {
      ghost var f: int -> int := if byToken then (t: int) => t else (t: int) => tag;
      ghost var act0, chk0 := act, chk;
      var t := 0;
      while t < |r|
        invariant 0 <= t <= |r| && Valid()
        invariant Overlay(r, dsp, f, t, act0, chk0, act, chk)
        invariant old(actsz) <= actsz
        invariant actsz == old(actsz) || actsz <= dsp + t
      {
        if r[t] != 0 {
          chk := chk[dsp + t := if byToken then t else tag];
          act := act[dsp + t := r[t]];
          if dsp + t >= actsz {
            actsz := dsp + t + 1;
          }
        }
        t := t + 1;
      }
    }

    /** Lay one action row at the first displacement where it fits. */
    method PlaceAction(r: seq<int>) returns (dsp: int)
      requires Valid() && |r| == ntk && actsz + ntk <= size
      modifies this`act, this`chk, this`actsz
      ensures Valid() && actsz <= old(actsz) + ntk && old(actsz) <= actsz
      ensures Fits(r, dsp, old(act), old(chk)) && dsp + ntk >= 0
      ensures Overlay(r, dsp, (t: int) => t, |r|, old(act), old(chk), act, chk)
      ensures IsActionPlaced(r, dsp, act, chk)
    {
      dsp := 0;
      var m := 0;
      while m < ntk && r[m] == 0
        invariant 0 <= m <= ntk && dsp == -m && Valid() && act == old(act) && chk == old(chk) && actsz == old(actsz)
        invariant forall k :: 0 <= k < m ==> r[k] == 0
      {
        dsp := dsp - 1;
        m := m + 1;
      }
      ghost var first := m;
      var c := Collides(r, dsp);
      while c
        invariant Valid() && act == old(act) && chk == old(chk) && actsz == old(actsz)
        invariant dsp + first >= 0 && dsp <= actsz && (first == ntk ==> !c && dsp + ntk == 0)
        invariant c <==> !Fits(r, dsp, act, chk)
        decreases actsz - dsp, c
      {
        assert dsp < actsz;
        dsp := dsp + 1;
        c := Collides(r, dsp);
      }
      ghost var act0, chk0 := act, chk;
      Write(r, dsp, 0, true);
      forall t | 0 <= t < |r|
        ensures Decodes(r[t], t, dsp + t, act, chk)
      {
      }
    }

    /** Lay one goto column at the first displacement where its entries meet empty cells. */
    method PlaceGoto(r: seq<int>, tag: nat) returns (dsp: int)
      requires Valid() && actsz + |r| <= size
      requires tag >= ntk && forall m :: 0 <= m < size ==> chk[m] != tag
      modifies this`act, this`chk, this`actsz
      ensures Valid() && actsz <= old(actsz) + |r| && old(actsz) <= actsz
      ensures Overlay(r, dsp, (t: int) => tag, |r|, old(act), old(chk), act, chk)
      ensures forall m :: 0 <= m < size && old(chk)[m] >= 0 ==> chk[m] == old(chk)[m] && act[m] == old(act)[m]
      ensures forall m :: 0 <= m < size ==> chk[m] == old(chk)[m] || chk[m] == tag
      ensures IsGotoPlaced(r, tag, dsp, act, chk)
    {
      dsp := 0;
      var m := 0;
      while m < |r| && r[m] == 0
        invariant 0 <= m <= |r| && dsp == -m && Valid() && act == old(act) && chk == old(chk) && actsz == old(actsz)
        invariant forall k :: 0 <= k < m ==> r[k] == 0
      {
        dsp := dsp - 1;
        m := m + 1;
      }
      var t := m;
      while t < |r|
        invariant Valid() && act == old(act) && chk == old(chk) && actsz == old(actsz)
        invariant m <= t <= |r| && 0 <= dsp + m <= actsz
        invariant forall k :: m <= k < t && r[k] != 0 ==> chk[dsp + k] < 0
        decreases actsz - dsp, |r| - t
      {
        if chk[dsp + t] >= 0 && r[t] != 0 {
          dsp := dsp + 1;
          t := m;
        } else {
          t := t + 1;
        }
      }
      Write(r, dsp, tag, false);
      forall k | 0 <= k < |r|
        ensures Decodes(r[k], tag, dsp + k, act, chk)
      {
      }
    }

    /** Lay all action rows, fullest first. */
    method FillActions(rows: seq<Row>) returns (adsp: seq<int>)
      requires Valid() && actsz == 0 && |rows| * ntk <= size && CountedRows(rows, ntk)
      requires forall m :: 0 <= m < size ==> chk[m] == -1
      modifies this`act, this`chk, this`actsz
      ensures Valid() && actsz <= |rows| * ntk
      ensures ActionsPlaced(rows, adsp, act, chk)
      ensures TokenTags(ntk, chk)
    {
      CellsAre(|rows|, ntk);
      var o := SortRows(rows);
      adsp := seq(|rows|, i => 0);
      var n := 0;
      while n < |rows|
        invariant 0 <= n <= |rows| == |adsp| && Valid() && actsz <= Cells(n, ntk)
        invariant FirstActionsPlaced(rows, o, n, adsp, act, chk)
        invariant TokenTags(ntk, chk)
      {
        ghost var act0, chk0 := act, chk;
        RoomForOne(n, |rows|, ntk, size);
        var dsp := PlaceAction(rows[o[n]].t);
        NextActionPlaced(rows, ntk, o, n, adsp, dsp, act0, chk0, act, chk);
        TokenTagsKept(ntk, rows[o[n]].t, dsp, act0, chk0, act, chk);
        adsp := adsp[o[n] := dsp];
        n := n + 1;
      }
      AllActionsPlaced(rows, o, adsp, act, chk);
    }

    /** Lay all goto columns, fullest first, into cells the action rows left empty. */
    method FillGotos(columns: seq<Row>, width: nat, ghost rows: seq<Row>, ghost adsp: seq<int>) returns (gdsp: seq<int>)
      requires Valid() && actsz + |columns| * width <= size
      requires forall h :: 0 <= h < |columns| ==> |columns[h].t| == width
      requires ActionsPlaced(rows, adsp, act, chk) && forall k :: 0 <= k < |rows| ==> |rows[k].t| == ntk
      requires TokenTags(ntk, chk)
      modifies this`act, this`chk, this`actsz
      ensures Valid() && actsz <= old(actsz) + |columns| * width
      ensures ActionsPlaced(rows, adsp, act, chk)
      ensures GotosPlaced(columns, ntk, gdsp, act, chk)
    {
      CellsAre(|columns|, width);
      var o := SortRows(columns);
      gdsp := seq(|columns|, i => 0);
      var n := 0;
      while n < |columns|
        invariant 0 <= n <= |columns| == |gdsp| && Valid() && actsz <= old(actsz) + Cells(n, width)
        invariant ActionsPlaced(rows, adsp, act, chk)
        invariant FirstGotosPlaced(columns, ntk, o, n, gdsp, act, chk)
        invariant TagsFree(ntk, o, n, chk)
      {
        ghost var act0, chk0 := act, chk;
        RoomForOne(n, |columns|, width, size - old(actsz));
        assert forall m :: 0 <= m < size ==> chk[m] != ntk + o[n];
        var dsp := PlaceGoto(columns[o[n]].t, ntk + o[n]);
        ActionsKept(rows, ntk, adsp, ntk + o[n], act0, chk0, act, chk);
        NextGotoPlaced(columns, ntk, o, n, gdsp, dsp, act0, chk0, act, chk);
        gdsp := gdsp[o[n] := dsp];
        n := n + 1;
      }
      AllGotosPlaced(columns, ntk, o, gdsp, act, chk);
    }
  }

  predicate CountedRows(rows: seq<Row>, width: nat) {
    forall k :: 0 <= k < |rows| ==> |rows[k].t| == width && rows[k].ndef == Count(rows[k].t, 0)
  }

  predicate ActionsPlaced(rows: seq<Row>, adsp: seq<int>, act: seq<int>, chk: seq<int>) {
    |adsp| == |rows| && forall k :: 0 <= k < |rows| ==> IsActionPlaced(rows[k].t, adsp[k], act, chk)
  }

  predicate GotosPlaced(columns: seq<Row>, ntk: nat, gdsp: seq<int>, act: seq<int>, chk: seq<int>) {
    |gdsp| == |columns| && forall h :: 0 <= h < |columns| ==> IsGotoPlaced(columns[h].t, ntk + h, gdsp[h], act, chk)
  }

  predicate FirstActionsPlaced(rows: seq<Row>, o: seq<nat>, n: nat, adsp: seq<int>, act: seq<int>, chk: seq<int>)
    requires IsOrder(o, |rows|) && |adsp| == |rows| && n <= |rows|
  {
    forall i :: 0 <= i < n ==> IsActionPlaced(rows[o[i]].t, adsp[o[i]], act, chk)
  }

  predicate FirstGotosPlaced(
    columns: seq<Row>, ntk: nat, o: seq<nat>, n: nat, gdsp: seq<int>, act: seq<int>, chk: seq<int>)
    requires IsOrder(o, |columns|) && |gdsp| == |columns| && n <= |columns|
  {
    forall i :: 0 <= i < n ==> IsGotoPlaced(columns[o[i]].t, ntk + o[i], gdsp[o[i]], act, chk)
  }

  /** No cell carries the tag of a column still to be laid. */
  predicate TagsFree(ntk: nat, o: seq<nat>, n: nat, chk: seq<int>) {
    forall i, m :: n <= i < |o| && 0 <= m < |chk| ==> chk[m] != ntk + o[i]
  }

  /** The cells that n rows of a width take if none share any. */
  function Cells(n: nat, width: nat): nat { if n == 0 then 0 else Cells(n - 1, width) + width }

  lemma {:induction false} CellsAre(n: nat, width: nat)
    ensures Cells(n, width) == n * width
  {
    if n > 0 {
      CellsAre(n - 1, width);
      assert (n - 1) * width + width == n * width;
    }
  }

  lemma {:induction false} RoomForOne(n: nat, count: nat, width: nat, size: int)
    requires n < count && Cells(count, width) <= size
    ensures Cells(n + 1, width) == Cells(n, width) + width <= size
    decreases count - n
  {
    if n + 1 < count {
      RoomForOne(n + 1, count, width, size);
    }
  }

  lemma {:induction false} NextActionPlaced(
    rows: seq<Row>, ntk: nat, o: seq<nat>, n: nat, adsp: seq<int>, dsp: int,
    act: seq<int>, chk: seq<int>, act': seq<int>, chk': seq<int>)
    requires IsOrder(o, |rows|) && SortedByNdef(rows, o) && CountedRows(rows, ntk) && |adsp| == |rows| && n < |rows|
    requires |act| == |chk| && FirstActionsPlaced(rows, o, n, adsp, act, chk)
    requires Fits(rows[o[n]].t, dsp, act, chk) && IsActionPlaced(rows[o[n]].t, dsp, act', chk')
    requires Overlay(rows[o[n]].t, dsp, (t: int) => t, |rows[o[n]].t|, act, chk, act', chk')
    ensures FirstActionsPlaced(rows, o, n + 1, adsp[o[n] := dsp], act', chk')
  {
    forall i | 0 <= i < n
      ensures IsActionPlaced(rows[o[i]].t, adsp[o[i]], act', chk')
    {
      assert IsActionPlaced(rows[o[i]].t, adsp[o[i]], act, chk);
      LaterRowKeepsEarlier(rows[o[i]].t, adsp[o[i]], rows[o[n]].t, dsp, act, chk, act', chk');
    }
  }

  lemma {:induction false} AllActionsPlaced(rows: seq<Row>, o: seq<nat>, adsp: seq<int>, act: seq<int>, chk: seq<int>)
    requires IsOrder(o, |rows|) && |adsp| == |rows| && FirstActionsPlaced(rows, o, |rows|, adsp, act, chk)
    ensures ActionsPlaced(rows, adsp, act, chk)
  {
    forall k | 0 <= k < |rows|
      ensures IsActionPlaced(rows[k].t, adsp[k], act, chk)
    {
      assert k in o;
      var i :| 0 <= i < |o| && o[i] == k;
      assert IsActionPlaced(rows[o[i]].t, adsp[o[i]], act, chk);
    }
  }

  lemma {:induction false} ActionsKept(
    rows: seq<Row>, ntk: nat, adsp: seq<int>, tag: int,
    act: seq<int>, chk: seq<int>, act': seq<int>, chk': seq<int>)
    requires ActionsPlaced(rows, adsp, act, chk) && forall k :: 0 <= k < |rows| ==> |rows[k].t| == ntk
    requires tag >= ntk && |act| == |chk| == |act'| == |chk'|
    requires forall m :: 0 <= m < |chk| && chk[m] >= 0 ==> chk'[m] == chk[m] && act'[m] == act[m]
    requires forall m :: 0 <= m < |chk| ==> chk'[m] == chk[m] || chk'[m] == tag
    ensures ActionsPlaced(rows, adsp, act', chk')
  {
    forall k | 0 <= k < |rows|
      ensures IsActionPlaced(rows[k].t, adsp[k], act', chk')
    {
      assert IsActionPlaced(rows[k].t, adsp[k], act, chk);
      OtherTagKeeps(rows[k].t, (t: int) => t, adsp[k], tag, act, chk, act', chk');
    }
  }

  lemma {:induction false} NextGotoPlaced(
    columns: seq<Row>, ntk: nat, o: seq<nat>, n: nat, gdsp: seq<int>, dsp: int,
    act: seq<int>, chk: seq<int>, act': seq<int>, chk': seq<int>)
    requires IsOrder(o, |columns|) && |gdsp| == |columns| && n < |columns|
    requires |act| == |chk| == |act'| == |chk'| && FirstGotosPlaced(columns, ntk, o, n, gdsp, act, chk)
    requires IsGotoPlaced(columns[o[n]].t, ntk + o[n], dsp, act', chk')
    requires forall m :: 0 <= m < |chk| && chk[m] >= 0 ==> chk'[m] == chk[m] && act'[m] == act[m]
    requires forall m :: 0 <= m < |chk| ==> chk'[m] == chk[m] || chk'[m] == ntk + o[n]
    ensures FirstGotosPlaced(columns, ntk, o, n + 1, gdsp[o[n] := dsp], act', chk')
    ensures TagsFree(ntk, o, n, chk) ==> TagsFree(ntk, o, n + 1, chk')
  {
    forall i | 0 <= i < n
      ensures IsGotoPlaced(columns[o[i]].t, ntk + o[i], gdsp[o[i]], act', chk')
    {
      assert IsGotoPlaced(columns[o[i]].t, ntk + o[i], gdsp[o[i]], act, chk);
      OtherTagKeeps(columns[o[i]].t, (t: int) => ntk + o[i], gdsp[o[i]], ntk + o[n], act, chk, act', chk');
    }
  }

  lemma {:induction false} AllGotosPlaced(columns: seq<Row>, ntk: nat, o: seq<nat>, gdsp: seq<int>, act: seq<int>, chk: seq<int>)
    requires IsOrder(o, |columns|) && |gdsp| == |columns|
    requires FirstGotosPlaced(columns, ntk, o, |columns|, gdsp, act, chk)
    ensures GotosPlaced(columns, ntk, gdsp, act, chk)
  {
    forall h | 0 <= h < |columns|
      ensures IsGotoPlaced(columns[h].t, ntk + h, gdsp[h], act, chk)
    {
      assert h in o;
      var i :| 0 <= i < |o| && o[i] == h;
      assert IsGotoPlaced(columns[o[i]].t, ntk + o[i], gdsp[o[i]], act, chk);
    }
  }

  /** Filling empty cells under another tag disturbs nothing placed before. */
  lemma {:induction false} OtherTagKeeps(
    r: seq<int>, f: int -> int, dsp: int, tag: int, act: seq<int>, chk: seq<int>, act': seq<int>, chk': seq<int>)
    requires Placed(r, f, dsp, act, chk) && |act| == |chk| == |act'| == |chk'|
    requires forall t :: 0 <= t < |r| ==> 0 <= f(t) != tag
    requires forall m :: 0 <= m < |chk| && chk[m] >= 0 ==> chk'[m] == chk[m] && act'[m] == act[m]
    requires forall m :: 0 <= m < |chk| ==> chk'[m] == chk[m] || chk'[m] == tag
    ensures Placed(r, f, dsp, act', chk')
  {
    forall t | 0 <= t < |r|
      ensures Decodes(r[t], f(t), dsp + t, act', chk')
    {
      assert Decodes(r[t], f(t), dsp + t, act, chk);
    }
  }
}
