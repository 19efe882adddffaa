/**
  Building the automaton: the sorted state table with insertion by kernel, and
  the passes over it until nothing is dirty.
*/
module LalrGenerator {
  import opened Options
  import opened Grammars
  import opened FirstSets
  import opened Automata
  import opened LalrItems
  import opened LalrClosure
  import opened LalrStates

  // ---------- Steps on the state table ----------

  /** The terms to be added as a state: a non-empty goto. */
  predicate NewKernel(g: Grammar, us: seq<Term>) {
    ValidGrammar(g) && ValidTerms(g, us) && Sorted(us) && Dotted(us) && |us| > 0
  }

  /** The lookaheads of us merged into the first terms of ts. */
  function MergeLks(ts: seq<Term>, us: seq<Term>): (vs: seq<Term>)
    requires |us| <= |ts|
    ensures |vs| == |ts|
    ensures forall i :: 0 <= i < |ts| ==>
      vs[i] == if i < |us| then ts[i].(lk := ts[i].lk + us[i].lk) else ts[i]
  {
    seq(|ts|, i requires 0 <= i < |ts| => if i < |us| then ts[i].(lk := ts[i].lk + us[i].lk) else ts[i])
  }

  lemma {:induction false} MergeLksOk(g: Grammar, ts: seq<Term>, us: seq<Term>)
    requires ItemSet(g, ts) && NewKernel(g, us) && Kernel(ts) == Kernel(us)
    ensures |us| <= |ts|
    ensures var vs := MergeLks(ts, us);
      ItemSet(g, vs) && SameCores(ts, vs) && Grown(ts, vs) && Below(us, vs) && Kernel(vs) == Kernel(us)
  {
    KernelPrefix(ts, us);
    var vs := MergeLks(ts, us);
    forall i | 0 <= i < |vs|
      ensures ValidTerm(g, vs[i])
    {
      assert ValidTerm(g, ts[i]);
      if i < |us| {
        assert ValidTerm(g, us[i]);
      }
    }
    SameCoresItemSet(g, ts, vs);
    KernelGrown(ts, vs);
    forall i | 0 <= i < |us|
      ensures TermBelow(us[i], vs)
    {
      assert CoreOf(vs[i]) == CoreOf(us[i]);
    }
  }

  lemma {:induction false} MergeLksWithin(sys: System, ts: seq<Term>, us: seq<Term>)
    requires WithinSystem(sys, ts) && WithinSystem(sys, us) && Kernel(ts) == Kernel(us) && Dotted(us)
    requires DistinctCores(sys[Kernel(ts)]) && |us| <= |ts| && Grown(ts, MergeLks(ts, us))
    ensures WithinSystem(sys, MergeLks(ts, us))
  {
    KernelPrefix(ts, us);
    var vs, ref := MergeLks(ts, us), sys[Kernel(ts)];
    KernelGrown(ts, vs);
    forall i | 0 <= i < |vs|
      ensures TermBelow(vs[i], ref)
    {
      assert TermBelow(ts[i], ref);
      if i < |us| {
        assert TermBelow(us[i], ref);
        assert us[i] == ts[i].(lk := us[i].lk);
        BelowBoth(ts[i], us[i].lk, ref);
      }
    }
  }

  /** Putting a state in place of one that it extends keeps the table in order. */
  lemma {:induction false} OrderKept(pool: seq<Item>, qool: seq<Item>, st: seq<nat>)
    requires ValidOrder(pool, st) && |qool| == |pool| && AllGrown(pool, qool)
    ensures ValidOrder(qool, st)
  {
    forall i | 0 <= i < |st|
      ensures KernelAt(qool, st, i) == KernelAt(pool, st, i)
    {
      assert Grown(pool[st[i]].ts, qool[st[i]].ts);
      KernelGrown(pool[st[i]].ts, qool[st[i]].ts);
    }
  }

  /** Where the kernel belongs in the table. */
  predicate IsPlace(pool: seq<Item>, st: seq<nat>, us: seq<Term>, hi: nat)
    requires forall i :: 0 <= i < |st| ==> st[i] < |pool|
  {
    && hi <= |st|
    && (forall k :: 0 <= k < hi ==> KernelLess(KernelAt(pool, st, k), Kernel(us)))
    && (hi < |st| ==> !KernelLess(KernelAt(pool, st, hi), Kernel(us)))
  }

  predicate Ascending(ks: seq<seq<Core>>) {
    forall i, j :: 0 <= i < j < |ks| ==> KernelLess(ks[i], ks[j])
  }

  lemma {:induction false} InsertAscending(ks: seq<seq<Core>>, k: seq<Core>, hi: nat)
    requires Ascending(ks) && hi <= |ks|
    requires forall i :: 0 <= i < hi ==> KernelLess(ks[i], k)
    requires hi < |ks| ==> KernelLess(k, ks[hi])
    ensures Ascending(ks[..hi] + [k] + ks[hi..])
  {
    var ls := ks[..hi] + [k] + ks[hi..];
    forall i, j | 0 <= i < j < |ls|
      ensures KernelLess(ls[i], ls[j])
    {
      if i == hi && j > hi + 1 {
        KernelLessTransitive(k, ks[hi], ks[j - 1]);
      }
    }
  }

  function Kernels(pool: seq<Item>, st: seq<nat>): (ks: seq<seq<Core>>)
    requires forall i :: 0 <= i < |st| ==> st[i] < |pool|
    ensures |ks| == |st| && forall i :: 0 <= i < |st| ==> ks[i] == KernelAt(pool, st, i)
  {
    seq(|st|, i requires 0 <= i < |st| => KernelAt(pool, st, i))
  }

  lemma {:induction false} InsertKeepsOrder(pool: seq<Item>, st: seq<nat>, i: Item, hi: nat)
    requires ValidOrder(pool, st) && IsPlace(pool, st, i.ts, hi)
    requires hi < |st| ==> KernelAt(pool, st, hi) != Kernel(i.ts)
    ensures ValidOrder(pool + [i], st[..hi] + [|pool|] + st[hi..])
  {
    var qool, tt := pool + [i], st[..hi] + [|pool|] + st[hi..];
    if hi < |st| {
      KernelLessTotal(KernelAt(pool, st, hi), Kernel(i.ts));
    }
    var ks := Kernels(pool, st);
    InsertAscending(ks, Kernel(i.ts), hi);
    assert Kernels(qool, tt) == ks[..hi] + [Kernel(i.ts)] + ks[hi..];
    forall j, k | 0 <= j < k < |tt|
      ensures KernelLess(KernelAt(qool, tt, j), KernelAt(qool, tt, k))
    {
      assert KernelLess(Kernels(qool, tt)[j], Kernels(qool, tt)[k]);
    }
    InsertedAll(st, |pool|, hi);
  }

  lemma {:induction false} InsertedAll(st: seq<nat>, n: nat, hi: nat)
    requires hi <= |st| && forall p :: 0 <= p < n ==> p in st
    ensures forall p :: 0 <= p < n + 1 ==> p in st[..hi] + [n] + st[hi..]
  {
    var tt := st[..hi] + [n] + st[hi..];
    forall p | 0 <= p < n + 1
      ensures p in tt
    {
      if p < n {
        assert p in st;
        var k :| 0 <= k < |st| && st[k] == p;
        assert tt[if k < hi then k else k + 1] == p;
      } else {
        assert tt[hi] == p;
      }
    }
  }

  lemma {:induction false} FreshKernel(pool: seq<Item>, st: seq<nat>, us: seq<Term>, hi: nat, p: nat)
    requires ValidOrder(pool, st) && IsPlace(pool, st, us, hi) && p < |pool|
    requires hi < |st| ==> KernelAt(pool, st, hi) != Kernel(us)
    ensures Kernel(pool[p].ts) != Kernel(us)
  {
    assert p in st;
    var k :| 0 <= k < |st| && st[k] == p;
    KernelLessTotal(KernelAt(pool, st, k), Kernel(us));
    if k > hi {
      KernelLessTotal(KernelAt(pool, st, hi), Kernel(us));
      KernelLessTotal(KernelAt(pool, st, k), KernelAt(pool, st, hi));
      assert KernelLess(KernelAt(pool, st, hi), KernelAt(pool, st, k));
    }
  }

  class Generator {
    const g: Grammar
    const info: Info
    var pool: seq<Item>
    var st: seq<nat>

    constructor (g: Grammar, info: Info)
      ensures this.g == g && this.info == info && pool == [] && st == []
    {
      this.g, this.info, pool, st := g, info, [], [];
    }

    ghost predicate Ready() {
      ValidGrammar(g) && Defined(g) && ValidInfo(g, info)
    }

    ghost predicate Valid()
      reads this
    {
      Ready() && TableOk(g, pool, st)
    }

    /** Binary search for the place of a kernel. */
    method Search(us: seq<Term>) returns (hi: nat)
      requires ValidOrder(pool, st)
      ensures IsPlace(pool, st, us, hi)
    {
      var lo, top := 0, |st| - 1;
      if top < 0 {
        return 0;
      }
      var c := Icmp(us, pool[st[top]].ts);
      KernelLessTotal(Kernel(us), KernelAt(pool, st, top));
      if c > 0 {
        forall k | 0 <= k < top + 1
          ensures KernelLess(KernelAt(pool, st, k), Kernel(us))
        {
          if k < top {
            KernelLessTransitive(KernelAt(pool, st, k), KernelAt(pool, st, top), Kernel(us));
          }
        }
        return top + 1;
      }
      c := Icmp(us, pool[st[0]].ts);
      KernelLessTotal(Kernel(us), KernelAt(pool, st, 0));
      if c <= 0 {
        return 0;
      }
      while top - lo != 1
        invariant 0 <= lo < top < |st|
        invariant KernelLess(KernelAt(pool, st, lo), Kernel(us))
        invariant !KernelLess(KernelAt(pool, st, top), Kernel(us))
        decreases top - lo
      {
        var mid := (lo + top) / 2;
        c := Icmp(pool[st[mid]].ts, us);
        if c < 0 {
          lo := mid;
        } else {
          top := mid;
        }
      }
      forall k | 0 <= k < top
        ensures KernelLess(KernelAt(pool, st, k), Kernel(us))
      {
        if k < lo {
          KernelLessTransitive(KernelAt(pool, st, k), KernelAt(pool, st, lo), Kernel(us));
        }
      }
      hi := top;
    }

    /** Find the state with the kernel of us and merge lookaheads into it, or insert
        a new one; tell which it is and whether anything changed. */
    method Stadd(us: seq<Term>) returns (ptr: nat, chg: bool)
      requires Valid() && NewKernel(g, us)
      modifies this`pool, this`st
      ensures Ready() && Added(g, info, old(pool), old(st), us, pool, st, ptr, chg)
    {
      var hi := Search(us);
      ghost var before := pool;
      if hi < |st| {
        var c := Icmp(pool[st[hi]].ts, us);
        if c == 0 {
          ptr := st[hi];
          var i1 := pool[ptr];
          MergeInto(g, info, before, st, ptr, us);
          var ts := MergeLks(i1.ts, us);
          chg := ts != i1.ts;
          pool := pool[ptr := Item(ts, i1.gtbl, i1.dirty || chg)];
          return;
        }
      }
      ptr := |pool|;
      chg := true;
      var i := Item(us, seq(g.nsy, x => None), true);
      InsertedPool(g, info, before, st, hi, us, i);
      st := st[..hi] + [ptr] + st[hi..];
      pool := pool + [i];
    }

    /** Put one goto in place. */
    method VisitSymbol(p: nat, x: Sym, ghost closed: seq<Term>) returns (chg: bool)
      requires Ready() && x < g.nsy && VisitOk(g, info, pool, st, p, x, closed)
      modifies this`pool, this`st
      ensures VisitOk(g, info, pool, st, p, x + 1, closed)
      ensures VisitStep(g, info, old(pool), old(st), pool, st, p, chg)
    {
      ghost var pool0, st0 := pool, st;
      var us := Igoto(g, pool[p].ts, x);
      if us == [] {
        chg := false;
        NoGotoVisited(g, info, pool, st, p, x, us, closed);
        pool := pool[p := pool[p].(gtbl := pool[p].gtbl[x := None])];
        return;
      }
      var ptr;
      ptr, chg := Stadd(us);
      GotoVisited(g, info, pool0, st0, p, x, us, closed, pool, st, ptr, chg);
      pool := pool[p := pool[p].(gtbl := pool[p].gtbl[x := Some(ptr)])];
    }

    /** Close a dirty state and put all of its gotos in place. */
    method Visit(p: nat) returns (chg: bool)
      requires Valid() && p < |pool| && AllSettled(g, info, pool) && MinimalPool(g, info, pool)
      modifies this`pool, this`st
      ensures Valid() && AllSettled(g, info, pool) && MinimalPool(g, info, pool)
      ensures Visited(g, info, old(pool), old(st), pool, st, p, chg)
    {
      ghost var pool0, st0 := pool, st;
      assert ValidItem(g, pool, p);
      var i := pool[p];
      var ts := Iclose(g, info, i.ts);
      ghost var closed := ts;
      ClosedPool(g, info, pool, st, p, ts);
      pool := pool[p := Item(ts, i.gtbl, false)];
      ghost var pool1 := pool;
      SameVisitStep(g, info, pool1, st, p);
      chg := false;
      var x := 0;
      while x < g.nsy
        invariant 0 <= x <= g.nsy && Ready() && VisitOk(g, info, pool, st, p, x, closed)
        invariant VisitStep(g, info, pool1, st0, pool, st, p, chg)
      {
        ghost var before, st1, chg1 := pool, st, chg;
        var c := VisitSymbol(p, x, closed);
        VisitStepTwice(g, info, pool1, st0, before, st1, pool, st, p, chg1, c);
        chg := chg || c;
        x := x + 1;
      }
      VisitDone(g, info, pool0, st0, pool1, pool, st, p, closed, chg);
    }

    /** Visit every dirty state once, in table order, new ones included. */
    method Pass() returns (chg: bool)
      requires Valid() && AllSettled(g, info, pool) && MinimalPool(g, info, pool)
      modifies this`pool, this`st
      ensures Valid() && AllSettled(g, info, pool) && MinimalPool(g, info, pool)
      ensures Measured(g, old(pool), pool, chg) && WithinKept(g, info, old(pool), pool)
      ensures !chg ==> forall p :: 0 <= p < |pool| ==> !pool[p].dirty
    {
      ghost var pool0 := pool;
      chg := false;
      var n := 0;
      while n < |st|
        invariant 0 <= n <= |st| && Valid() && AllSettled(g, info, pool) && MinimalPool(g, info, pool)
        invariant |pool0| <= |pool| && Measured(g, pool0, pool, chg) && WithinKept(g, info, pool0, pool)
        invariant !chg ==> CleanUpTo(pool, st, n)
        decreases FreeKernels(g, pool), |st| - n
      {
        var p := st[n];
        ghost var before, st0 := pool, st;
        if pool[p].dirty {
          var c := Visit(p);
          MeasuredTwice(g, pool0, before, pool, chg, c);
          WithinTwice(g, info, pool0, before, pool);
          chg := chg || c;
          assert !chg ==> CleanUpTo(pool, st, n + 1);
        }
        n := n + 1;
      }
      if !chg {
        AllClean(pool, st);
      }
    }

    /** Build the automaton: repeat passes until one changes nothing.  All states
        end up closed with all gotos in place, and with the least lookaheads any
        such system of states can have. */
    method Stgen()
      requires Ready() && pool == [] && st == []
      modifies this`pool, this`st
      ensures Valid() && FinishedTable(g, info, pool)
      ensures forall sys :: IsLalrSystem(g, info, sys) ==> PoolWithin(sys, pool)
    {
      pool := [Item([Term(0, 0, {0})], seq(g.nsy, x => None), true)];
      st := [0];
      StartTable(g, info, pool, st);
      var chg := true;
      while chg
        invariant Valid() && AllSettled(g, info, pool) && MinimalPool(g, info, pool)
        invariant forall sys :: IsLalrSystem(g, info, sys) ==> PoolWithin(sys, pool)
        invariant !chg ==> forall p :: 0 <= p < |pool| ==> !pool[p].dirty
        decreases FreeKernels(g, pool), MissingAnywhere(g, pool), chg
      {
        chg := Pass();
      }
      Finish(g, info, pool);
    }
  }

  /** What adding a goto does to the table. */
  ghost predicate Added(g: Grammar, info: Info, pool: seq<Item>, st: seq<nat>, us: seq<Term>,
                        qool: seq<Item>, tt: seq<nat>, ptr: nat, chg: bool)
    requires ValidGrammar(g) && ValidInfo(g, info)
  {
    && TableOk(g, qool, tt) && PoolGrown(pool, qool)
    && 0 < ptr < |qool| && Kernel(qool[ptr].ts) == Kernel(us) && Below(us, qool[ptr].ts)
    && Measured(g, pool, qool, chg)
    && (!chg ==> qool == pool && tt == st)
    && (forall sys :: IsLalrSystem(g, info, sys) && PoolWithin(sys, pool) && WithinSystem(sys, us) ==>
          PoolWithin(sys, qool))
    && (MinimalPool(g, info, pool) ==> MinimalPool(g, info, qool))
  }

  /** State p is closed up to merges, with its first x gotos in place. */
  ghost predicate VisitOk(g: Grammar, info: Info, pool: seq<Item>, st: seq<nat>, p: nat, x: nat, closed: seq<Term>)
    requires ValidGrammar(g) && ValidInfo(g, info) && x <= g.nsy
  {
    && TableOk(g, pool, st) && p < |pool| && ValidItem(g, pool, p)
    && OthersSettled(g, info, pool, p) && MinimalPool(g, info, pool)
    && ItemSet(g, closed) && Closed(g, info, closed)
    && SameCores(closed, pool[p].ts) && Kernel(closed) == Kernel(pool[p].ts)
    && (!pool[p].dirty ==> pool[p].ts == closed && GotosOk(g, pool, p, x))
  }

  /** Part of a visit to p: no other state changes unless chg is set. */
  ghost predicate VisitStep(g: Grammar, info: Info, pool: seq<Item>, st: seq<nat>,
                            qool: seq<Item>, tt: seq<nat>, p: nat, chg: bool)
    requires ValidGrammar(g) && ValidInfo(g, info)
  {
    && p < |pool| <= |qool| && Measured(g, pool, qool, chg) && WithinKept(g, info, pool, qool)
    && (!chg ==>
          (&& tt == st && |qool| == |pool| && qool[p].dirty == pool[p].dirty
           && forall q :: 0 <= q < |pool| && q != p ==> qool[q] == pool[q]))
  }

  /** A whole visit; without a change, p is clean afterwards. */
  ghost predicate Visited(g: Grammar, info: Info, pool: seq<Item>, st: seq<nat>,
                          qool: seq<Item>, tt: seq<nat>, p: nat, chg: bool)
    requires ValidGrammar(g) && ValidInfo(g, info)
  {
    && p < |pool| <= |qool| && Measured(g, pool, qool, chg) && WithinKept(g, info, pool, qool)
    && (!chg ==>
          (&& tt == st && |qool| == |pool| && !qool[p].dirty
           && forall q :: 0 <= q < |pool| && q != p ==> qool[q] == pool[q]))
  }

  ghost predicate AllSettled(g: Grammar, info: Info, pool: seq<Item>)
    requires ValidGrammar(g) && ValidInfo(g, info) && ValidPool(g, pool)
  {
    forall q :: 0 <= q < |pool| ==> ValidItem(g, pool, q) && Settled(g, info, pool, q)
  }

  /** Whatever system held the states before holds them still. */
  ghost predicate WithinKept(g: Grammar, info: Info, pool: seq<Item>, qool: seq<Item>)
    requires ValidGrammar(g) && ValidInfo(g, info)
  {
    forall sys :: IsLalrSystem(g, info, sys) && PoolWithin(sys, pool) ==> PoolWithin(sys, qool)
  }

  /** The table got no further from the end, and closer if something changed. */
  predicate Measured(g: Grammar, pool: seq<Item>, qool: seq<Item>, chg: bool) {
    && AsClose(g, pool, qool)
    && (chg ==> Closer(g, pool, qool))
    && (|qool| > |pool| ==> FreeKernels(g, qool) < FreeKernels(g, pool))
  }

  ghost predicate TableOk(g: Grammar, pool: seq<Item>, st: seq<nat>) {
    ValidPool(g, pool) && ValidOrder(pool, st)
  }

  lemma {:induction false} ReplacedValid(g: Grammar, pool: seq<Item>, p: nat, i: Item)
    requires ValidPool(g, pool) && p < |pool| && ItemSet(g, i.ts) && Grown(pool[p].ts, i.ts)
    requires |i.gtbl| == g.nsy && forall x :: 0 <= x < g.nsy && i.gtbl[x].Some? ==> 0 < i.gtbl[x].value < |pool|
    ensures ValidPool(g, pool[p := i]) && AllGrown(pool, pool[p := i])
  {
    var qool := pool[p := i];
    assert ValidItem(g, pool, p);
    forall q | 0 <= q < |qool|
      ensures ValidItem(g, qool, q)
    {
      assert ValidItem(g, pool, q);
      assert CoreOf(i.ts[0]) == CoreOf(pool[p].ts[0]);
    }
  }

  lemma {:induction false} ReplacedGrown(pool: seq<Item>, p: nat, i: Item)
    requires p < |pool| && ItemMerged(pool[p], i)
    ensures PoolGrown(pool, pool[p := i])
  {
    var qool := pool[p := i];
    forall q | 0 <= q < |pool|
      ensures ItemMerged(pool[q], qool[q])
    {
      GrownReflexive(pool[q].ts);
    }
  }

  lemma {:induction false} MergeIntoWithin(g: Grammar, info: Info, sys: System, pool: seq<Item>, p: nat, us: seq<Term>, i: Item)
    requires ValidGrammar(g) && ValidInfo(g, info) && p < |pool| && Dotted(us)
    requires |us| <= |pool[p].ts| && i.ts == MergeLks(pool[p].ts, us) && Grown(pool[p].ts, i.ts)
    requires Kernel(pool[p].ts) == Kernel(us)
    requires IsLalrSystem(g, info, sys) && PoolWithin(sys, pool) && WithinSystem(sys, us)
    ensures PoolWithin(sys, pool[p := i])
  {
    assert WithinSystem(sys, pool[p].ts) && SystemEntry(g, info, sys, Kernel(us));
    MergeLksWithin(sys, pool[p].ts, us);
    PoolWithinReplaced(sys, pool, p, i);
  }

  lemma {:induction false} MergeIntoTable(g: Grammar, pool: seq<Item>, st: seq<nat>, p: nat, us: seq<Term>, i: Item)
    requires TableOk(g, pool, st) && NewKernel(g, us) && p < |pool| && ValidItem(g, pool, p)
    requires Kernel(pool[p].ts) == Kernel(us) && |us| <= |pool[p].ts|
    requires ItemSet(g, i.ts) && Grown(pool[p].ts, i.ts) && i.gtbl == pool[p].gtbl
    ensures p > 0 && TableOk(g, pool[p := i], st)
  {
    ReplacedValid(g, pool, p, i);
    OrderKept(pool, pool[p := i], st);
    KernelPrefix(pool[p].ts, us);
    assert us[0].dot > 0 && CoreOf(pool[p].ts[0]) == CoreOf(us[0]);
  }

  /** The item that results from merging us into state p. */
  function MergedItem(i: Item, us: seq<Term>): Item
    requires |us| <= |i.ts|
  {
    var ts := MergeLks(i.ts, us);
    Item(ts, i.gtbl, i.dirty || ts != i.ts)
  }

  lemma {:induction false} MergedItemOk(g: Grammar, i: Item, us: seq<Term>)
    requires ItemSet(g, i.ts) && NewKernel(g, us) && Kernel(i.ts) == Kernel(us)
    ensures |us| <= |i.ts|
    ensures var j := MergedItem(i, us);
      ItemMerged(i, j) && ItemSet(g, j.ts) && Kernel(j.ts) == Kernel(us) && Below(us, j.ts)
  {
    MergeLksOk(g, i.ts, us);
  }

  lemma {:induction false} MergeInto(g: Grammar, info: Info, pool: seq<Item>, st: seq<nat>, p: nat, us: seq<Term>)
    requires ValidGrammar(g) && ValidInfo(g, info) && TableOk(g, pool, st) && NewKernel(g, us)
    requires p < |pool| && Kernel(pool[p].ts) == Kernel(us)
    ensures |us| <= |pool[p].ts|
    ensures Added(g, info, pool, st, us, pool[p := MergedItem(pool[p], us)], st, p,
      MergedItem(pool[p], us).ts != pool[p].ts)
  {
    assert ValidItem(g, pool, p);
    MergedItemOk(g, pool[p], us);
    var i := MergedItem(pool[p], us);
    MergeIntoTable(g, pool, st, p, us, i);
    ReplacedGrown(pool, p, i);
    PoolGrownAllGrown(pool, pool[p := i]);
    MergeMeasured(g, pool, p, i);
    MinimalMerged(g, info, pool, pool[p := i]);
    forall sys | IsLalrSystem(g, info, sys) && PoolWithin(sys, pool) && WithinSystem(sys, us)
      ensures PoolWithin(sys, pool[p := i])
    {
      MergeIntoWithin(g, info, sys, pool, p, us, i);
    }
    if i.ts == pool[p].ts {
      assert pool[p := i] == pool;
    }
  }

  lemma {:induction false} MergeMeasured(g: Grammar, pool: seq<Item>, p: nat, i: Item)
    requires p < |pool| && AllGrown(pool, pool[p := i])
    requires DistinctCores(pool[p].ts) && SameCores(pool[p].ts, i.ts) && ValidTerms(g, i.ts)
    ensures Measured(g, pool, pool[p := i], i.ts != pool[p].ts)
  {
    var qool := pool[p := i];
    GrownAsClose(g, pool, qool);
    if i.ts != pool[p].ts {
      MergedCloser(g, pool, qool, p);
    }
  }

  lemma {:induction false} InsertedGrown(pool: seq<Item>, i: Item)
    requires i.dirty
    ensures PoolGrown(pool, pool + [i])
  {
    var qool := pool + [i];
    forall q | 0 <= q < |pool|
      ensures ItemMerged(pool[q], qool[q])
    {
      GrownReflexive(pool[q].ts);
    }
  }

  lemma {:induction false} InsertedValid(g: Grammar, pool: seq<Item>, us: seq<Term>, i: Item)
    requires ValidPool(g, pool) && NewKernel(g, us) && i == Item(us, seq(g.nsy, x => None), true)
    ensures ValidPool(g, pool + [i])
  {
    var qool := pool + [i];
    GotoIsItemSet(g, us);
    forall q | 0 <= q < |qool|
      ensures ValidItem(g, qool, q)
    {
      if q < |pool| {
        assert ValidItem(g, pool, q);
      }
    }
  }

  lemma {:induction false} InsertedMeasured(g: Grammar, pool: seq<Item>, st: seq<nat>, hi: nat, us: seq<Term>, i: Item)
    requires TableOk(g, pool, st) && NewKernel(g, us) && i.ts == us
    requires IsPlace(pool, st, us, hi) && (hi < |st| ==> KernelAt(pool, st, hi) != Kernel(us))
    ensures Measured(g, pool, pool + [i], true)
  {
    GotoIsItemSet(g, us);
    forall p | 0 <= p < |pool|
      ensures KernelShape(pool[p].ts) && Kernel(pool[p].ts) != Kernel(us)
    {
      assert ValidItem(g, pool, p);
      FreshKernel(pool, st, us, hi, p);
    }
    NewKernelCloser(g, pool, i);
  }

  lemma {:induction false} InsertedMinimal(g: Grammar, info: Info, pool: seq<Item>, i: Item)
    requires ValidGrammar(g) && ValidInfo(g, info) && Dotted(i.ts)
    ensures MinimalPool(g, info, pool) ==> MinimalPool(g, info, pool + [i])
  {
    KernelMinimal(g, info, i.ts);
    if MinimalPool(g, info, pool) {
      var qool := pool + [i];
      forall q | 0 <= q < |qool|
        ensures MinimalCores(g, info, qool[q].ts)
      {
        if q < |pool| {
          assert MinimalCores(g, info, pool[q].ts);
        }
      }
    }
  }

  lemma {:induction false} InsertedWithin(sys: System, pool: seq<Item>, i: Item)
    requires PoolWithin(sys, pool) && WithinSystem(sys, i.ts)
    ensures PoolWithin(sys, pool + [i])
  {
    var qool := pool + [i];
    forall q | 0 <= q < |qool|
      ensures WithinSystem(sys, qool[q].ts)
    {
      if q < |pool| {
        assert WithinSystem(sys, pool[q].ts);
      }
    }
  }

  lemma {:induction false} BelowItself(us: seq<Term>)
    ensures Below(us, us)
  {
    forall q | 0 <= q < |us|
      ensures TermBelow(us[q], us)
    {
    }
  }

  lemma {:induction false} InsertedPool(
    g: Grammar, info: Info, pool: seq<Item>, st: seq<nat>, hi: nat, us: seq<Term>, i: Item)
    requires ValidGrammar(g) && ValidInfo(g, info) && TableOk(g, pool, st) && NewKernel(g, us)
    requires IsPlace(pool, st, us, hi) && (hi < |st| ==> KernelAt(pool, st, hi) != Kernel(us))
    requires i == Item(us, seq(g.nsy, x => None), true)
    ensures Added(g, info, pool, st, us, pool + [i], st[..hi] + [|pool|] + st[hi..], |pool|, true)
  {
    InsertedValid(g, pool, us, i);
    InsertKeepsOrder(pool, st, i, hi);
    InsertedGrown(pool, i);
    InsertedMeasured(g, pool, st, hi, us, i);
    InsertedMinimal(g, info, pool, i);
    BelowItself(us);
    forall sys | IsLalrSystem(g, info, sys) && PoolWithin(sys, pool) && WithinSystem(sys, us)
      ensures PoolWithin(sys, pool + [i])
    {
      InsertedWithin(sys, pool, i);
    }
  }

  // ---------- Steps of a visit ----------

  lemma {:induction false} MinimalMerged(g: Grammar, info: Info, pool: seq<Item>, qool: seq<Item>)
    requires ValidGrammar(g) && ValidInfo(g, info) && |pool| == |qool| && PoolGrown(pool, qool)
    ensures MinimalPool(g, info, pool) ==> MinimalPool(g, info, qool)
  {
    if MinimalPool(g, info, pool) {
      forall p | 0 <= p < |qool|
        ensures MinimalCores(g, info, qool[p].ts)
      {
        assert ItemMerged(pool[p], qool[p]) && MinimalCores(g, info, pool[p].ts);
        SameCoresMinimal(g, info, pool[p].ts, qool[p].ts);
      }
    }
  }

  lemma {:induction false} MeasuredTwice(g: Grammar, pool: seq<Item>, qool: seq<Item>, rool: seq<Item>, c: bool, d: bool)
    requires Measured(g, pool, qool, c) && Measured(g, qool, rool, d) && |pool| <= |qool| <= |rool|
    ensures Measured(g, pool, rool, c || d)
  {
  }

  lemma {:induction false} WithinTwice(g: Grammar, info: Info, pool: seq<Item>, qool: seq<Item>, rool: seq<Item>)
    requires ValidGrammar(g) && ValidInfo(g, info)
    requires WithinKept(g, info, pool, qool) && WithinKept(g, info, qool, rool)
    ensures WithinKept(g, info, pool, rool)
  {
  }

  lemma {:induction false} OthersSettledReplaced(g: Grammar, info: Info, pool: seq<Item>, qool: seq<Item>, p: nat)
    requires ValidGrammar(g) && ValidInfo(g, info) && ValidPool(g, pool) && ValidPool(g, qool)
    requires |qool| == |pool| && p < |pool| && qool == pool[p := qool[p]]
    requires AllGrown(pool, qool) && OthersSettled(g, info, pool, p)
    ensures OthersSettled(g, info, qool, p)
  {
    forall q | 0 <= q < |qool| && q != p
      ensures ValidItem(g, qool, q) && Settled(g, info, qool, q)
    {
      assert ValidItem(g, pool, q) && ValidItem(g, qool, q) && qool[q] == pool[q];
      SettledGrown(g, info, pool, qool, q);
    }
  }

  lemma {:induction false} PoolWithinReplaced(sys: System, pool: seq<Item>, p: nat, i: Item)
    requires p < |pool| && PoolWithin(sys, pool) && WithinSystem(sys, i.ts)
    ensures PoolWithin(sys, pool[p := i])
  {
    var qool := pool[p := i];
    forall q | 0 <= q < |qool|
      ensures WithinSystem(sys, qool[q].ts)
    {
      assert WithinSystem(sys, pool[q].ts);
    }
  }

  lemma {:induction false} ClosedPool(g: Grammar, info: Info, pool: seq<Item>, st: seq<nat>, p: nat, ts: seq<Term>)
    requires ValidGrammar(g) && ValidInfo(g, info) && TableOk(g, pool, st) && p < |pool|
    requires AllSettled(g, info, pool) && MinimalPool(g, info, pool)
    requires ItemSet(g, ts) && Closed(g, info, ts) && Grown(pool[p].ts, ts) && Least(g, info, pool[p].ts, ts)
    ensures var qool := pool[p := Item(ts, pool[p].gtbl, false)];
      && VisitOk(g, info, qool, st, p, 0, ts)
      && Measured(g, pool, qool, false) && WithinKept(g, info, pool, qool)
  {
    var qool := pool[p := Item(ts, pool[p].gtbl, false)];
    assert ValidItem(g, pool, p);
    ReplacedValid(g, pool, p, qool[p]);
    OrderKept(pool, qool, st);
    OthersSettledReplaced(g, info, pool, qool, p);
    GrownAsClose(g, pool, qool);
    assert MinimalCores(g, info, pool[p].ts);
    ClosureMinimal(g, info, pool[p].ts, ts);
    MinimalReplaced(g, info, pool, p, qool[p]);
    assert ValidItem(g, qool, p);
    forall sys | IsLalrSystem(g, info, sys) && PoolWithin(sys, pool)
      ensures PoolWithin(sys, qool)
    {
      assert WithinSystem(sys, pool[p].ts);
      ClosureWithin(g, info, sys, pool[p].ts, ts);
      PoolWithinReplaced(sys, pool, p, qool[p]);
    }
  }

  lemma {:induction false} GrownReflexive(ts: seq<Term>)
    ensures Grown(ts, ts)
  {
  }

  lemma {:induction false} MinimalReplaced(g: Grammar, info: Info, pool: seq<Item>, p: nat, i: Item)
    requires ValidGrammar(g) && ValidInfo(g, info) && p < |pool|
    requires MinimalPool(g, info, pool) && MinimalCores(g, info, i.ts)
    ensures MinimalPool(g, info, pool[p := i])
  {
    var qool := pool[p := i];
    forall q | 0 <= q < |qool|
      ensures MinimalCores(g, info, qool[q].ts)
    {
      assert MinimalCores(g, info, pool[q].ts);
    }
  }

  lemma {:induction false} GotoSetTable(
    g: Grammar, info: Info, pool: seq<Item>, st: seq<nat>, p: nat, x: Sym, target: Option<nat>)
    requires ValidGrammar(g) && ValidInfo(g, info) && x < g.nsy && TableOk(g, pool, st) && p < |pool|
    requires ValidItem(g, pool, p) && OthersSettled(g, info, pool, p) && MinimalPool(g, info, pool)
    requires target.Some? ==> 0 < target.value < |pool|
    ensures var qool := pool[p := pool[p].(gtbl := pool[p].gtbl[x := target])];
      && TableOk(g, qool, st) && AllGrown(pool, qool) && ValidItem(g, qool, p)
      && OthersSettled(g, info, qool, p) && MinimalPool(g, info, qool)
  {
    var i := pool[p].(gtbl := pool[p].gtbl[x := target]);
    var qool := pool[p := i];
    GrownReflexive(pool[p].ts);
    ReplacedValid(g, pool, p, i);
    OrderKept(pool, qool, st);
    OthersSettledReplaced(g, info, pool, qool, p);
    assert MinimalCores(g, info, pool[p].ts);
    MinimalReplaced(g, info, pool, p, i);
    assert ValidItem(g, qool, p);
  }

  lemma {:induction false} GotoSetStep(
    g: Grammar, info: Info, pool: seq<Item>, st: seq<nat>, p: nat, i: Item)
    requires ValidGrammar(g) && ValidInfo(g, info) && p < |pool| && AllGrown(pool, pool[p := i])
    requires i.ts == pool[p].ts && i.dirty == pool[p].dirty
    ensures VisitStep(g, info, pool, st, pool[p := i], st, p, false)
  {
    GrownAsClose(g, pool, pool[p := i]);
    forall sys | IsLalrSystem(g, info, sys) && PoolWithin(sys, pool)
      ensures PoolWithin(sys, pool[p := i])
    {
      assert WithinSystem(sys, pool[p].ts);
      PoolWithinReplaced(sys, pool, p, i);
    }
  }

  /** Setting one goto entry of state p. */
  lemma {:induction false} GotoSet(
    g: Grammar, info: Info, pool: seq<Item>, st: seq<nat>, p: nat, x: Sym, target: Option<nat>, closed: seq<Term>)
    requires ValidGrammar(g) && ValidInfo(g, info) && x < g.nsy && VisitOk(g, info, pool, st, p, x, closed)
    requires target.Some? ==> 0 < target.value < |pool|
    requires !pool[p].dirty ==>
      (&& (target.Some? <==> SomeExpects(g, pool[p].ts, x))
       && (target.Some? ==> TransitionOk(g, pool[p].ts, x, pool[target.value].ts)))
    ensures var qool := pool[p := pool[p].(gtbl := pool[p].gtbl[x := target])];
      && VisitOk(g, info, qool, st, p, x + 1, closed)
      && VisitStep(g, info, pool, st, qool, st, p, false)
  {
    var i := pool[p].(gtbl := pool[p].gtbl[x := target]);
    GotoSetTable(g, info, pool, st, p, x, target);
    GotoSetStep(g, info, pool, st, p, i);
    if !i.dirty {
      GotosSet(g, pool, p, x, target, pool[p := i]);
    }
  }

  lemma {:induction false} GotosSet(g: Grammar, pool: seq<Item>, p: nat, x: Sym, target: Option<nat>, qool: seq<Item>)
    requires p < |pool| && x < g.nsy && ValidItem(g, pool, p) && GotosOk(g, pool, p, x)
    requires target.Some? ==> target.value < |pool|
    requires qool == pool[p := pool[p].(gtbl := pool[p].gtbl[x := target])] && ValidItem(g, qool, p)
    requires target.Some? <==> SomeExpects(g, pool[p].ts, x)
    requires target.Some? ==> TransitionOk(g, pool[p].ts, x, pool[target.value].ts)
    ensures GotosOk(g, qool, p, x + 1)
  {
    forall y | 0 <= y < x + 1
      ensures GotoOk(g, qool, p, y)
    {
      if y < x {
        assert GotoOk(g, pool, p, y);
      }
    }
  }

  /** After adding the goto of state p over x to the table. */
  lemma {:induction false} GotoAdded(
    g: Grammar, info: Info, pool: seq<Item>, st: seq<nat>, p: nat, x: Sym, us: seq<Term>, closed: seq<Term>,
    qool: seq<Item>, tt: seq<nat>, ptr: nat, chg: bool)
    requires ValidGrammar(g) && ValidInfo(g, info) && x < g.nsy && VisitOk(g, info, pool, st, p, x, closed)
    requires IsGoto(g, pool[p].ts, x, us) && us != []
    requires Added(g, info, pool, st, us, qool, tt, ptr, chg)
    ensures VisitOk(g, info, qool, tt, p, x, closed)
    ensures VisitStep(g, info, pool, st, qool, tt, p, chg)
    ensures !qool[p].dirty ==> SomeExpects(g, qool[p].ts, x) && TransitionOk(g, qool[p].ts, x, qool[ptr].ts)
  {
    OthersSettledMerged(g, info, pool, qool, p);
    PoolGrownAllGrown(pool, qool);
    assert ItemMerged(pool[p], qool[p]) && ValidItem(g, qool, p) && ValidItem(g, qool, ptr);
    KernelGrown(pool[p].ts, qool[p].ts);
    if !qool[p].dirty {
      GotosOkGrown(g, pool, qool, p, x);
      GotoEmptyIff(g, pool[p].ts, x, us);
      GotoGivesTransition(g, pool[p].ts, x, us, qool[ptr].ts);
    }
    forall sys | IsLalrSystem(g, info, sys) && PoolWithin(sys, pool)
      ensures PoolWithin(sys, qool)
    {
      VisitedWithin(g, info, sys, pool[p].ts, closed, x, us, pool, p);
    }
  }

  lemma {:induction false} NoGotoVisited(
    g: Grammar, info: Info, pool: seq<Item>, st: seq<nat>, p: nat, x: Sym, us: seq<Term>, closed: seq<Term>)
    requires ValidGrammar(g) && ValidInfo(g, info) && x < g.nsy && VisitOk(g, info, pool, st, p, x, closed)
    requires IsGoto(g, pool[p].ts, x, us) && us == []
    ensures var qool := pool[p := pool[p].(gtbl := pool[p].gtbl[x := None])];
      VisitOk(g, info, qool, st, p, x + 1, closed) && VisitStep(g, info, pool, st, qool, st, p, false)
  {
    GotoEmptyIff(g, pool[p].ts, x, us);
    GotoSet(g, info, pool, st, p, x, None, closed);
  }

  lemma {:induction false} GotoVisited(
    g: Grammar, info: Info, pool: seq<Item>, st: seq<nat>, p: nat, x: Sym, us: seq<Term>, closed: seq<Term>,
    qool: seq<Item>, tt: seq<nat>, ptr: nat, chg: bool)
    requires ValidGrammar(g) && ValidInfo(g, info) && x < g.nsy && VisitOk(g, info, pool, st, p, x, closed)
    requires IsGoto(g, pool[p].ts, x, us) && us != []
    requires Added(g, info, pool, st, us, qool, tt, ptr, chg)
    ensures p < |qool| && |qool[p].gtbl| == g.nsy
    ensures var rool := qool[p := qool[p].(gtbl := qool[p].gtbl[x := Some(ptr)])];
      VisitOk(g, info, rool, tt, p, x + 1, closed) && VisitStep(g, info, pool, st, rool, tt, p, chg)
  {
    GotoAdded(g, info, pool, st, p, x, us, closed, qool, tt, ptr, chg);
    GotoSet(g, info, qool, tt, p, x, Some(ptr), closed);
    var rool := qool[p := qool[p].(gtbl := qool[p].gtbl[x := Some(ptr)])];
    VisitStepTwice(g, info, pool, st, qool, tt, rool, tt, p, chg, false);
  }

  lemma {:induction false} SameVisitStep(g: Grammar, info: Info, pool: seq<Item>, st: seq<nat>, p: nat)
    requires ValidGrammar(g) && ValidInfo(g, info) && p < |pool|
    ensures VisitStep(g, info, pool, st, pool, st, p, false)
  {
  }

  lemma {:induction false} VisitStepTwice(
    g: Grammar, info: Info, pool: seq<Item>, st: seq<nat>, qool: seq<Item>, tt: seq<nat>,
    rool: seq<Item>, uu: seq<nat>, p: nat, c: bool, d: bool)
    requires ValidGrammar(g) && ValidInfo(g, info)
    requires VisitStep(g, info, pool, st, qool, tt, p, c) && VisitStep(g, info, qool, tt, rool, uu, p, d)
    ensures VisitStep(g, info, pool, st, rool, uu, p, c || d)
  {
    MeasuredTwice(g, pool, qool, rool, c, d);
    WithinTwice(g, info, pool, qool, rool);
  }

  lemma {:induction false} VisitDone(
    g: Grammar, info: Info, pool: seq<Item>, st: seq<nat>, qool: seq<Item>,
    rool: seq<Item>, uu: seq<nat>, p: nat, closed: seq<Term>, chg: bool)
    requires ValidGrammar(g) && ValidInfo(g, info) && p < |pool|
    requires qool == pool[p := Item(closed, pool[p].gtbl, false)]
    requires Measured(g, pool, qool, false) && WithinKept(g, info, pool, qool)
    requires VisitOk(g, info, rool, uu, p, g.nsy, closed)
    requires VisitStep(g, info, qool, st, rool, uu, p, chg)
    ensures AllSettled(g, info, rool) && Visited(g, info, pool, st, rool, uu, p, chg)
  {
    AllSettledAgain(g, info, rool, p);
    MeasuredTwice(g, pool, qool, rool, false, chg);
    WithinTwice(g, info, pool, qool, rool);
  }

  lemma {:induction false} VisitedWithin(
    g: Grammar, info: Info, sys: System, ts: seq<Term>, closed: seq<Term>, x: Sym, us: seq<Term>, pool: seq<Item>, p: nat)
    requires ValidGrammar(g) && ValidInfo(g, info) && IsLalrSystem(g, info, sys)
    requires p < |pool| && PoolWithin(sys, pool) && ts == pool[p].ts
    requires ItemSet(g, closed) && Closed(g, info, closed) && SameCores(closed, ts) && Kernel(closed) == Kernel(ts)
    requires IsGoto(g, ts, x, us) && us != []
    ensures WithinSystem(sys, us)
  {
    assert WithinSystem(sys, ts) && SystemEntry(g, info, sys, Kernel(ts));
    assert CoresWithin(sys[Kernel(ts)], closed);
    CoresWithinTransitive(sys[Kernel(ts)], closed, ts);
    GotoWithin(g, info, sys, ts, x, us);
  }

  lemma {:induction false} AllSettledAgain(g: Grammar, info: Info, pool: seq<Item>, p: nat)
    requires ValidGrammar(g) && ValidInfo(g, info) && ValidPool(g, pool) && p < |pool| && ValidItem(g, pool, p)
    requires OthersSettled(g, info, pool, p) && Settled(g, info, pool, p)
    ensures AllSettled(g, info, pool)
  {
    forall q | 0 <= q < |pool|
      ensures ValidItem(g, pool, q) && Settled(g, info, pool, q)
    {
      assert ValidItem(g, pool, q);
    }
  }

  // ---------- Passes ----------

  /** The first n states of the table are clean. */
  predicate CleanUpTo(pool: seq<Item>, st: seq<nat>, n: nat)
    requires n <= |st| && forall i :: 0 <= i < |st| ==> st[i] < |pool|
  {
    forall i :: 0 <= i < n ==> !pool[st[i]].dirty
  }

  lemma {:induction false} AllClean(pool: seq<Item>, st: seq<nat>)
    requires ValidOrder(pool, st) && CleanUpTo(pool, st, |st|)
    ensures forall p :: 0 <= p < |pool| ==> !pool[p].dirty
  {
    forall p | 0 <= p < |pool|
      ensures !pool[p].dirty
    {
      assert p in st;
      var i :| 0 <= i < |st| && st[i] == p;
    }
  }

  /** State p is closed and has all of its gotos. */
  ghost predicate FinishedItem(g: Grammar, info: Info, pool: seq<Item>, p: nat)
    requires ValidGrammar(g) && ValidInfo(g, info) && p < |pool|
  {
    ValidItem(g, pool, p) && Closed(g, info, pool[p].ts) && GotosOk(g, pool, p, g.nsy)
      && MinimalCores(g, info, pool[p].ts)
  }

  ghost predicate FinishedTable(g: Grammar, info: Info, pool: seq<Item>)
    requires ValidGrammar(g) && ValidInfo(g, info)
  {
    forall p :: 0 <= p < |pool| ==> FinishedItem(g, info, pool, p)
  }

  lemma {:induction false} Finish(g: Grammar, info: Info, pool: seq<Item>)
    requires ValidGrammar(g) && ValidInfo(g, info) && ValidPool(g, pool)
    requires AllSettled(g, info, pool) && MinimalPool(g, info, pool)
    requires forall p :: 0 <= p < |pool| ==> !pool[p].dirty
    ensures FinishedTable(g, info, pool)
  {
    forall p | 0 <= p < |pool|
      ensures FinishedItem(g, info, pool, p)
    {
      assert ValidItem(g, pool, p) && Settled(g, info, pool, p) && MinimalCores(g, info, pool[p].ts);
    }
  }

  lemma {:induction false} StartTable(g: Grammar, info: Info, pool: seq<Item>, st: seq<nat>)
    requires ValidGrammar(g) && ValidInfo(g, info)
    requires pool == [Item([Term(0, 0, {0})], seq(g.nsy, x => None), true)] && st == [0]
    ensures TableOk(g, pool, st) && AllSettled(g, info, pool) && MinimalPool(g, info, pool)
    ensures forall sys :: IsLalrSystem(g, info, sys) ==> PoolWithin(sys, pool)
  {
    StartIsItemSet(g);
    StartMinimal(g, info);
    assert ValidItem(g, pool, 0);
    forall sys | IsLalrSystem(g, info, sys)
      ensures PoolWithin(sys, pool)
    {
      assert Kernel(pool[0].ts) == [];
      assert Below(pool[0].ts, sys[[]]);
    }
  }
}
