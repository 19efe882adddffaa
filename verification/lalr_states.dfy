/**
  The set of states: found by kernel with binary search, grown by insertion,
  and revisited until every goto and every lookahead has settled.
*/
module LalrStates {
  import opened Options
  import opened Grammars
  import opened FirstSets
  import opened Automata
  import opened LalrItems
  import opened LalrClosure

  /** A state under construction.  States refer to one another by their place in
      the order of creation. */
  datatype Item = Item(ts: seq<Term>, gtbl: seq<Option<nat>>, dirty: bool)

  // ---------- Gotos ----------

  function Advance(t: Term): Term { t.(dot := t.dot + 1) }

  /** us is what ts becomes by moving over x. */
  ghost predicate IsGoto(g: Grammar, ts: seq<Term>, x: Sym, us: seq<Term>) {
    && ValidTerms(g, us) && Sorted(us)
    && (forall j :: 0 <= j < |us| ==> us[j].dot > 0 && MovedFrom(g, ts, x, us[j]))
    && (forall i :: 0 <= i < |ts| && Expects(g, ts[i], x) ==> Advance(ts[i]) in us)
  }

  ghost predicate MovedFrom(g: Grammar, ts: seq<Term>, x: Sym, u: Term) {
    exists i :: 0 <= i < |ts| && Expects(g, ts[i], x) && Advance(ts[i]) == u
  }

  method InsertTerm(us: seq<Term>, t: Term) returns (vs: seq<Term>)
    requires Sorted(us) && forall u :: u in us ==> CoreOf(u) != CoreOf(t)
    ensures Sorted(vs) && forall u :: u in vs <==> u in us || u == t
  {
    var i := |us|;
    while i > 0 && Tcmp(us[i - 1], t) > 0
      invariant 0 <= i <= |us|
      invariant forall j :: i <= j < |us| ==> CoreLess(CoreOf(t), CoreOf(us[j]))
    {
      i := i - 1;
    }
    if i > 0 {
      assert us[i - 1] in us;
    }
    InsertedSorted(us, i, t);
    InsertedMembers(us, i, t);
    vs := us[..i] + [t] + us[i..];
  }

  lemma {:induction false} InsertedSorted(us: seq<Term>, i: nat, t: Term)
    requires Sorted(us) && i <= |us|
    requires i > 0 ==> CoreLess(CoreOf(us[i - 1]), CoreOf(t))
    requires forall j :: i <= j < |us| ==> CoreLess(CoreOf(t), CoreOf(us[j]))
    ensures Sorted(us[..i] + [t] + us[i..])
  {
    var vs := us[..i] + [t] + us[i..];
    forall j, k | 0 <= j < k < |vs|
      ensures CoreLess(CoreOf(vs[j]), CoreOf(vs[k]))
    {
      var a, b := if j < i then us[j] else if j == i then t else us[j - 1],
                  if k < i then us[k] else if k == i then t else us[k - 1];
      assert vs[j] == a && vs[k] == b;
      if j < i && k == i && j < i - 1 {
        assert CoreLess(CoreOf(us[j]), CoreOf(us[i - 1]));
      }
    }
  }

  lemma {:induction false} InsertedMembers(us: seq<Term>, i: nat, t: Term)
    requires i <= |us|
    ensures forall u :: u in us[..i] + [t] + us[i..] <==> u in us || u == t
  {
    assert us == us[..i] + us[i..];
  }

  /** Move the terms that expect x over it and sort them. */
  method Igoto(g: Grammar, ts: seq<Term>, x: Sym) returns (us: seq<Term>)
    requires ValidTerms(g, ts) && DistinctCores(ts)
    ensures IsGoto(g, ts, x, us)
  {
    us := [];
    var n := 0;
    while n < |ts|
      invariant 0 <= n <= |ts| && Sorted(us)
      invariant forall u :: u in us ==> exists i :: 0 <= i < n && Expects(g, ts[i], x) && Advance(ts[i]) == u
      invariant forall i :: 0 <= i < n && Expects(g, ts[i], x) ==> Advance(ts[i]) in us
    {
      if Expects(g, ts[n], x) {
        us := InsertTerm(us, Advance(ts[n]));
      }
      n := n + 1;
    }
    forall j | 0 <= j < |us|
      ensures us[j].dot > 0 && MovedFrom(g, ts, x, us[j]) && ValidTerm(g, us[j])
    {
      assert us[j] in us;
      var i :| 0 <= i < n && Expects(g, ts[i], x) && Advance(ts[i]) == us[j];
      assert ValidTerm(g, ts[i]);
    }
  }

  // ---------- Kernels of gotos ----------

  predicate Dotted(us: seq<Term>) { forall j :: 0 <= j < |us| ==> us[j].dot > 0 }

  lemma {:induction false} KernelOfDotted(us: seq<Term>)
    requires Dotted(us)
    ensures |Kernel(us)| == |us| && forall j :: 0 <= j < |us| ==> Kernel(us)[j] == CoreOf(us[j])
  {
    if us != [] {
      KernelOfDotted(us[1..]);
    }
  }

  /** A state with the kernel of us starts with the cores of us. */
  lemma {:induction false} KernelPrefix(ts: seq<Term>, us: seq<Term>)
    requires Dotted(us) && Kernel(ts) == Kernel(us)
    ensures |us| <= |ts| && forall j :: 0 <= j < |us| ==> CoreOf(ts[j]) == CoreOf(us[j])
    ensures |us| < |ts| ==> ts[|us|].dot == 0
  {
    KernelOfDotted(us);
    if us != [] {
      assert ts != [] && ts[0].dot != 0;
      assert Kernel(ts)[1..] == Kernel(ts[1..]) && Kernel(us)[1..] == Kernel(us[1..]);
      assert Kernel(ts)[0] == Kernel(us)[0];
      KernelPrefix(ts[1..], us[1..]);
    }
  }

  /** A sorted list of moved terms is an item set by itself. */
  lemma {:induction false} GotoIsItemSet(g: Grammar, us: seq<Term>)
    requires ValidGrammar(g) && ValidTerms(g, us) && Sorted(us) && Dotted(us) && |us| > 0
    ensures ItemSet(g, us)
  {
    assert us[..|us|] == us;
    assert KernelFirst(us, |us|);
  }

  lemma {:induction false} StartIsItemSet(g: Grammar)
    requires ValidGrammar(g)
    ensures ItemSet(g, [Term(0, 0, {0})])
  {
    var ts := [Term(0, 0, {0})];
    assert KernelFirst(ts, 0);
  }

  // ---------- Invariants of the state table ----------

  /** The initial state is the first made, and the only one without a kernel. */
  ghost predicate ValidItem(g: Grammar, pool: seq<Item>, p: nat)
    requires p < |pool|
  {
    var i := pool[p];
    && ItemSet(g, i.ts) && |i.gtbl| == g.nsy
    && (forall x :: 0 <= x < g.nsy && i.gtbl[x].Some? ==> 0 < i.gtbl[x].value < |pool|)
    && (p == 0 <==> i.ts[0].dot == 0)
    && (p == 0 ==> 0 in i.ts[0].lk)
  }

  ghost predicate ValidPool(g: Grammar, pool: seq<Item>) {
    |pool| > 0 && forall p :: 0 <= p < |pool| ==> ValidItem(g, pool, p)
  }

  function KernelAt(pool: seq<Item>, st: seq<nat>, i: nat): seq<Core>
    requires i < |st| && st[i] < |pool|
  {
    Kernel(pool[st[i]].ts)
  }

  /** st lists all states, strictly ordered by kernel. */
  predicate ValidOrder(pool: seq<Item>, st: seq<nat>) {
    && |st| == |pool|
    && (forall i :: 0 <= i < |st| ==> st[i] < |pool|)
    && (forall i, j :: 0 <= i < j < |st| ==> KernelLess(KernelAt(pool, st, i), KernelAt(pool, st, j)))
    && (forall p :: 0 <= p < |pool| ==> p in st)
  }

  /** The state reached over x has exactly the moved terms as its kernel, with
      lookaheads that include the moved ones'. */
  ghost predicate TransitionOk(g: Grammar, ts: seq<Term>, x: Sym, us: seq<Term>) {
    && (forall i :: 0 <= i < |ts| && Expects(g, ts[i], x) ==> TermBelow(Advance(ts[i]), us))
    && (forall j :: 0 <= j < |us| && us[j].dot > 0 ==> CoreMovedFrom(g, ts, x, us[j]))
  }

  ghost predicate CoreMovedFrom(g: Grammar, ts: seq<Term>, x: Sym, u: Term) {
    exists i :: 0 <= i < |ts| && Expects(g, ts[i], x) && CoreOf(Advance(ts[i])) == CoreOf(u)
  }

  ghost predicate GotoOk(g: Grammar, pool: seq<Item>, p: nat, x: Sym)
    requires p < |pool| && x < |pool[p].gtbl|
    requires pool[p].gtbl[x].Some? ==> pool[p].gtbl[x].value < |pool|
  {
    var i := pool[p];
    && (i.gtbl[x].Some? <==> SomeExpects(g, i.ts, x))
    && (i.gtbl[x].Some? ==> TransitionOk(g, i.ts, x, pool[i.gtbl[x].value].ts))
  }

  /** The gotos of state p over the first n symbols are in place. */
  ghost predicate GotosOk(g: Grammar, pool: seq<Item>, p: nat, n: nat)
    requires p < |pool| && ValidItem(g, pool, p) && n <= g.nsy
  {
    forall x :: 0 <= x < n ==> GotoOk(g, pool, p, x)
  }

  /** A state that is not marked dirty is closed, with all gotos in place. */
  ghost predicate Settled(g: Grammar, info: Info, pool: seq<Item>, p: nat)
    requires ValidGrammar(g) && ValidInfo(g, info) && p < |pool| && ValidItem(g, pool, p)
  {
    !pool[p].dirty ==> Closed(g, info, pool[p].ts) && GotosOk(g, pool, p, g.nsy)
  }

  // ---------- How the table changes ----------

  /** A state got more lookaheads, and is dirty if it did. */
  predicate ItemMerged(i: Item, j: Item) {
    && j.gtbl == i.gtbl && SameCores(i.ts, j.ts) && Grown(i.ts, j.ts)
    && (i.dirty ==> j.dirty) && (j.ts != i.ts ==> j.dirty)
  }

  predicate PoolGrown(pool: seq<Item>, qool: seq<Item>) {
    && |pool| <= |qool|
    && (forall p :: 0 <= p < |pool| ==> ItemMerged(pool[p], qool[p]))
    && (forall p :: |pool| <= p < |qool| ==> qool[p].dirty)
  }

  lemma {:induction false} TermBelowGrown(t: Term, us: seq<Term>, vs: seq<Term>)
    requires TermBelow(t, us) && Grown(us, vs)
    ensures TermBelow(t, vs)
  {
    var j :| 0 <= j < |us| && CoreOf(us[j]) == CoreOf(t) && t.lk <= us[j].lk;
    assert CoreOf(vs[j]) == CoreOf(t);
  }

  lemma {:induction false} TransitionGrown(g: Grammar, ts: seq<Term>, x: Sym, us: seq<Term>, vs: seq<Term>)
    requires TransitionOk(g, ts, x, us) && Grown(us, vs)
    ensures TransitionOk(g, ts, x, vs)
  {
    forall i | 0 <= i < |ts| && Expects(g, ts[i], x)
      ensures TermBelow(Advance(ts[i]), vs)
    {
      TermBelowGrown(Advance(ts[i]), us, vs);
    }
    forall j | 0 <= j < |vs| && vs[j].dot > 0
      ensures CoreMovedFrom(g, ts, x, vs[j])
    {
      assert j < |us| && CoreOf(vs[j]) == CoreOf(us[j]);
      assert CoreMovedFrom(g, ts, x, us[j]);
    }
  }

  predicate AllGrown(pool: seq<Item>, qool: seq<Item>) {
    |pool| <= |qool| && forall p :: 0 <= p < |pool| ==> Grown(pool[p].ts, qool[p].ts)
  }

  lemma {:induction false} PoolGrownAllGrown(pool: seq<Item>, qool: seq<Item>)
    requires PoolGrown(pool, qool)
    ensures AllGrown(pool, qool)
  {
    forall p | 0 <= p < |pool|
      ensures Grown(pool[p].ts, qool[p].ts)
    {
      assert ItemMerged(pool[p], qool[p]);
    }
  }

  /** A state's gotos stay in place while other states grow. */
  lemma {:induction false} GotosOkGrown(g: Grammar, pool: seq<Item>, qool: seq<Item>, p: nat, n: nat)
    requires p < |pool| && AllGrown(pool, qool) && n <= g.nsy
    requires ValidItem(g, pool, p) && ValidItem(g, qool, p)
    requires qool[p].ts == pool[p].ts && qool[p].gtbl == pool[p].gtbl && GotosOk(g, pool, p, n)
    ensures GotosOk(g, qool, p, n)
  {
    forall x | 0 <= x < n
      ensures GotoOk(g, qool, p, x)
    {
      assert GotoOk(g, pool, p, x);
      if pool[p].gtbl[x].Some? {
        var t := pool[p].gtbl[x].value;
        assert Grown(pool[t].ts, qool[t].ts);
        TransitionGrown(g, pool[p].ts, x, pool[t].ts, qool[t].ts);
      }
    }
  }

  /** Unless it is marked dirty, an unchanged state stays settled. */
  lemma {:induction false} SettledGrown(g: Grammar, info: Info, pool: seq<Item>, qool: seq<Item>, p: nat)
    requires ValidGrammar(g) && ValidInfo(g, info) && p < |pool| && AllGrown(pool, qool)
    requires ValidItem(g, pool, p) && ValidItem(g, qool, p) && Settled(g, info, pool, p)
    requires !qool[p].dirty ==>
      !pool[p].dirty && qool[p].ts == pool[p].ts && qool[p].gtbl == pool[p].gtbl
    ensures Settled(g, info, qool, p)
  {
    if !qool[p].dirty {
      GotosOkGrown(g, pool, qool, p, g.nsy);
    }
  }

  /** All states but one are settled. */
  ghost predicate OthersSettled(g: Grammar, info: Info, pool: seq<Item>, p: nat)
    requires ValidGrammar(g) && ValidInfo(g, info) && ValidPool(g, pool)
  {
    forall q :: 0 <= q < |pool| && q != p ==> ValidItem(g, pool, q) && Settled(g, info, pool, q)
  }

  lemma {:induction false} OthersSettledMerged(g: Grammar, info: Info, pool: seq<Item>, qool: seq<Item>, p: nat)
    requires ValidGrammar(g) && ValidInfo(g, info) && ValidPool(g, pool) && ValidPool(g, qool)
    requires PoolGrown(pool, qool) && OthersSettled(g, info, pool, p)
    ensures OthersSettled(g, info, qool, p)
  {
    PoolGrownAllGrown(pool, qool);
    forall q | 0 <= q < |qool| && q != p
      ensures ValidItem(g, qool, q) && Settled(g, info, qool, q)
    {
      assert ValidItem(g, qool, q);
      if q < |pool| {
        assert ItemMerged(pool[q], qool[q]) && ValidItem(g, pool, q);
        SettledGrown(g, info, pool, qool, q);
      }
    }
  }

  // ---------- Termination measures ----------

  predicate SortedCores(k: seq<Core>) {
    forall i, j :: 0 <= i < j < |k| ==> CoreLess(k[i], k[j])
  }

  lemma {:induction false} KernelIsPrefix(ts: seq<Term>)
    ensures |Kernel(ts)| <= |ts|
    ensures forall i :: 0 <= i < |Kernel(ts)| ==> Kernel(ts)[i] == CoreOf(ts[i]) && ts[i].dot > 0
    ensures |Kernel(ts)| < |ts| ==> ts[|Kernel(ts)|].dot == 0
  {
    if ts != [] && ts[0].dot != 0 {
      KernelIsPrefix(ts[1..]);
    }
  }

  lemma {:induction false} KernelSorted(ts: seq<Term>)
    requires KernelShape(ts)
    ensures SortedCores(Kernel(ts))
    ensures forall i :: |Kernel(ts)| <= i < |ts| ==> ts[i].dot == 0
  {
    var k: nat :| KernelFirst(ts, k);
    KernelIsPrefix(ts);
    var n := |Kernel(ts)|;
    assert n < |ts| ==> ts[n].dot == 0;
    assert k < |ts| ==> ts[k].dot == 0;
    assert n == k;
    forall i, j | 0 <= i < j < k
      ensures CoreLess(Kernel(ts)[i], Kernel(ts)[j])
    {
      assert CoreLess(CoreOf(ts[..k][i]), CoreOf(ts[..k][j]));
    }
  }

  lemma {:induction false} SortedCoresEqual(a: seq<Core>, b: seq<Core>)
    requires SortedCores(a) && SortedCores(b)
    requires forall c :: c in a <==> c in b
    ensures a == b
  {
    assert a != [] ==> a[0] in a;
    assert b != [] ==> b[0] in b;
    if a != [] && b != [] {
      assert a[0] == b[0];
      forall c | c in a[1..]
        ensures c in b[1..]
      {
        var i :| 0 <= i < |a[1..]| && a[1..][i] == c;
        assert a[i + 1] == c && CoreLess(a[0], a[i + 1]);
        assert c in a;
        var j :| 0 <= j < |b| && b[j] == c;
        assert b[1..][j - 1] == c;
      }
      forall c | c in b[1..]
        ensures c in a[1..]
      {
        var i :| 0 <= i < |b[1..]| && b[1..][i] == c;
        assert b[i + 1] == c && CoreLess(b[0], b[i + 1]);
        assert c in b;
        var j :| 0 <= j < |a| && a[j] == c;
        assert a[1..][j - 1] == c;
      }
      SortedCoresEqual(a[1..], b[1..]);
      assert a == [a[0]] + a[1..] && b == [b[0]] + b[1..];
    }
  }

  function CoreSet(k: seq<Core>): set<Core> { set c | c in k }

  function AllCores(g: Grammar): set<Core> {
    set r: nat, d: nat | r < |g.rules| && d <= |g.rules[r].rhs| :: (r, d)
  }

  function UsedKernels(pool: seq<Item>): set<set<Core>> {
    set p: nat | p < |pool| :: CoreSet(Kernel(pool[p].ts))
  }

  /** Kernels no state has yet. */
  function FreeKernels(g: Grammar, pool: seq<Item>): set<set<Core>> {
    (set k | k <= AllCores(g)) - UsedKernels(pool)
  }

  /** Lookaheads missing anywhere. */
  function MissingAnywhere(g: Grammar, pool: seq<Item>): set<(nat, (Core, Sym))> {
    set p: nat, m | p < |pool| && m in MissingLookaheads(g, pool[p].ts) :: (p, m)
  }

  /** qool has fewer free kernels than pool, or the same and fewer missing lookaheads. */
  predicate Closer(g: Grammar, pool: seq<Item>, qool: seq<Item>) {
    || FreeKernels(g, qool) < FreeKernels(g, pool)
    || (FreeKernels(g, qool) == FreeKernels(g, pool) && MissingAnywhere(g, qool) < MissingAnywhere(g, pool))
  }

  predicate AsClose(g: Grammar, pool: seq<Item>, qool: seq<Item>) {
    || FreeKernels(g, qool) < FreeKernels(g, pool)
    || (FreeKernels(g, qool) == FreeKernels(g, pool) && MissingAnywhere(g, qool) <= MissingAnywhere(g, pool))
  }

  lemma {:induction false} SameKernelsUsed(pool: seq<Item>, qool: seq<Item>)
    requires |pool| == |qool| && AllGrown(pool, qool)
    ensures UsedKernels(pool) == UsedKernels(qool)
  {
    forall p | 0 <= p < |pool|
      ensures Kernel(pool[p].ts) == Kernel(qool[p].ts)
    {
      assert Grown(pool[p].ts, qool[p].ts);
      KernelGrown(pool[p].ts, qool[p].ts);
    }
    forall k
      ensures k in UsedKernels(pool) <==> k in UsedKernels(qool)
    {
      if k in UsedKernels(pool) {
        var p: nat :| p < |pool| && k == CoreSet(Kernel(pool[p].ts));
        assert k == CoreSet(Kernel(qool[p].ts));
      }
      if k in UsedKernels(qool) {
        var p: nat :| p < |qool| && k == CoreSet(Kernel(qool[p].ts));
        assert k == CoreSet(Kernel(pool[p].ts));
      }
    }
  }

  lemma {:induction false} GrownAsClose(g: Grammar, pool: seq<Item>, qool: seq<Item>)
    requires |pool| == |qool| && AllGrown(pool, qool)
    ensures AsClose(g, pool, qool) && FreeKernels(g, qool) == FreeKernels(g, pool)
  {
    SameKernelsUsed(pool, qool);
    forall p: nat, m | p < |qool| && m in MissingLookaheads(g, qool[p].ts)
      ensures m in MissingLookaheads(g, pool[p].ts)
    {
      assert Grown(pool[p].ts, qool[p].ts);
      GrownMissesLess(g, pool[p].ts, qool[p].ts);
    }
  }

  lemma {:induction false} MergedCloser(g: Grammar, pool: seq<Item>, qool: seq<Item>, p: nat)
    requires |pool| == |qool| && AllGrown(pool, qool) && p < |pool|
    requires DistinctCores(pool[p].ts) && SameCores(pool[p].ts, qool[p].ts) && ValidTerms(g, qool[p].ts)
    requires qool[p].ts != pool[p].ts
    ensures Closer(g, pool, qool) && FreeKernels(g, qool) == FreeKernels(g, pool)
  {
    GrownAsClose(g, pool, qool);
    ChangeAddsLookahead(g, pool[p].ts, qool[p].ts);
    var m :| m in MissingLookaheads(g, pool[p].ts) && m !in MissingLookaheads(g, qool[p].ts);
    assert (p, m) in MissingAnywhere(g, pool) && (p, m) !in MissingAnywhere(g, qool);
  }

  lemma {:induction false} NewKernelCloser(g: Grammar, pool: seq<Item>, i: Item)
    requires forall p :: 0 <= p < |pool| ==> KernelShape(pool[p].ts)
    requires KernelShape(i.ts) && ValidTerms(g, i.ts)
    requires forall p :: 0 <= p < |pool| ==> Kernel(pool[p].ts) != Kernel(i.ts)
    ensures FreeKernels(g, pool + [i]) < FreeKernels(g, pool)
  {
    var qool := pool + [i];
    var k := CoreSet(Kernel(i.ts));
    forall c | c in k
      ensures c in AllCores(g)
    {
      KernelIsPrefix(i.ts);
      var j :| 0 <= j < |Kernel(i.ts)| && Kernel(i.ts)[j] == c;
      assert ValidTerm(g, i.ts[j]) && CoreOf(i.ts[j]) == c;
    }
    assert k in (set x | x <= AllCores(g));
    if k in UsedKernels(pool) {
      var p: nat :| p < |pool| && k == CoreSet(Kernel(pool[p].ts));
      KernelSorted(pool[p].ts);
      KernelSorted(i.ts);
      forall c
        ensures c in Kernel(pool[p].ts) <==> c in Kernel(i.ts)
      {
        assert c in CoreSet(Kernel(pool[p].ts)) <==> c in CoreSet(Kernel(i.ts));
      }
      SortedCoresEqual(Kernel(pool[p].ts), Kernel(i.ts));
    }
    assert qool[|pool|] == i && k in UsedKernels(qool);
    assert forall x :: x in UsedKernels(pool) ==> x in UsedKernels(qool) by {
      forall x | x in UsedKernels(pool)
        ensures x in UsedKernels(qool)
      {
        var p: nat :| p < |pool| && x == CoreSet(Kernel(pool[p].ts));
        assert qool[p] == pool[p];
      }
    }
    assert k in FreeKernels(g, pool) && k !in FreeKernels(g, qool);
  }

  // ---------- Leastness ----------

  /** A table of item sets by kernel that is closed under closure and goto,
      contains the start, and has no more cores than closure forces. */
  type System = map<seq<Core>, seq<Term>>

  ghost predicate IsLalrSystem(g: Grammar, info: Info, sys: System)
    requires ValidGrammar(g) && ValidInfo(g, info)
  {
    && [] in sys && TermBelow(Term(0, 0, {0}), sys[[]])
    && (forall k :: k in sys ==> SystemEntry(g, info, sys, k))
  }

  ghost predicate SystemEntry(g: Grammar, info: Info, sys: System, k: seq<Core>)
    requires ValidGrammar(g) && ValidInfo(g, info) && k in sys
  {
    && ValidTerms(g, sys[k]) && DistinctCores(sys[k]) && Closed(g, info, sys[k])
    && (forall us :: ItemSet(g, us) && Kernel(us) == k && Closed(g, info, us) ==> CoresWithin(sys[k], us))
    && (forall x, us :: Sorted(us) && Dotted(us) && us != [] && CoresMoved(g, sys[k], x, us) ==>
          Kernel(us) in sys && MovedBelow(g, sys[k], x, sys[Kernel(us)]))
  }

  predicate CoresWithin(ts: seq<Term>, us: seq<Term>) {
    forall i :: 0 <= i < |ts| ==> HasCore(us, CoreOf(ts[i]))
  }

  predicate HasCore(us: seq<Term>, c: Core) {
    exists j :: 0 <= j < |us| && CoreOf(us[j]) == c
  }

  /** us has exactly the cores of ts's terms moved over x. */
  ghost predicate CoresMoved(g: Grammar, ts: seq<Term>, x: Sym, us: seq<Term>) {
    && (forall i :: 0 <= i < |ts| && Expects(g, ts[i], x) ==> HasCore(us, CoreOf(Advance(ts[i]))))
    && (forall j :: 0 <= j < |us| ==> CoreMovedFrom(g, ts, x, us[j]))
  }

  ghost predicate MovedBelow(g: Grammar, ts: seq<Term>, x: Sym, us: seq<Term>) {
    forall i :: 0 <= i < |ts| && Expects(g, ts[i], x) ==> TermBelow(Advance(ts[i]), us)
  }

  ghost predicate WithinSystem(sys: System, ts: seq<Term>) {
    Kernel(ts) in sys && Below(ts, sys[Kernel(ts)])
  }

  ghost predicate PoolWithin(sys: System, pool: seq<Item>) {
    forall p :: 0 <= p < |pool| ==> WithinSystem(sys, pool[p].ts)
  }

  /** The closure of a state within a system is within it. */
  lemma {:induction false} ClosureWithin(g: Grammar, info: Info, sys: System, ts0: seq<Term>, ts: seq<Term>)
    requires ValidGrammar(g) && ValidInfo(g, info) && IsLalrSystem(g, info, sys)
    requires WithinSystem(sys, ts0) && Grown(ts0, ts) && Least(g, info, ts0, ts)
    ensures WithinSystem(sys, ts)
  {
    KernelGrown(ts0, ts);
    assert SystemEntry(g, info, sys, Kernel(ts0));
    assert IsReference(g, info, ts0, sys[Kernel(ts0)]);
  }

  lemma {:induction false} MovedCoreFound(g: Grammar, ts: seq<Term>, x: Sym, us: seq<Term>, ref: seq<Term>, i: nat)
    requires IsGoto(g, ts, x, us) && CoresWithin(ref, ts) && i < |ref| && Expects(g, ref[i], x)
    ensures HasCore(us, CoreOf(Advance(ref[i])))
  {
    assert HasCore(ts, CoreOf(ref[i]));
    var k :| 0 <= k < |ts| && CoreOf(ts[k]) == CoreOf(ref[i]);
    assert Advance(ts[k]) in us;
    var j :| 0 <= j < |us| && us[j] == Advance(ts[k]);
  }

  lemma {:induction false} MovedCoreBack(g: Grammar, ts: seq<Term>, x: Sym, u: Term, ref: seq<Term>)
    requires MovedFrom(g, ts, x, u) && Below(ts, ref)
    ensures CoreMovedFrom(g, ref, x, u)
  {
    var k :| 0 <= k < |ts| && Expects(g, ts[k], x) && Advance(ts[k]) == u;
    assert TermBelow(ts[k], ref);
    var i :| 0 <= i < |ref| && CoreOf(ref[i]) == CoreOf(ts[k]);
    assert Expects(g, ref[i], x) && CoreOf(Advance(ref[i])) == CoreOf(u);
  }

  /** Item sets with the same cores have gotos with the same cores. */
  lemma {:induction false} CoresMovedAlike(g: Grammar, ts: seq<Term>, x: Sym, us: seq<Term>, ref: seq<Term>)
    requires IsGoto(g, ts, x, us) && CoresWithin(ref, ts) && Below(ts, ref)
    ensures CoresMoved(g, ref, x, us)
  {
    forall i | 0 <= i < |ref| && Expects(g, ref[i], x)
      ensures HasCore(us, CoreOf(Advance(ref[i])))
    {
      MovedCoreFound(g, ts, x, us, ref, i);
    }
    forall j | 0 <= j < |us|
      ensures CoreMovedFrom(g, ref, x, us[j])
    {
      MovedCoreBack(g, ts, x, us[j], ref);
    }
  }

  /** The goto of a state within a system, its cores no more than the system's
      need, is within it. */
  lemma {:induction false} GotoWithin(g: Grammar, info: Info, sys: System, ts: seq<Term>, x: Sym, us: seq<Term>)
    requires ValidGrammar(g) && ValidInfo(g, info) && IsLalrSystem(g, info, sys)
    requires WithinSystem(sys, ts) && CoresWithin(sys[Kernel(ts)], ts)
    requires IsGoto(g, ts, x, us) && us != []
    ensures WithinSystem(sys, us)
  {
    var k := Kernel(ts);
    EntryFollows(g, info, sys, k, ts, x, us);
    forall j | 0 <= j < |us|
      ensures TermBelow(us[j], sys[Kernel(us)])
    {
      MovedTermWithin(g, ts, x, us[j], sys[k], sys[Kernel(us)]);
    }
  }

  lemma {:induction false} EntryFollows(g: Grammar, info: Info, sys: System, k: seq<Core>, ts: seq<Term>, x: Sym, us: seq<Term>)
    requires ValidGrammar(g) && ValidInfo(g, info) && k in sys && SystemEntry(g, info, sys, k)
    requires Below(ts, sys[k]) && CoresWithin(sys[k], ts)
    requires IsGoto(g, ts, x, us) && us != []
    ensures Kernel(us) in sys && MovedBelow(g, sys[k], x, sys[Kernel(us)])
  {
    CoresMovedAlike(g, ts, x, us, sys[k]);
    assert Dotted(us);
  }

  lemma {:induction false} MovedTermWithin(g: Grammar, ts: seq<Term>, x: Sym, u: Term, ref: seq<Term>, target: seq<Term>)
    requires MovedFrom(g, ts, x, u) && Below(ts, ref) && MovedBelow(g, ref, x, target)
    ensures TermBelow(u, target)
  {
    var k :| 0 <= k < |ts| && Expects(g, ts[k], x) && Advance(ts[k]) == u;
    assert TermBelow(ts[k], ref);
    var i :| 0 <= i < |ref| && CoreOf(ref[i]) == CoreOf(ts[k]) && ts[k].lk <= ref[i].lk;
    assert Expects(g, ref[i], x) && TermBelow(Advance(ref[i]), target);
    var m :| 0 <= m < |target| && CoreOf(target[m]) == CoreOf(Advance(ref[i])) && ref[i].lk <= target[m].lk;
  }

  // ---------- No more cores than closure forces ----------

  /** Every closed item set with the same kernel has all of ts's cores. */
  ghost predicate MinimalCores(g: Grammar, info: Info, ts: seq<Term>)
    requires ValidGrammar(g) && ValidInfo(g, info)
  {
    forall us :: ItemSet(g, us) && Kernel(us) == Kernel(ts) && Closed(g, info, us) ==> CoresWithin(ts, us)
  }

  /** The same terms with every token as lookahead. */
  function Full(g: Grammar, us: seq<Term>): (vs: seq<Term>)
    ensures |vs| == |us| && forall i :: 0 <= i < |us| ==> vs[i] == us[i].(lk := Tokens(g))
  {
    seq(|us|, i requires 0 <= i < |us| => us[i].(lk := Tokens(g)))
  }

  lemma {:induction false} FullClosed(g: Grammar, info: Info, us: seq<Term>)
    requires ValidGrammar(g) && ValidInfo(g, info) && ValidTerms(g, us) && Closed(g, info, us)
    ensures ValidTerms(g, Full(g, us)) && Closed(g, info, Full(g, us))
  {
    var vs := Full(g, us);
    forall i | 0 <= i < |vs|
      ensures ValidTerm(g, vs[i])
    {
      assert ValidTerm(g, us[i]);
    }
    forall n | 0 <= n < |vs|
      ensures ClosedFor(g, info, vs, vs[n])
    {
      assert ClosedFor(g, info, us, us[n]) && ValidTerm(g, us[n]);
      if vs[n].dot < |g.rules[vs[n].rule].rhs| {
        assert ValidRule(g, g.rules[vs[n].rule]);
        FirstTokens(g, info, Rest(g, vs[n]), vs[n].lk);
        forall r | 0 <= r < |g.rules| && g.rules[r].lhs == g.rules[vs[n].rule].rhs[vs[n].dot]
          ensures Covers(vs, r, Handed(g, info, vs[n]))
        {
          assert Covers(us, r, Handed(g, info, us[n]));
          var m :| 0 <= m < |us| && CoreOf(us[m]) == (r, 0);
          assert CoreOf(vs[m]) == (r, 0);
        }
      }
    }
  }

  lemma {:induction false} ClosureMinimal(g: Grammar, info: Info, ts0: seq<Term>, ts: seq<Term>)
    requires ValidGrammar(g) && ValidInfo(g, info) && ValidTerms(g, ts0)
    requires MinimalCores(g, info, ts0) && Grown(ts0, ts) && Least(g, info, ts0, ts)
    ensures MinimalCores(g, info, ts)
  {
    KernelGrown(ts0, ts);
    forall us | ItemSet(g, us) && Kernel(us) == Kernel(ts) && Closed(g, info, us)
      ensures CoresWithin(ts, us)
    {
      var ref := Full(g, us);
      FullClosed(g, info, us);
      assert CoresWithin(ts0, us);
      forall i | 0 <= i < |ts0|
        ensures TermBelow(ts0[i], ref)
      {
        assert HasCore(us, CoreOf(ts0[i])) && ValidTerm(g, ts0[i]);
        var j :| 0 <= j < |us| && CoreOf(us[j]) == CoreOf(ts0[i]);
        assert CoreOf(ref[j]) == CoreOf(ts0[i]);
      }
      assert DistinctCores(ref) by {
        forall i, j | 0 <= i < j < |ref|
          ensures CoreOf(ref[i]) != CoreOf(ref[j])
        {
          assert CoreOf(us[i]) != CoreOf(us[j]);
        }
      }
      assert IsReference(g, info, ts0, ref);
      BelowCoresWithin(ts, ref, us);
    }
  }

  lemma {:induction false} BelowCoresWithin(ts: seq<Term>, ref: seq<Term>, us: seq<Term>)
    requires Below(ts, ref) && SameCores(us, ref)
    ensures CoresWithin(ts, us)
  {
    forall i | 0 <= i < |ts|
      ensures HasCore(us, CoreOf(ts[i]))
    {
      assert TermBelow(ts[i], ref);
      var j :| 0 <= j < |ref| && CoreOf(ref[j]) == CoreOf(ts[i]);
      assert CoreOf(us[j]) == CoreOf(ts[i]);
    }
  }

  lemma {:induction false} SameCoresMinimal(g: Grammar, info: Info, ts: seq<Term>, us: seq<Term>)
    requires ValidGrammar(g) && ValidInfo(g, info) && MinimalCores(g, info, ts) && SameCores(ts, us) && Grown(ts, us)
    ensures MinimalCores(g, info, us)
  {
    KernelGrown(ts, us);
    forall vs | ItemSet(g, vs) && Kernel(vs) == Kernel(us) && Closed(g, info, vs)
      ensures CoresWithin(us, vs)
    {
      assert CoresWithin(ts, vs);
      forall i | 0 <= i < |us|
        ensures HasCore(vs, CoreOf(us[i]))
      {
        assert HasCore(vs, CoreOf(ts[i]));
      }
    }
  }

  lemma {:induction false} KernelMinimal(g: Grammar, info: Info, us: seq<Term>)
    requires ValidGrammar(g) && ValidInfo(g, info) && Dotted(us)
    ensures MinimalCores(g, info, us)
  {
    forall vs: seq<Term> | ItemSet(g, vs) && Kernel(vs) == Kernel(us)
      ensures CoresWithin(us, vs)
    {
      KernelPrefix(vs, us);
      forall i | 0 <= i < |us|
        ensures HasCore(vs, CoreOf(us[i]))
      {
        assert CoreOf(vs[i]) == CoreOf(us[i]);
      }
    }
  }

  lemma {:induction false} StartMinimal(g: Grammar, info: Info)
    requires ValidGrammar(g) && ValidInfo(g, info)
    ensures MinimalCores(g, info, [Term(0, 0, {0})])
  {
    var us := [Term(0, 0, {0})];
    forall vs: seq<Term> | ItemSet(g, vs) && Kernel(vs) == Kernel(us)
      ensures CoresWithin(us, vs)
    {
      assert vs[0].dot == 0;
      assert CoreOf(vs[0]) == (0, 0);
    }
  }

  ghost predicate MinimalPool(g: Grammar, info: Info, pool: seq<Item>)
    requires ValidGrammar(g) && ValidInfo(g, info)
  {
    forall p :: 0 <= p < |pool| ==> MinimalCores(g, info, pool[p].ts)
  }

  lemma {:induction false} CoresWithinTransitive(ts: seq<Term>, us: seq<Term>, vs: seq<Term>)
    requires CoresWithin(ts, us) && SameCores(us, vs)
    ensures CoresWithin(ts, vs)
  {
    forall i | 0 <= i < |ts|
      ensures HasCore(vs, CoreOf(ts[i]))
    {
      assert HasCore(us, CoreOf(ts[i]));
      var j :| 0 <= j < |us| && CoreOf(us[j]) == CoreOf(ts[i]);
      assert CoreOf(vs[j]) == CoreOf(ts[i]);
    }
  }

  // ---------- Gotos found by the generator ----------

  lemma {:induction false} GotoGivesTransition(g: Grammar, ts: seq<Term>, x: Sym, us: seq<Term>, vs: seq<Term>)
    requires IsGoto(g, ts, x, us) && KernelShape(vs) && Kernel(vs) == Kernel(us) && Below(us, vs)
    ensures TransitionOk(g, ts, x, vs)
  {
    forall i | 0 <= i < |ts| && Expects(g, ts[i], x)
      ensures TermBelow(Advance(ts[i]), vs)
    {
      assert Advance(ts[i]) in us;
      var j :| 0 <= j < |us| && us[j] == Advance(ts[i]);
      assert TermBelow(us[j], vs);
    }
    assert Dotted(us);
    KernelPrefix(vs, us);
    KernelOfDotted(us);
    KernelSorted(vs);
    forall j | 0 <= j < |vs| && vs[j].dot > 0
      ensures CoreMovedFrom(g, ts, x, vs[j])
    {
      assert j < |us| && CoreOf(vs[j]) == CoreOf(us[j]);
      assert MovedFrom(g, ts, x, us[j]);
    }
  }

  lemma {:induction false} GotoEmptyIff(g: Grammar, ts: seq<Term>, x: Sym, us: seq<Term>)
    requires IsGoto(g, ts, x, us)
    ensures us != [] <==> SomeExpects(g, ts, x)
  {
    if us != [] {
      assert MovedFrom(g, ts, x, us[0]);
    }
    if SomeExpects(g, ts, x) {
      var i :| 0 <= i < |ts| && Expects(g, ts[i], x);
      assert Advance(ts[i]) in us;
    }
  }
}
