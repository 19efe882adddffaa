/**
  Results about whole control-flow graphs: when replacing the code of blocks
  keeps a run's outcome, when forwarding jumps past empty blocks does, and the
  order in which dataflow iteration moves.
*/
module FlowGraph {
  import opened Options
  import opened Ir
  import opened IrSemantics
  import opened Liveness

  /** The listed blocks contain all of their own jump targets. */
  predicate Closed(g: Graph, list: seq<nat>)
    requires ValidGraph(g)
  {
    forall i :: 0 <= i < |list| ==> list[i] < |g| && ClosedAt(g, list, list[i])
  }

  predicate ClosedAt(g: Graph, list: seq<nat>, b: nat)
    requires b < |g|
  {
    && (g[b].jump0.Some? ==> g[b].jump0.value in list)
    && (g[b].jump1.Some? ==> g[b].jump1.value in list)
  }

  /** Same jumps and exit expression, whatever the code and the sets. */
  predicate SameExit(b: Block, c: Block) {
    && b.expr == c.expr && b.jump0 == c.jump0 && b.jump1 == c.jump1
    && b.hasReturnValue == c.hasReturnValue
  }

  // ---------- Replacing code ----------

  /** Run from states that agree on the block's in set, both pieces of code end
      in states that agree on what is live at the block's end. */
  ghost predicate CodeRefines(m: Machine, syms: seq<Symbol>, idx: Index, b: Block, d: seq<Statement>)
    requires |idx| == |syms| && ReadyBlock(syms, idx, b)
  {
    forall s, t :: Similar(syms, idx, b.liveIn, s, t) ==>
      Similar(syms, idx, EndOf(syms, idx, b, b.liveOut), ExecCode(m, syms, b.code, s), ExecCode(m, syms, d, t))
  }

  lemma {:induction false} ExitSimilar(m: Machine, syms: seq<Symbol>, idx: Index, b: Block, s: State, t: State)
    requires ValidIndex(idx, syms) && ReadyBlock(syms, idx, b)
    requires Similar(syms, idx, EndOf(syms, idx, b, b.liveOut), s, t)
    ensures ExitBlock(m, syms, b, s).Return? ==> ExitBlock(m, syms, b, s) == ExitBlock(m, syms, b, t)
    ensures ExitBlock(m, syms, b, s).Goto? ==>
      var x, y := ExitBlock(m, syms, b, s), ExitBlock(m, syms, b, t);
      y.Goto? && x.block == y.block && Similar(syms, idx, b.liveOut, x.st, y.st)
  {
    if UsesExpr(b) {
      EvalExprSimilar(m, syms, idx, b.expr, EndOf(syms, idx, b, b.liveOut), s, t);
      var s', t' := EvalExpr(m, syms, b.expr, s).0, EvalExpr(m, syms, b.expr, t).0;
      GlobalsAgree(syms, idx, EndOf(syms, idx, b, b.liveOut), s'.env, t'.env);
    }
    GlobalsAgree(syms, idx, EndOf(syms, idx, b, b.liveOut), s.env, t.env);
  }

  ghost predicate GraphRefines(m: Machine, syms: seq<Symbol>, idx: Index, g: Graph, h: Graph, list: seq<nat>)
    requires ValidGraph(g) && ValidGraph(h) && |g| == |h| && |idx| == |syms|
  {
    && Closed(g, list)
    && forall i :: 0 <= i < |list| ==>
         var b := list[i];
         && ReadyBlock(syms, idx, g[b]) && OutOf(g, b) <= g[b].liveOut
         && SameExit(g[b], h[b])
         && CodeRefines(m, syms, idx, g[b], h[b].code)
  }

  /** One block of either graph, started alike: both return the same, or both go
      to the same listed block, in states alike on what is live there. */
  ghost predicate BlockSame(
    m: Machine, syms: seq<Symbol>, idx: Index, g: Graph, h: Graph, list: seq<nat>, b: nat, s: State, t: State)
    requires ValidGraph(g) && ValidGraph(h) && |g| == |h| && |idx| == |syms| && b < |g|
  {
    var x := ExitBlock(m, syms, g[b], ExecCode(m, syms, g[b].code, s));
    var y := ExitBlock(m, syms, h[b], ExecCode(m, syms, h[b].code, t));
    && (x.Return? ==> y == x)
    && (x.Goto? ==> y.Goto? && y.block == x.block && x.block < |g| && x.block in list
                    && Similar(syms, idx, g[x.block].liveIn, x.st, y.st))
  }

  lemma {:induction false} RefinedBlockSame(
    m: Machine, syms: seq<Symbol>, idx: Index, g: Graph, h: Graph, list: seq<nat>, b: nat, s: State, t: State)
    requires ValidIndex(idx, syms) && ValidGraph(g) && ValidGraph(h) && |g| == |h|
    requires GraphRefines(m, syms, idx, g, h, list) && b in list
    requires Similar(syms, idx, g[b].liveIn, s, t)
    ensures BlockSame(m, syms, idx, g, h, list, b, s, t)
  {
    var s', t' := ExecCode(m, syms, g[b].code, s), ExecCode(m, syms, h[b].code, t);
    ExitSimilar(m, syms, idx, g[b], s', t');
    var x, y := ExitBlock(m, syms, g[b], s'), ExitBlock(m, syms, h[b], t');
    assert y == ExitBlock(m, syms, g[b], t');
    if x.Goto? {
      assert ClosedAt(g, list, b) && ValidJumps(g[b], |g|);
      SimilarMonotone(syms, idx, g[b].liveOut, g[x.block].liveIn, x.st, y.st);
    }
  }

  /** Lock-step simulation of one graph by another. */
  lemma {:induction false} RunSame(
    m: Machine, syms: seq<Symbol>, idx: Index, g: Graph, h: Graph, list: seq<nat>, b: nat, s: State, t: State, n: nat)
    requires ValidGraph(g) && ValidGraph(h) && |g| == |h| && |idx| == |syms|
    requires forall c, s, t :: c in list && c < |g| && Similar(syms, idx, g[c].liveIn, s, t) ==>
      BlockSame(m, syms, idx, g, h, list, c, s, t)
    requires b in list && b < |g| && Similar(syms, idx, g[b].liveIn, s, t)
    ensures Run(m, syms, g, b, s, n) == Run(m, syms, h, b, t, n)
    decreases n
  {
    if n > 0 {
      assert BlockSame(m, syms, idx, g, h, list, b, s, t);
      var x := ExitBlock(m, syms, g[b], ExecCode(m, syms, g[b].code, s));
      var y := ExitBlock(m, syms, h[b], ExecCode(m, syms, h[b].code, t));
      if x.Goto? {
        RunSame(m, syms, idx, g, h, list, x.block, x.st, y.st, n - 1);
      }
    }
  }

  lemma {:induction false} ReplacedCodeEquivalent(syms: seq<Symbol>, idx: Index, g: Graph, h: Graph, list: seq<nat>, entry: nat)
    requires ValidIndex(idx, syms) && ValidGraph(g) && ValidGraph(h) && |g| == |h|
    requires entry in list && entry < |g|
    requires forall m :: Lawful(m) ==> GraphRefines(m, syms, idx, g, h, list)
    ensures Equivalent(syms, g, h, entry)
  {
    forall m: Machine, st: State | Lawful(m) && |st.env| == |syms|
      ensures Includes(m, syms, g, h, entry, st) && Includes(m, syms, h, g, entry, st)
    {
      assert GraphRefines(m, syms, idx, g, h, list);
      forall c, s, t | c in list && c < |g| && Similar(syms, idx, g[c].liveIn, s, t)
        ensures BlockSame(m, syms, idx, g, h, list, c, s, t)
      {
        RefinedBlockSame(m, syms, idx, g, h, list, c, s, t);
      }
      forall n: nat
        ensures Run(m, syms, g, entry, st, n) == Run(m, syms, h, entry, st, n)
        ensures Shows(m, syms, h, entry, st, Run(m, syms, g, entry, st, n))
        ensures Shows(m, syms, g, entry, st, Run(m, syms, h, entry, st, n))
      {
        RunSame(m, syms, idx, g, h, list, entry, st, st, n);
      }
    }
  }

  // ---------- Jumps past empty blocks ----------

  /** An empty block that only jumps on. */
  predicate Forwards(b: Block) { b.code == [] && b.jump0.Some? && b.jump1.None? }

  /** The block reached by passing through at most k empty blocks. */
  function Follow(g: Graph, b: nat, k: nat): (c: nat)
    requires ValidGraph(g) && b < |g|
    ensures c < |g|
    decreases k
  {
    assert ValidJumps(g[b], |g|);
    if k == 0 || !Forwards(g[b]) then b else Follow(g, g[b].jump0.value, k - 1)
  }

  ghost predicate Skips(g: Graph, b: nat, c: nat)
    requires ValidGraph(g) && b < |g|
  {
    exists k: nat :: Follow(g, b, k) == c
  }

  ghost predicate SkipsOption(g: Graph, b: Option<nat>, c: Option<nat>)
    requires ValidGraph(g) && (b.Some? ==> b.value < |g|)
  {
    (b.None? ==> c.None?) && (b.Some? ==> c.Some? && Skips(g, b.value, c.value))
  }

  /** h is g with jumps forwarded through empty blocks of g. */
  ghost predicate Forwarded(g: Graph, h: Graph)
    requires ValidGraph(g)
  {
    |g| == |h| && forall b :: 0 <= b < |g| ==> ForwardedAt(g, h, b)
  }

  ghost predicate ForwardedAt(g: Graph, h: Graph, b: nat)
    requires ValidGraph(g) && b < |g| == |h|
  {
    assert ValidJumps(g[b], |g|);
    && h[b] == g[b].(jump0 := h[b].jump0, jump1 := h[b].jump1)
    && SkipsOption(g, g[b].jump0, h[b].jump0) && SkipsOption(g, g[b].jump1, h[b].jump1)
  }

  lemma {:induction false} FollowFurther(g: Graph, b: nat, k: nat)
    requires ValidGraph(g) && b < |g| && Forwards(g[Follow(g, b, k)])
    ensures ValidJumps(g[Follow(g, b, k)], |g|)
    ensures exists j: nat :: Follow(g, b, j) == g[Follow(g, b, k)].jump0.value
    decreases k
  {
    assert ValidJumps(g[b], |g|);
    if k == 0 || !Forwards(g[b]) {
      var next := g[b].jump0.value;
      assert Follow(g, next, 0) == next;
      assert Follow(g, b, 1) == next;
    } else {
      var next := g[b].jump0.value;
      FollowFurther(g, next, k - 1);
      var target := g[Follow(g, b, k)].jump0.value;
      var j: nat :| Follow(g, next, j) == target;
      assert Follow(g, b, j + 1) == target;
    }
  }

  lemma {:induction false} FollowTransitive(g: Graph, a: nat, b: nat, c: nat, j: nat)
    requires ValidGraph(g) && a < |g| && Follow(g, a, j) == b && Skips(g, b, c)
    ensures Skips(g, a, c)
    decreases j
  {
    if j == 0 || !Forwards(g[a]) {
    } else {
      assert ValidJumps(g[a], |g|);
      FollowTransitive(g, g[a].jump0.value, b, c, j - 1);
      var k: nat :| Follow(g, g[a].jump0.value, k) == c;
      assert Follow(g, a, k + 1) == c;
    }
  }

  /** What shows from the block that b goes to shows from b. */
  lemma {:induction false} ShownNext(m: Machine, syms: seq<Symbol>, g: Graph, b: nat, st: State, o: Outcome)
    requires ValidGraph(g) && b < |g| && ValidJumps(g[b], |g|)
    requires var x := ExitBlock(m, syms, g[b], ExecCode(m, syms, g[b].code, st));
      x.Goto? && x.block < |g| && Shows(m, syms, g, x.block, x.st, o)
    ensures Shows(m, syms, g, b, st, o)
  {
    var x := ExitBlock(m, syms, g[b], ExecCode(m, syms, g[b].code, st));
    var i: nat :| Run(m, syms, g, x.block, x.st, i) == o;
    assert Run(m, syms, g, b, st, i + 1) == o;
  }

  /** Whatever g shows from block b, h shows from the block b is forwarded to. */
  lemma {:induction false} ForwardedShows(
    m: Machine, syms: seq<Symbol>, g: Graph, h: Graph, b: nat, k: nat, st: State, n: nat)
    requires ValidGraph(g) && ValidGraph(h) && Forwarded(g, h) && b < |g|
    ensures Shows(m, syms, h, Follow(g, b, k), st, Run(m, syms, g, b, st, n))
    decreases n
  {
    var c, o := Follow(g, b, k), Run(m, syms, g, b, st, n);
    assert ValidJumps(g[b], |g|);
    if n == 0 {
      assert Run(m, syms, h, c, st, 0) == o;
    } else if c != b {
      ForwardedShows(m, syms, g, h, g[b].jump0.value, k - 1, st, n - 1);
      assert o == Run(m, syms, g, g[b].jump0.value, st, n - 1);
    } else {
      assert ForwardedAt(g, h, b);
      var st' := ExecCode(m, syms, g[b].code, st);
      var x, y := ExitBlock(m, syms, g[b], st'), ExitBlock(m, syms, h[b], st');
      if x.Goto? {
        assert Skips(g, x.block, y.block);
        var j: nat :| Follow(g, x.block, j) == y.block;
        ForwardedShows(m, syms, g, h, x.block, j, x.st, n - 1);
        ShownNext(m, syms, h, b, st, o);
      } else {
        assert Run(m, syms, h, b, st, 1) == o;
      }
    }
  }

  /** Empty blocks show what the block at the end of the chain shows. */
  lemma {:induction false} FollowedShown(m: Machine, syms: seq<Symbol>, g: Graph, b: nat, k: nat, st: State, o: Outcome)
    requires ValidGraph(g) && b < |g| && Shows(m, syms, g, Follow(g, b, k), st, o)
    ensures Shows(m, syms, g, b, st, o)
    decreases k
  {
    assert ValidJumps(g[b], |g|);
    if k != 0 && Forwards(g[b]) {
      FollowedShown(m, syms, g, g[b].jump0.value, k - 1, st, o);
      ShownNext(m, syms, g, b, st, o);
    }
  }

  /** Whatever h shows from block b, g shows too. */
  lemma {:induction false} ForwardedShownBy(
    m: Machine, syms: seq<Symbol>, g: Graph, h: Graph, b: nat, st: State, n: nat)
    requires ValidGraph(g) && ValidGraph(h) && Forwarded(g, h) && b < |g|
    ensures Shows(m, syms, g, b, st, Run(m, syms, h, b, st, n))
    decreases n
  {
    var o := Run(m, syms, h, b, st, n);
    assert ValidJumps(g[b], |g|) && ForwardedAt(g, h, b);
    if n == 0 {
      assert Run(m, syms, g, b, st, 0) == o;
    } else {
      var st' := ExecCode(m, syms, g[b].code, st);
      var x, y := ExitBlock(m, syms, g[b], st'), ExitBlock(m, syms, h[b], st');
      if x.Goto? {
        assert Skips(g, x.block, y.block);
        ForwardedShownBy(m, syms, g, h, y.block, x.st, n - 1);
        var j: nat :| Follow(g, x.block, j) == y.block;
        FollowedShown(m, syms, g, x.block, j, x.st, o);
        ShownNext(m, syms, g, b, st, o);
      } else {
        assert Run(m, syms, g, b, st, 1) == o;
      }
    }
  }

  /** Forwarding keeps all runs on any machine, lawful or not. */
  lemma {:induction false} ForwardedEquivalent(syms: seq<Symbol>, g: Graph, h: Graph, entry: nat)
    requires ValidGraph(g) && ValidGraph(h) && Forwarded(g, h) && entry < |g|
    ensures forall m: Machine, st: State ::
      Includes(m, syms, g, h, entry, st) && Includes(m, syms, h, g, entry, st)
    ensures Equivalent(syms, g, h, entry)
  {
    assert Follow(g, entry, 0) == entry;
    forall m: Machine, st: State
      ensures Includes(m, syms, g, h, entry, st) && Includes(m, syms, h, g, entry, st)
    {
      forall n: nat
        ensures Shows(m, syms, h, entry, st, Run(m, syms, g, entry, st, n))
        ensures Shows(m, syms, g, entry, st, Run(m, syms, h, entry, st, n))
      {
        ForwardedShows(m, syms, g, h, entry, 0, st, n);
        ForwardedShownBy(m, syms, g, h, entry, st, n);
      }
    }
  }

  // ---------- When the search for a non-empty target ends ----------

  /** The search from b has got past all empty blocks within n steps. */
  predicate ChainEnds(g: Graph, b: nat, n: nat)
    requires ValidGraph(g) && b < |g|
  {
    !Forwards(g[Follow(g, b, n)])
  }

  ghost predicate ChainCanEnd(g: Graph, b: nat)
    requires ValidGraph(g) && b < |g|
  {
    exists n: nat :: ChainEnds(g, b, n)
  }

  /** Jumping from empty block to empty block leads back to b. */
  predicate OnEmptyCycle(g: Graph, b: nat)
    requires ValidGraph(g) && b < |g|
  {
    Forwards(g[b]) && exists k :: 0 < k <= |g| && Follow(g, b, k) == b
  }

  /** Jumping from empty block to empty block leads from b to a cycle. */
  predicate MeetsEmptyCycle(g: Graph, b: nat)
    requires ValidGraph(g) && b < |g|
  {
    exists j :: 0 <= j <= |g| && OnEmptyCycle(g, Follow(g, b, j))
  }

  lemma {:induction false} FollowAdds(g: Graph, b: nat, i: nat, k: nat)
    requires ValidGraph(g) && b < |g|
    ensures Follow(g, b, i + k) == Follow(g, Follow(g, b, i), k)
    decreases i
  {
    assert ValidJumps(g[b], |g|);
    if i > 0 && Forwards(g[b]) {
      FollowAdds(g, g[b].jump0.value, i - 1, k);
    }
  }

  /** Once it has ended, the search stays where it is. */
  lemma {:induction false} EndedStays(g: Graph, b: nat, n: nat, m: nat)
    requires ValidGraph(g) && b < |g| && ChainEnds(g, b, n) && n <= m
    ensures Follow(g, b, m) == Follow(g, b, n) && ChainEnds(g, b, m)
  {
    FollowAdds(g, b, n, m - n);
  }

  /** More numbers than there are to choose from: one occurs twice. */
  lemma {:induction false} Pigeonhole(s: seq<nat>, n: nat) returns (i: nat, j: nat)
    requires |s| > n && forall k :: 0 <= k < |s| ==> s[k] < n
    ensures i < j < |s| && s[i] == s[j]
    decreases n
  {
    if j :| 0 <= j < |s| - 1 && s[j] == s[|s| - 1] {
      return j, |s| - 1;
    }
    // The last number occurs only once: put the greatest number in its place.
    var last := s[|s| - 1];
    var t := seq(|s| - 1, k requires 0 <= k < |s| - 1 => if s[k] == n - 1 then last else s[k]);
    i, j := Pigeonhole(t, n - 1);
    assert t[i] == t[j];
  }

  /** A search that has not ended after as many steps as there are blocks meets a cycle. */
  lemma {:induction false} LongChainCycles(g: Graph, b: nat)
    requires ValidGraph(g) && b < |g| && !ChainEnds(g, b, |g|)
    ensures MeetsEmptyCycle(g, b)
  {
    var s := seq(|g| + 1, k requires 0 <= k < |g| + 1 => Follow(g, b, k));
    var i, j := Pigeonhole(s, |g|);
    var c := Follow(g, b, i);
    assert s[i] == c && s[j] == Follow(g, b, j);
    FollowAdds(g, b, i, j - i);
    if ChainEnds(g, b, i) {
      EndedStays(g, b, i, |g|);
    }
    assert Follow(g, c, j - i) == c;
    assert OnEmptyCycle(g, Follow(g, b, i));
  }

  /** A cycle of empty blocks is never left. */
  lemma {:induction false} CycleGoesOn(g: Graph, c: nat, m: nat)
    requires ValidGraph(g) && c < |g| && OnEmptyCycle(g, c)
    ensures !ChainEnds(g, c, m)
    decreases m
  {
    var k: nat :| 0 < k <= |g| && Follow(g, c, k) == c;
    if m < k {
      if ChainEnds(g, c, m) {
        EndedStays(g, c, m, k);
      }
    } else {
      FollowAdds(g, c, k, m - k);
      CycleGoesOn(g, c, m - k);
    }
  }

  /** The search from a block ends if and only if it meets no cycle of empty blocks,
      and then it ends within as many steps as there are blocks. */
  lemma {:induction false} ChainEndsIff(g: Graph, b: nat)
    requires ValidGraph(g) && b < |g|
    ensures ChainCanEnd(g, b) <==> !MeetsEmptyCycle(g, b)
    ensures ChainCanEnd(g, b) <==> ChainEnds(g, b, |g|)
  {
    if MeetsEmptyCycle(g, b) {
      var j: nat :| 0 <= j <= |g| && OnEmptyCycle(g, Follow(g, b, j));
      forall n: nat
        ensures !ChainEnds(g, b, n)
      {
        if ChainEnds(g, b, n) {
          EndedStays(g, b, n, n + j);
          FollowAdds(g, b, j, n);
          CycleGoesOn(g, Follow(g, b, j), n);
        }
      }
    } else if !ChainEnds(g, b, |g|) {
      LongChainCycles(g, b);
    }
  }

  // What `for (;;) ;` is lowered to: the block before the loop, and its body
  const ENDLESS_BODY := Block([], Expr(Cast, NO_TYPE, NO_VAR, NO_VAR), Some(1), None, false, White, {}, {})
  const ENDLESS: Graph := [ENDLESS_BODY, ENDLESS_BODY]
  const NO_TYPE := Type(Void, false, false, NoTree)
  const NO_VAR := Var(Immediate, NO_TYPE, None, 0, 0, 0, 0)

  /** The search from the jump into the loop of `for (;;) ;` never ends. */
  lemma {:induction false} EndlessLoop(n: nat)
    ensures ValidGraph(ENDLESS) && OnEmptyCycle(ENDLESS, 1) && !ChainEnds(ENDLESS, ENDLESS[0].jump0.value, n)
  {
    assert ValidGraph(ENDLESS) by {
      assert forall b :: 0 <= b < |ENDLESS| ==> ValidJumps(ENDLESS[b], |ENDLESS|);
    }
    assert Follow(ENDLESS, 1, 0) == 1;
    assert Follow(ENDLESS, 1, 1) == 1;
    CycleGoesOn(ENDLESS, 1, n);
  }

  // ---------- Termination of the forwarding of jumps ----------

  /** No listed block is on a cycle of empty blocks. */
  predicate NoEmptyCycle(g: Graph, list: seq<nat>)
    requires ValidGraph(g)
  {
    forall b :: b in list && b < |g| ==> !OnEmptyCycle(g, b)
  }

  /** A measure that falls along every jump out of a listed empty block. */
  ghost predicate Ranked(g: Graph, list: seq<nat>, rank: seq<nat>)
    requires ValidGraph(g)
  {
    |rank| == |g| && forall b :: b in list && b < |g| && Forwards(g[b]) ==> RankFalls(g, rank, b)
  }

  predicate RankFalls(g: Graph, rank: seq<nat>, b: nat)
    requires ValidGraph(g) && |rank| == |g| && b < |g| && Forwards(g[b])
  {
    assert ValidJumps(g[b], |g|);
    rank[g[b].jump0.value] < rank[b]
  }

  lemma {:induction false} FollowStaysListed(g: Graph, list: seq<nat>, b: nat, k: nat)
    requires ValidGraph(g) && Closed(g, list) && b in list && b < |g|
    ensures Follow(g, b, k) in list
    decreases k
  {
    assert ValidJumps(g[b], |g|) && ClosedAt(g, list, b);
    if k != 0 && Forwards(g[b]) {
      FollowStaysListed(g, list, g[b].jump0.value, k - 1);
    }
  }

  lemma {:induction false} ListedChainEnds(g: Graph, list: seq<nat>, b: nat)
    requires ValidGraph(g) && Closed(g, list) && NoEmptyCycle(g, list) && b in list && b < |g|
    ensures ChainCanEnd(g, b)
  {
    ChainEndsIff(g, b);
    if MeetsEmptyCycle(g, b) {
      var j: nat :| 0 <= j <= |g| && OnEmptyCycle(g, Follow(g, b, j));
      FollowStaysListed(g, list, b, j);
    }
  }

  /** The number of empty blocks that the search from b passes. */
  ghost function ChainLength(g: Graph, b: nat, n: nat): (k: nat)
    requires ValidGraph(g) && b < |g| && ChainEnds(g, b, n)
    ensures ChainEnds(g, b, k) && forall j: nat :: j < k ==> !ChainEnds(g, b, j)
    decreases n
  {
    if exists j: nat :: j < n && ChainEnds(g, b, j) then
      var j: nat :| j < n && ChainEnds(g, b, j);
      ChainLength(g, b, j)
    else n
  }

  ghost predicate IsLength(g: Graph, b: nat, k: nat)
    requires ValidGraph(g) && b < |g|
  {
    ChainEnds(g, b, k) && forall j: nat :: j < k ==> !ChainEnds(g, b, j)
  }

  lemma {:induction false} RankExists(g: Graph, list: seq<nat>) returns (rank: seq<nat>)
    requires ValidGraph(g) && Closed(g, list) && NoEmptyCycle(g, list)
    ensures Ranked(g, list, rank)
  {
    rank := seq(|g|, b requires 0 <= b < |g| =>
      if ChainEnds(g, b, |g|) then ChainLength(g, b, |g|) else 0);
    forall b | b in list && b < |g|
      ensures IsLength(g, b, rank[b])
    {
      ListedChainEnds(g, list, b);
      ChainEndsIff(g, b);
    }
    forall b | b in list && b < |g| && Forwards(g[b])
      ensures RankFalls(g, rank, b)
    {
      assert ValidJumps(g[b], |g|) && ClosedAt(g, list, b);
      var next := g[b].jump0.value;
      assert IsLength(g, b, rank[b]) && IsLength(g, next, rank[next]);
      assert Follow(g, b, rank[b]) == Follow(g, next, rank[b] - 1);
      assert ChainEnds(g, next, rank[b] - 1);
    }
  }

  lemma {:induction false} RankedChainEnds(g: Graph, list: seq<nat>, rank: seq<nat>, b: nat)
    requires ValidGraph(g) && Closed(g, list) && Ranked(g, list, rank) && b in list && b < |g|
    ensures ChainCanEnd(g, b)
    decreases rank[b]
  {
    if Forwards(g[b]) {
      assert ValidJumps(g[b], |g|) && ClosedAt(g, list, b) && RankFalls(g, rank, b);
      var next := g[b].jump0.value;
      RankedChainEnds(g, list, rank, next);
      var n: nat :| ChainEnds(g, next, n);
      assert Follow(g, b, n + 1) == Follow(g, next, n);
      assert ChainEnds(g, b, n + 1);
    } else {
      assert ChainEnds(g, b, 0);
    }
  }

  /** A termination measure for the forwarding of all listed blocks' jumps exists if
      and only if none of the blocks is on a cycle of empty blocks. */
  lemma {:induction false} RankedIffNoEmptyCycle(g: Graph, list: seq<nat>)
    requires ValidGraph(g) && Closed(g, list)
    ensures NoEmptyCycle(g, list) <==> exists rank :: Ranked(g, list, rank)
  {
    if NoEmptyCycle(g, list) {
      var rank := RankExists(g, list);
    }
    if rank :| Ranked(g, list, rank) {
      forall b | b in list && b < |g|
        ensures !OnEmptyCycle(g, b)
      {
        RankedChainEnds(g, list, rank, b);
        ChainEndsIff(g, b);
        assert Follow(g, b, 0) == b;
      }
    }
  }
}
