/**
  What being live means on the paths of a graph: some path reads the symbol before
  anything is stored to it.  The analysis finds exactly these symbols.
*/
module LivePaths {
  import opened Options
  import opened Ir
  import opened Liveness
  import opened Transform
  import opened FlowGraph
  import opened Dataflow

  // ---------- Reading and storing ----------

  /** Reading the operand may read the symbol: any, if it is reached through a pointer. */
  predicate OperandReads(v: Var, y: nat) { v.kind == Deref || v.symbol == Some(y) }

  predicate ExprReads(e: Expr, y: nat) {
    OperandReads(e.l, y) || (!IsUnary(e.op) && OperandReads(e.r, y))
  }

  /** Storing through a pointer reads the pointer; an argument with a pointer lets the
      callee read everything. */
  predicate StatementReads(s: Statement, y: nat) {
    || ExprReads(s.expr, y)
    || (s.st == Assign && s.t.kind == Deref && s.t.symbol == Some(y))
    || (s.st == Param && IsOrHasPointer(s.expr.ty))
  }

  /** The statement stores to the symbol, which is a scalar. */
  predicate StatementStores(syms: seq<Symbol>, s: Statement, y: nat) {
    s.st == Assign && s.t.kind == Direct && s.t.symbol == Some(y) && y < |syms| && IsScalar(syms[y].ty)
  }

  predicate CodeStores(syms: seq<Symbol>, c: seq<Statement>, y: nat) {
    exists i :: 0 <= i < |c| && StatementStores(syms, c[i], y)
  }

  /** The i-th statement reads the symbol, and none before it stores to it. */
  predicate ReadsAt(syms: seq<Symbol>, c: seq<Statement>, y: nat, i: nat) {
    i < |c| && StatementReads(c[i], y) && forall j :: 0 <= j < i ==> !StatementStores(syms, c[j], y)
  }

  ghost predicate CodeReads(syms: seq<Symbol>, c: seq<Statement>, y: nat) {
    exists i: nat :: ReadsAt(syms, c, y, i)
  }

  /** A symbol that the analysis looks at. */
  predicate Numbered(syms: seq<Symbol>, idx: Index, y: nat) {
    ValidIndex(idx, syms) && y < |syms| && idx[y] != 0
  }

  // ---------- One statement, and a list of them ----------

  lemma {:induction false} UseIff(syms: seq<Symbol>, idx: Index, e: Expr, y: nat)
    requires Numbered(syms, idx, y) && ValidExpr(e, syms) && NumberedExpr(syms, idx, e)
    ensures idx[y] - 1 in Use(syms, idx, e) <==> ExprReads(e, y)
  {
    OperandIff(syms, idx, e.l, y);
    if !IsUnary(e.op) {
      OperandIff(syms, idx, e.r, y);
    }
  }

  lemma {:induction false} OperandIff(syms: seq<Symbol>, idx: Index, v: Var, y: nat)
    requires Numbered(syms, idx, y) && ValidVar(v, syms) && NumberedVar(syms, idx, v)
    ensures idx[y] - 1 in SetUseBit(syms, idx, v) <==> OperandReads(v, y)
  {
    assert !IsFunction(syms[y].ty);
  }

  lemma {:induction false} TransferIff(syms: seq<Symbol>, idx: Index, s: Statement, out: Bits, y: nat)
    requires Numbered(syms, idx, y) && Ready(syms, idx, s)
    ensures idx[y] - 1 in Transfer(syms, idx, s, out) <==>
      StatementReads(s, y) || (idx[y] - 1 in out && !StatementStores(syms, s, y))
  {
    UseIff(syms, idx, s.expr, y);
    assert !IsFunction(syms[y].ty);
  }

  /** A symbol is live before the code exactly if a statement reads it and none before
      that one stores to it, or if it is live at the end and none stores to it. */
  lemma {:induction false} BackwardIff(syms: seq<Symbol>, idx: Index, c: seq<Statement>, end: Bits, y: nat)
    requires Numbered(syms, idx, y) && ReadyCode(syms, idx, c)
    ensures idx[y] - 1 in Backward(syms, idx, c, end) <==>
      CodeReads(syms, c, y) || (idx[y] - 1 in end && !CodeStores(syms, c, y))
  {
    if c != [] {
      BackwardIff(syms, idx, c[1..], end, y);
      TransferIff(syms, idx, c[0], Backward(syms, idx, c[1..], end), y);
      ReadsFirst(syms, c, y);
    }
  }

  lemma {:induction false} ReadsFirst(syms: seq<Symbol>, c: seq<Statement>, y: nat)
    requires c != []
    ensures CodeStores(syms, c, y) <==> StatementStores(syms, c[0], y) || CodeStores(syms, c[1..], y)
    ensures CodeReads(syms, c, y) <==>
      StatementReads(c[0], y) || (!StatementStores(syms, c[0], y) && CodeReads(syms, c[1..], y))
  {
    if i: nat :| ReadsAt(syms, c, y, i) {
      if i > 0 {
        assert ReadsAt(syms, c[1..], y, i - 1);
      }
    }
    if i: nat :| ReadsAt(syms, c[1..], y, i) {
      if !StatementStores(syms, c[0], y) {
        assert ReadsAt(syms, c, y, i + 1);
      }
    }
    if StatementReads(c[0], y) {
      assert ReadsAt(syms, c, y, 0);
    }
    if i :| 0 <= i < |c| && StatementStores(syms, c[i], y) {
      assert i == 0 || c[i] == c[1..][i - 1];
    }
    if i :| 0 <= i < |c[1..]| && StatementStores(syms, c[1..][i], y) {
      assert c[1..][i] == c[i + 1];
    }
  }

  /** A whole store to an object of arithmetic or pointer type ends what was live of it
      before, and the analysis is right about it. */
  lemma {:induction false} OwnStoreKills(syms: seq<Symbol>, idx: Index, s: Statement, out: Bits, y: nat)
    requires Numbered(syms, idx, y) && Ready(syms, idx, s) && s.st == Assign
    requires s.t.kind == Direct && s.t.symbol == Some(y) && s.t.ty == syms[y].ty && s.t.offset == s.t.fieldWidth == 0
    requires TypeOf(syms[y].ty) in {Bool, Char, Short, Int, Long, Float, Double, LongDouble, Pointer}
    ensures Plain(syms, idx, s, out)
    ensures idx[y] - 1 in Transfer(syms, idx, s, out) <==> ExprReads(s.expr, y)
  {
    TransferIff(syms, idx, s, out, y);
  }

  /** A store to a struct, a union or an array ends nothing, and the analysis is right
      about it whatever part it stores to. */
  lemma {:induction false} AggregateStoreKeeps(syms: seq<Symbol>, idx: Index, s: Statement, out: Bits, y: nat)
    requires Numbered(syms, idx, y) && Ready(syms, idx, s) && s.st == Assign
    requires s.t.kind == Direct && s.t.symbol == Some(y) && TypeOf(syms[y].ty) in {Struct, Union, Array}
    ensures Plain(syms, idx, s, out)
    ensures idx[y] - 1 in Transfer(syms, idx, s, out) <==> ExprReads(s.expr, y) || idx[y] - 1 in out
  {
    TransferIff(syms, idx, s, out, y);
  }

  // ---------- Paths ----------

  /** Leaving the block reads the symbol. */
  predicate ExitReads(b: Block, y: nat) { UsesExpr(b) && ExprReads(b.expr, y) }

  /** From the start of the block, within n jumps, the symbol is read before it is stored to. */
  ghost predicate ReadWithin(syms: seq<Symbol>, g: Graph, b: nat, y: nat, n: nat)
    requires ValidGraph(g) && b < |g|
    decreases n
  {
    || CodeReads(syms, g[b].code, y)
    || (!CodeStores(syms, g[b].code, y) && LeavesToRead(syms, g, b, y, n))
  }

  /** The exit reads the symbol, or it is read after one of the jumps. */
  ghost predicate LeavesToRead(syms: seq<Symbol>, g: Graph, b: nat, y: nat, n: nat)
    requires ValidGraph(g) && b < |g|
    decreases n, 0
  {
    assert ValidJumps(g[b], |g|);
    || ExitReads(g[b], y)
    || (n > 0 && g[b].jump0.Some? && ReadWithin(syms, g, g[b].jump0.value, y, n - 1))
    || (n > 0 && g[b].jump1.Some? && ReadWithin(syms, g, g[b].jump1.value, y, n - 1))
  }

  ghost predicate MayBeRead(syms: seq<Symbol>, g: Graph, b: nat, y: nat)
    requires ValidGraph(g) && b < |g|
  {
    exists n: nat :: ReadWithin(syms, g, b, y, n)
  }

  lemma {:induction false} ReadsSame(syms: seq<Symbol>, c: seq<Statement>, d: seq<Statement>, y: nat)
    requires |c| == |d| && forall i :: 0 <= i < |c| ==> d[i] == c[i].(out := d[i].out)
    ensures CodeReads(syms, c, y) ==> CodeReads(syms, d, y)
    ensures CodeStores(syms, c, y) ==> CodeStores(syms, d, y)
  {
    if i: nat :| ReadsAt(syms, c, y, i) {
      assert ReadsAt(syms, d, y, i);
    }
    if i :| 0 <= i < |c| && StatementStores(syms, c[i], y) {
      assert StatementStores(syms, d[i], y);
    }
  }

  /** Recorded sets do not matter to what is read. */
  lemma {:induction false} ReadWithinSame(syms: seq<Symbol>, g: Graph, h: Graph, b: nat, y: nat, n: nat)
    requires ValidGraph(g) && ValidGraph(h) && SameProgram(g, h) && b < |g|
    ensures ReadWithin(syms, g, b, y, n) <==> ReadWithin(syms, h, b, y, n)
    decreases n
  {
    assert SameButSets(g[b], h[b]) && ValidJumps(g[b], |g|);
    ReadsSame(syms, g[b].code, h[b].code, y);
    ReadsSame(syms, h[b].code, g[b].code, y);
    if n > 0 {
      if g[b].jump0.Some? {
        ReadWithinSame(syms, g, h, g[b].jump0.value, y, n - 1);
      }
      if g[b].jump1.Some? {
        ReadWithinSame(syms, g, h, g[b].jump1.value, y, n - 1);
      }
    }
  }

  // ---------- The analysis finds what may be read ----------

  /** What is live before a block, from what is recorded for its successors. */
  lemma {:induction false} BlockInIff(syms: seq<Symbol>, idx: Index, g: Graph, b: nat, y: nat)
    requires Numbered(syms, idx, y) && ValidGraph(g) && b < |g| && ReadyBlock(syms, idx, g[b])
    ensures idx[y] - 1 in Analysed(syms, idx, g, b).liveIn <==>
      || CodeReads(syms, g[b].code, y)
      || (!CodeStores(syms, g[b].code, y) && (ExitReads(g[b], y) || idx[y] - 1 in OutOf(g, b)))
  {
    var out := OutOf(g, b);
    if UsesExpr(g[b]) {
      UseIff(syms, idx, g[b].expr, y);
    }
    BackwardIff(syms, idx, g[b].code, EndOf(syms, idx, g[b], out), y);
  }

  /** A solution has every symbol that may be read. */
  lemma {:induction false} SolvedHasRead(syms: seq<Symbol>, idx: Index, g: Graph, list: seq<nat>, b: nat, y: nat, n: nat)
    requires Numbered(syms, idx, y) && ValidGraph(g) && ReadyList(syms, idx, g, list) && Closed(g, list)
    requires forall i :: 0 <= i < |list| ==> Solved(syms, idx, g, list[i])
    requires b in list && b < |g| && ReadWithin(syms, g, b, y, n)
    ensures idx[y] - 1 in g[b].liveIn
    decreases n
  {
    var i :| 0 <= i < |list| && list[i] == b;
    assert Solved(syms, idx, g, b) && ClosedAt(g, list, b) && ValidJumps(g[b], |g|);
    BlockInIff(syms, idx, g, b, y);
    if !CodeReads(syms, g[b].code, y) && !ExitReads(g[b], y) {
      var next := ReadNext(syms, g, b, y, n);
      SolvedHasRead(syms, idx, g, list, next, y, n - 1);
    }
  }

  /** What is read, but neither in the block nor on leaving it, is read after a jump. */
  lemma {:induction false} ReadNext(syms: seq<Symbol>, g: Graph, b: nat, y: nat, n: nat) returns (next: nat)
    requires ValidGraph(g) && b < |g| && ReadWithin(syms, g, b, y, n)
    requires !CodeReads(syms, g[b].code, y) && !ExitReads(g[b], y)
    ensures n > 0 && !CodeStores(syms, g[b].code, y) && next < |g| && ReadWithin(syms, g, next, y, n - 1)
    ensures g[b].jump0 == Some(next) || g[b].jump1 == Some(next)
  {
    assert ValidJumps(g[b], |g|);
    next := if g[b].jump0.Some? && ReadWithin(syms, g, g[b].jump0.value, y, n - 1) then g[b].jump0.value else g[b].jump1.value;
  }

  /** The recorded set of the block has only symbols that may be read. */
  ghost predicate Witnessed(syms: seq<Symbol>, idx: Index, g: Graph, b: nat)
    requires ValidGraph(g) && b < |g|
  {
    forall y: nat :: Numbered(syms, idx, y) && idx[y] - 1 in g[b].liveIn ==> MayBeRead(syms, g, b, y)
  }

  ghost predicate AllWitnessed(syms: seq<Symbol>, idx: Index, g: Graph, list: seq<nat>)
    requires ValidGraph(g) && forall i :: 0 <= i < |list| ==> list[i] < |g|
  {
    forall i :: 0 <= i < |list| ==> Witnessed(syms, idx, g, list[i])
  }

  /** The analysis of a block takes nothing up but what may be read. */
  lemma {:induction false} AnalysedWitnessed(syms: seq<Symbol>, idx: Index, g: Graph, list: seq<nat>, b: nat, y: nat)
    requires Numbered(syms, idx, y) && ValidGraph(g) && ReadyList(syms, idx, g, list) && Closed(g, list)
    requires AllWitnessed(syms, idx, g, list) && b in list && b < |g|
    requires idx[y] - 1 in Analysed(syms, idx, g, b).liveIn
    ensures MayBeRead(syms, g, b, y)
  {
    assert ClosedAt(g, list, b) && ValidJumps(g[b], |g|);
    BlockInIff(syms, idx, g, b, y);
    var n: nat := 0;
    if idx[y] - 1 in OutOf(g, b) {
      var next := if idx[y] - 1 in g[g[b].jump0.value].liveIn then g[b].jump0.value else g[b].jump1.value;
      assert next in list && Witnessed(syms, idx, g, next);
      var k: nat :| ReadWithin(syms, g, next, y, k);
      n := k + 1;
    }
    assert ReadWithin(syms, g, b, y, n);
  }

  /** Solving a block keeps it so for all. */
  lemma {:induction false} SolvingWitnessed(
    syms: seq<Symbol>, idx: Index, g: Graph, list: seq<nat>, b: nat, h: Graph)
    requires ValidIndex(idx, syms) && ValidGraph(g) && ReadyList(syms, idx, g, list) && Closed(g, list)
    requires AllWitnessed(syms, idx, g, list) && b in list && b < |g| && h == g[b := Analysed(syms, idx, g, b)]
    ensures ValidGraph(h) && Closed(h, list) && AllWitnessed(syms, idx, h, list)
  {
    SameProgramReady(syms, idx, g, h, list);
    forall i | 0 <= i < |list|
      ensures Witnessed(syms, idx, h, list[i])
    {
      assert Witnessed(syms, idx, g, list[i]);
      forall y: nat | Numbered(syms, idx, y) && idx[y] - 1 in h[list[i]].liveIn
        ensures MayBeRead(syms, h, list[i], y)
      {
        if list[i] == b {
          AnalysedWitnessed(syms, idx, g, list, b, y);
        }
        var n: nat :| ReadWithin(syms, g, list[i], y, n);
        ReadWithinSame(syms, g, h, list[i], y, n);
      }
    }
  }

  /** The recorded sets say exactly what may be read. */
  ghost predicate ExactlyLive(syms: seq<Symbol>, idx: Index, g: Graph, list: seq<nat>)
    requires ValidGraph(g)
  {
    forall b: nat, y: nat :: b in list && b < |g| && Numbered(syms, idx, y) ==>
      (idx[y] - 1 in g[b].liveIn <==> MayBeRead(syms, g, b, y))
  }

  lemma {:induction false} SolvedIsExact(syms: seq<Symbol>, idx: Index, g: Graph, list: seq<nat>)
    requires ValidIndex(idx, syms) && ValidGraph(g) && ReadyList(syms, idx, g, list) && Closed(g, list)
    requires (forall i :: 0 <= i < |list| ==> Solved(syms, idx, g, list[i])) && AllWitnessed(syms, idx, g, list)
    ensures ExactlyLive(syms, idx, g, list)
  {
    forall b: nat, y: nat | b in list && b < |g| && Numbered(syms, idx, y)
      ensures idx[y] - 1 in g[b].liveIn <==> MayBeRead(syms, g, b, y)
    {
      assert Witnessed(syms, idx, g, b);
      if n: nat :| ReadWithin(syms, g, b, y, n) {
        SolvedHasRead(syms, idx, g, list, b, y, n);
      }
    }
  }

  // ---------- Which stores die ----------

  /** After the i-th statement of the block the symbol may be read, before it is stored to. */
  ghost predicate ReadAfter(syms: seq<Symbol>, g: Graph, b: nat, i: nat, y: nat)
    requires ValidGraph(g) && b < |g| && i < |g[b].code|
  {
    assert ValidJumps(g[b], |g|);
    var rest := g[b].code[i + 1..];
    || CodeReads(syms, rest, y)
    || (!CodeStores(syms, rest, y) &&
          (|| ExitReads(g[b], y)
           || (g[b].jump0.Some? && MayBeRead(syms, g, g[b].jump0.value, y))
           || (g[b].jump1.Some? && MayBeRead(syms, g, g[b].jump1.value, y))))
  }

  lemma {:induction false} AnnotatedOut(syms: seq<Symbol>, idx: Index, c: seq<Statement>, end: Bits, i: nat)
    requires |idx| == |syms| && ReadyCode(syms, idx, c) && i < |c|
    ensures Annotate(syms, idx, c, end)[i].out == Backward(syms, idx, c[i + 1..], end)
  {
    if i > 0 {
      AnnotatedOut(syms, idx, c[1..], end, i - 1);
      assert c[1..][i..] == c[i + 1..];
    }
  }

  /** With exact sets, the set after a statement has exactly what may be read after it. */
  lemma {:induction false} OutIff(syms: seq<Symbol>, idx: Index, g: Graph, list: seq<nat>, b: nat, i: nat, y: nat)
    requires Numbered(syms, idx, y) && ValidGraph(g) && ReadyList(syms, idx, g, list) && Closed(g, list)
    requires ExactlyLive(syms, idx, g, list) && b in list && b < |g| && Solved(syms, idx, g, b) && i < |g[b].code|
    ensures idx[y] - 1 in g[b].code[i].out <==> ReadAfter(syms, g, b, i, y)
  {
    assert ClosedAt(g, list, b) && ValidJumps(g[b], |g|);
    var c, end := g[b].code, EndOf(syms, idx, g[b], OutOf(g, b));
    AnnotatedOut(syms, idx, c, end, i);
    if UsesExpr(g[b]) {
      UseIff(syms, idx, g[b].expr, y);
    }
    BackwardIff(syms, idx, c[i + 1..], end, y);
  }

  /** Of the stores to local objects, exactly those are taken for dead whose object no
      path reads afterwards; no other statement is. */
  lemma {:induction false} DeadIff(syms: seq<Symbol>, idx: Index, g: Graph, list: seq<nat>, b: nat, i: nat)
    requires ValidIndex(idx, syms) && ValidGraph(g) && ReadyList(syms, idx, g, list) && Closed(g, list)
    requires ExactlyLive(syms, idx, g, list) && b in list && b < |g| && Solved(syms, idx, g, b) && i < |g[b].code|
    ensures var s := g[b].code[i];
      && ValidStatement(s, syms)
      && (IsDeadStore(syms, idx, s) <==>
            && s.st == Assign && s.t.kind == Direct && syms[s.t.symbol.value].linkage == LinkNone
            && !ReadAfter(syms, g, b, i, s.t.symbol.value))
  {
    var s := g[b].code[i];
    assert ReadyBlock(syms, idx, g[b]) && Ready(syms, idx, s);
    if s.st == Assign && s.t.kind == Direct {
      OutIff(syms, idx, g, list, b, i, s.t.symbol.value);
    }
  }
}
