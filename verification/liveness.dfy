/**
  Backward liveness analysis: the sets it computes for operands, statements and
  blocks, the equations a solution meets, and what being dead means for a run.
*/
module Liveness {
  import opened Ir
  import opened IrSemantics

  /** Number given to each symbol, from 1; 0 means not numbered. */
  type Index = seq<nat>

  predicate ValidIndex(idx: Index, syms: seq<Symbol>) {
    && |idx| == |syms|
    && (forall x :: 0 <= x < |idx| ==> idx[x] <= 64 && (IsFunction(syms[x].ty) ==> idx[x] == 0))
    && (forall x, y :: 0 <= x < |idx| && 0 <= y < |idx| && idx[x] == idx[y] != 0 ==> x == y)
  }

  // ---------- Sets of one operand, expression, statement ----------

  /** Symbols surely overwritten by writing the variable. */
  function SetDefBit(syms: seq<Symbol>, idx: Index, v: Var): Bits
    requires |idx| == |syms| && ValidVar(v, syms)
  {
    if v.kind == Direct && IsScalar(syms[v.symbol.value].ty) && idx[v.symbol.value] != 0
    then {idx[v.symbol.value] - 1}
    else {}
  }

  /** Symbols possibly read by reading the variable. */
  function SetUseBit(syms: seq<Symbol>, idx: Index, v: Var): Bits
    requires |idx| == |syms| && ValidVar(v, syms)
  {
    if v.kind == Deref then ALL_BITS
    else if v.symbol.Some? && IsObject(syms[v.symbol.value].ty) && idx[v.symbol.value] != 0
    then {idx[v.symbol.value] - 1}
    else {}
  }

  function Use(syms: seq<Symbol>, idx: Index, e: Expr): Bits
    requires |idx| == |syms| && ValidExpr(e, syms)
  {
    SetUseBit(syms, idx, e.l) + if IsUnary(e.op) then {} else SetUseBit(syms, idx, e.r)
  }

  function Uses(syms: seq<Symbol>, idx: Index, s: Statement): Bits
    requires |idx| == |syms| && ValidStatement(s, syms)
  {
    Use(syms, idx, s.expr) +
    (if s.st == Assign && s.t.kind == Deref && s.t.symbol.Some?
       && IsObject(syms[s.t.symbol.value].ty) && idx[s.t.symbol.value] != 0
     then {idx[s.t.symbol.value] - 1}
     else if s.st == Param && IsOrHasPointer(s.expr.ty) then ALL_BITS
     else {})
  }

  function Def(syms: seq<Symbol>, idx: Index, s: Statement): Bits
    requires |idx| == |syms| && ValidStatement(s, syms)
  {
    if s.st == Assign then SetDefBit(syms, idx, s.t) else {}
  }

  predicate IsLiveAfter(syms: seq<Symbol>, idx: Index, x: nat, out: Bits)
    requires |idx| == |syms| && x < |syms|
  {
    IsObject(syms[x].ty) ==> idx[x] == 0 || idx[x] - 1 in out
  }

  // ---------- Numbering ----------

  /** Every object the variable mentions has a number. */
  predicate NumberedVar(syms: seq<Symbol>, idx: Index, v: Var)
    requires |idx| == |syms| && ValidVar(v, syms)
  {
    v.symbol.Some? && IsObject(syms[v.symbol.value].ty) ==> idx[v.symbol.value] != 0
  }

  predicate NumberedExpr(syms: seq<Symbol>, idx: Index, e: Expr)
    requires |idx| == |syms| && ValidExpr(e, syms)
  {
    NumberedVar(syms, idx, e.l) && (!IsUnary(e.op) ==> NumberedVar(syms, idx, e.r))
  }

  predicate NumberedStatement(syms: seq<Symbol>, idx: Index, s: Statement)
    requires |idx| == |syms| && ValidStatement(s, syms)
  {
    NumberedExpr(syms, idx, s.expr) && (s.st == Assign ==> NumberedVar(syms, idx, s.t))
  }

  /** A statement the analysis may look at. */
  predicate Ready(syms: seq<Symbol>, idx: Index, s: Statement)
    requires |idx| == |syms|
  {
    ValidStatement(s, syms) && NumberedStatement(syms, idx, s)
  }

  predicate ReadyCode(syms: seq<Symbol>, idx: Index, c: seq<Statement>)
    requires |idx| == |syms|
  {
    forall i :: 0 <= i < |c| ==> Ready(syms, idx, c[i])
  }

  predicate ReadyBlock(syms: seq<Symbol>, idx: Index, b: Block)
    requires |idx| == |syms|
  {
    && ReadyCode(syms, idx, b.code)
    && (UsesExpr(b) ==> ValidExpr(b.expr, syms) && NumberedExpr(syms, idx, b.expr))
  }

  // ---------- Equations ----------

  function Transfer(syms: seq<Symbol>, idx: Index, s: Statement, out: Bits): Bits
    requires |idx| == |syms| && ValidStatement(s, syms)
  {
    (out - Def(syms, idx, s)) + Uses(syms, idx, s)
  }

  /** Live before the code, going by the recorded set of its first statement. */
  function LiveBefore(syms: seq<Symbol>, idx: Index, c: seq<Statement>, end: Bits): Bits
    requires |idx| == |syms| && ReadyCode(syms, idx, c)
  {
    if c == [] then end else Transfer(syms, idx, c[0], c[0].out)
  }

  /** Every recorded set covers what the code after it needs. */
  predicate Annotated(syms: seq<Symbol>, idx: Index, c: seq<Statement>, end: Bits)
    requires |idx| == |syms| && ReadyCode(syms, idx, c)
  {
    c != [] ==> LiveBefore(syms, idx, c[1..], end) <= c[0].out && Annotated(syms, idx, c[1..], end)
  }

  /** Live before the code, computed afresh from what is live after it. */
  function Backward(syms: seq<Symbol>, idx: Index, c: seq<Statement>, end: Bits): Bits
    requires |idx| == |syms| && ReadyCode(syms, idx, c)
  {
    if c == [] then end else Transfer(syms, idx, c[0], Backward(syms, idx, c[1..], end))
  }

  /** The code with every recorded set solved. */
  function Annotate(syms: seq<Symbol>, idx: Index, c: seq<Statement>, end: Bits): (d: seq<Statement>)
    requires |idx| == |syms| && ReadyCode(syms, idx, c)
    ensures |d| == |c| && ReadyCode(syms, idx, d)
    ensures forall i :: 0 <= i < |c| ==> d[i] == c[i].(out := d[i].out)
  {
    if c == [] then []
    else [c[0].(out := Backward(syms, idx, c[1..], end))] + Annotate(syms, idx, c[1..], end)
  }

  /** Union of what the successors need. */
  function OutOf(g: Graph, b: nat): Bits
    requires ValidGraph(g) && b < |g|
  {
    assert ValidJumps(g[b], |g|);
    if g[b].jump0.None? then {}
    else g[g[b].jump0.value].liveIn + if g[b].jump1.None? then {} else g[g[b].jump1.value].liveIn
  }

  /** Live at the end of the block's code: its out set and what leaving reads. */
  function EndOf(syms: seq<Symbol>, idx: Index, b: Block, out: Bits): Bits
    requires |idx| == |syms| && ReadyBlock(syms, idx, b)
  {
    out + if UsesExpr(b) then Use(syms, idx, b.expr) else {}
  }

  /** The block with all of its sets solved from its successors' in sets. */
  function Analysed(syms: seq<Symbol>, idx: Index, g: Graph, b: nat): Block
    requires ValidGraph(g) && b < |g| && |idx| == |syms| && ReadyBlock(syms, idx, g[b])
  {
    var out := OutOf(g, b);
    var end := EndOf(syms, idx, g[b], out);
    g[b].(code := Annotate(syms, idx, g[b].code, end),
          liveIn := Backward(syms, idx, g[b].code, end),
          liveOut := out)
  }

  ghost predicate Solved(syms: seq<Symbol>, idx: Index, g: Graph, b: nat)
    requires ValidGraph(g) && b < |g| && |idx| == |syms| && ReadyBlock(syms, idx, g[b])
  {
    g[b] == Analysed(syms, idx, g, b)
  }

  /** Every set of the block covers its equation's right side. */
  ghost predicate Sound(syms: seq<Symbol>, idx: Index, g: Graph, b: nat)
    requires ValidGraph(g) && b < |g| && |idx| == |syms| && ReadyBlock(syms, idx, g[b])
  {
    var end := EndOf(syms, idx, g[b], g[b].liveOut);
    && OutOf(g, b) <= g[b].liveOut
    && Annotated(syms, idx, g[b].code, end)
    && LiveBefore(syms, idx, g[b].code, end) <= g[b].liveIn
  }

  lemma {:induction false} AnnotateIsExact(syms: seq<Symbol>, idx: Index, c: seq<Statement>, end: Bits)
    requires |idx| == |syms| && ReadyCode(syms, idx, c)
    ensures Annotated(syms, idx, Annotate(syms, idx, c, end), end)
    ensures LiveBefore(syms, idx, Annotate(syms, idx, c, end), end) == Backward(syms, idx, c, end)
  {
    if c != [] {
      AnnotateIsExact(syms, idx, c[1..], end);
      assert Annotate(syms, idx, c, end)[1..] == Annotate(syms, idx, c[1..], end);
    }
  }

  lemma {:induction false} BackwardCodeOnly(syms: seq<Symbol>, idx: Index, c: seq<Statement>, d: seq<Statement>, end: Bits)
    requires |idx| == |syms| && ReadyCode(syms, idx, c) && ReadyCode(syms, idx, d)
    requires |c| == |d| && forall i :: 0 <= i < |c| ==> d[i] == c[i].(out := d[i].out)
    ensures Backward(syms, idx, c, end) == Backward(syms, idx, d, end)
  {
    if c != [] {
      BackwardCodeOnly(syms, idx, c[1..], d[1..], end);
    }
  }

  lemma {:induction false} BackwardMonotone(syms: seq<Symbol>, idx: Index, c: seq<Statement>, a: Bits, b: Bits)
    requires |idx| == |syms| && ReadyCode(syms, idx, c) && a <= b
    ensures Backward(syms, idx, c, a) <= Backward(syms, idx, c, b)
  {
    if c != [] {
      BackwardMonotone(syms, idx, c[1..], a, b);
    }
  }

  /** A solution covers its equations. */
  lemma {:induction false} SolvedIsSound(syms: seq<Symbol>, idx: Index, g: Graph, b: nat)
    requires ValidGraph(g) && b < |g| && |idx| == |syms| && ReadyBlock(syms, idx, g[b])
    requires Solved(syms, idx, g, b)
    ensures Sound(syms, idx, g, b)
  {
    var end := EndOf(syms, idx, g[b], OutOf(g, b));
    AnnotateIsExact(syms, idx, g[b].code, end);
  }

  // ---------- What liveness means for a run ----------

  predicate Observed(syms: seq<Symbol>, idx: Index, live: Bits, x: nat)
    requires |idx| == |syms| && x < |syms|
  {
    idx[x] == 0 || idx[x] - 1 in live || syms[x].linkage != LinkNone
  }

  /** The environments agree on the live symbols, and on every symbol others can see. */
  ghost predicate Agree(syms: seq<Symbol>, idx: Index, live: Bits, a: Env, b: Env)
    requires |idx| == |syms|
  {
    && |a| == |b| == |syms|
    && forall x :: 0 <= x < |syms| && Observed(syms, idx, live, x) ==> a[x] == b[x]
  }

  ghost predicate Similar(syms: seq<Symbol>, idx: Index, live: Bits, s: State, t: State)
    requires |idx| == |syms|
  {
    Agree(syms, idx, live, s.env, t.env) && s.ext == t.ext && s.args == t.args && s.trace == t.trace
  }

  lemma {:induction false} AgreeAll(syms: seq<Symbol>, idx: Index, live: Bits, a: Env, b: Env)
    requires ValidIndex(idx, syms) && Agree(syms, idx, live, a, b) && ALL_BITS <= live
    ensures a == b
  {
    forall x | 0 <= x < |syms|
      ensures a[x] == b[x]
    {
      assert idx[x] == 0 || idx[x] - 1 in ALL_BITS;
    }
  }

  lemma {:induction false} SimilarMonotone(syms: seq<Symbol>, idx: Index, live: Bits, less: Bits, s: State, t: State)
    requires |idx| == |syms| && Similar(syms, idx, live, s, t) && less <= live
    ensures Similar(syms, idx, less, s, t)
  {
  }

  lemma {:induction false} EvalVarSimilar(m: Machine, syms: seq<Symbol>, idx: Index, v: Var, live: Bits, s: State, t: State)
    requires ValidIndex(idx, syms) && ValidVar(v, syms) && NumberedVar(syms, idx, v)
    requires Similar(syms, idx, live, s, t) && SetUseBit(syms, idx, v) <= live
    ensures EvalVar(m, syms, v, s) == EvalVar(m, syms, v, t)
  {
    if v.kind == Deref {
      AgreeAll(syms, idx, live, s.env, t.env);
    } else if v.kind == Direct {
      var x := v.symbol.value;
      assert idx[x] == 0 || idx[x] - 1 in SetUseBit(syms, idx, v);
      assert Observed(syms, idx, live, x);
    }
  }

  lemma {:induction false} GlobalsAgree(syms: seq<Symbol>, idx: Index, live: Bits, a: Env, b: Env)
    requires |idx| == |syms| && Agree(syms, idx, live, a, b)
    ensures Globals(syms, a) == Globals(syms, b)
  {
    forall x | 0 <= x < |syms|
      ensures Globals(syms, a)[x] == Globals(syms, b)[x]
    {
      if syms[x].linkage != LinkNone {
        assert Observed(syms, idx, live, x);
      }
    }
  }

  /** Evaluating an expression that reads only live symbols. */
  lemma {:induction false} EvalExprSimilar(m: Machine, syms: seq<Symbol>, idx: Index, e: Expr, live: Bits, s: State, t: State)
    requires ValidIndex(idx, syms) && ValidExpr(e, syms) && NumberedExpr(syms, idx, e)
    requires Similar(syms, idx, live, s, t) && Use(syms, idx, e) <= live
    ensures EvalExpr(m, syms, e, s).1 == EvalExpr(m, syms, e, t).1
    ensures Similar(syms, idx, live, EvalExpr(m, syms, e, s).0, EvalExpr(m, syms, e, t).0)
  {
    EvalVarSimilar(m, syms, idx, e.l, live, s, t);
    if e.op == Call {
      GlobalsAgree(syms, idx, live, s.env, t.env);
    } else if !IsUnary(e.op) {
      EvalVarSimilar(m, syms, idx, e.r, live, s, t);
    }
  }

  /** A local scalar is written as a whole, as SetDefBit takes for granted. */
  predicate WritesAll(syms: seq<Symbol>, t: Var)
    requires ValidTarget(t, syms)
  {
    t.kind == Direct && IsScalar(syms[t.symbol.value].ty) && syms[t.symbol.value].linkage == LinkNone ==>
      Covers(syms[t.symbol.value].ty, t)
  }

  /** An argument that lets the callee reach memory is recognised as one. */
  predicate ShowsPointer(e: Expr) {
    ContainsPointer(e.ty) ==> IsOrHasPointer(e.ty)
  }

  /** The set says that every symbol may be read. */
  predicate SeesAll(syms: seq<Symbol>, idx: Index, live: Bits)
    requires |idx| == |syms|
  {
    forall x :: 0 <= x < |syms| ==> Observed(syms, idx, live, x)
  }

  /** The analysis is right about the statement before the given live symbols: a store
      to a part of a scalar reads it as well, or nobody reads it afterwards, and a
      pointer is recognised in an argument, or everything is live anyway. */
  predicate Plain(syms: seq<Symbol>, idx: Index, s: Statement, out: Bits)
    requires |idx| == |syms| && ValidStatement(s, syms)
  {
    && (s.st == Assign ==>
          WritesAll(syms, s.t) || Def(syms, idx, s) <= Uses(syms, idx, s) || Def(syms, idx, s) !! out)
    && (s.st == Param ==> ShowsPointer(s.expr) || SeesAll(syms, idx, Transfer(syms, idx, s, out)))
  }

  /** The analysis is right about all of the code, by its recorded sets. */
  predicate PlainCode(syms: seq<Symbol>, idx: Index, c: seq<Statement>)
    requires |idx| == |syms| && ReadyCode(syms, idx, c)
  {
    forall i :: 0 <= i < |c| ==> Plain(syms, idx, c[i], c[i].out)
  }

  lemma {:induction false} StoreSimilar(m: Machine, syms: seq<Symbol>, idx: Index, d: Var, v: Val, live: Bits, s: State, t: State)
    requires Lawful(m) && ValidIndex(idx, syms) && ValidTarget(d, syms) && NumberedVar(syms, idx, d)
    requires Similar(syms, idx, live - SetDefBit(syms, idx, d), s, t)
    requires WritesAll(syms, d) || Similar(syms, idx, live, s, t)
    requires d.kind == Deref && d.symbol.Some? ==> s.env[d.symbol.value] == t.env[d.symbol.value]
    ensures Similar(syms, idx, live, Store(m, syms, d, v, s), Store(m, syms, d, v, t))
  {
    var s', t' := Store(m, syms, d, v, s), Store(m, syms, d, v, t);
    if d.kind == Direct {
      var x := d.symbol.value;
      forall y | 0 <= y < |syms| && Observed(syms, idx, live, y)
        ensures s'.env[y] == t'.env[y]
      {
        if y == x {
          if !WritesAll(syms, d) {
            assert s.env[x] == t.env[x];
          } else if IsScalar(syms[x].ty) && syms[x].linkage == LinkNone {
            assert Overwrites(m, syms[x].ty, Place(d), s.env[x], t.env[x], Kept(m, d, v));
          } else {
            assert Observed(syms, idx, live - SetDefBit(syms, idx, d), x);
          }
        } else {
          assert Observed(syms, idx, live - SetDefBit(syms, idx, d), y);
        }
      }
    } else {
      assert SetDefBit(syms, idx, d) == {};
      assert live - {} == live;
    }
  }

  /** One statement: what is live after it depends only on what is live before it. */
  lemma {:induction false} StatementSimilar(m: Machine, syms: seq<Symbol>, idx: Index, c: Statement, out: Bits, s: State, t: State)
    requires Lawful(m) && ValidIndex(idx, syms) && Ready(syms, idx, c) && Plain(syms, idx, c, out)
    requires Similar(syms, idx, Transfer(syms, idx, c, out), s, t)
    ensures Similar(syms, idx, out, ExecStatement(m, syms, c, s), ExecStatement(m, syms, c, t))
  {
    var live := Transfer(syms, idx, c, out);
    EvalExprSimilar(m, syms, idx, c.expr, live, s, t);
    var s1, t1 := EvalExpr(m, syms, c.expr, s).0, EvalExpr(m, syms, c.expr, t).0;
    match c.st
    case ExprStmt =>
    case Param =>
      if ContainsPointer(c.expr.ty) {
        if IsOrHasPointer(c.expr.ty) {
          AgreeAll(syms, idx, live, s1.env, t1.env);
        } else {
          assert forall x :: 0 <= x < |syms| ==> Observed(syms, idx, live, x);
          assert s1.env == t1.env;
        }
      }
    case Assign =>
      var v := EvalExpr(m, syms, c.expr, s).1;
      SimilarMonotone(syms, idx, live, out - SetDefBit(syms, idx, c.t), s1, t1);
      if !WritesAll(syms, c.t) {
        SimilarMonotone(syms, idx, live, out, s1, t1);
      }
      if c.t.kind == Deref && c.t.symbol.Some? {
        assert Observed(syms, idx, live, c.t.symbol.value);
      }
      StoreSimilar(m, syms, idx, c.t, v, out, s1, t1);
  }

  /** A run of code from states that agree on what is live before it ends in
      states that agree on what is live after it, having done the same things. */
  lemma {:induction false} CodeSimilar(
    m: Machine, syms: seq<Symbol>, idx: Index, c: seq<Statement>, end: Bits, s: State, t: State)
    requires Lawful(m) && ValidIndex(idx, syms) && ReadyCode(syms, idx, c) && PlainCode(syms, idx, c)
    requires Annotated(syms, idx, c, end)
    requires Similar(syms, idx, LiveBefore(syms, idx, c, end), s, t)
    ensures Similar(syms, idx, end, ExecCode(m, syms, c, s), ExecCode(m, syms, c, t))
  {
    if c != [] {
      StatementSimilar(m, syms, idx, c[0], c[0].out, s, t);
      CodeSimilar(m, syms, idx, c[1..], end, ExecStatement(m, syms, c[0], s), ExecStatement(m, syms, c[0], t));
    }
  }
}
