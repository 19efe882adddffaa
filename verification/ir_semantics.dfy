/**
  What a control-flow graph does when it runs: which calls and stores it makes,
  and what it returns.  The target machine is a parameter, so that every result
  holds for all ways of computing operators, loads, stores and calls that keep a
  few laws about conversions, stores and bit-fields.
*/
module IrSemantics {
  import opened Options
  import opened Ir

  type Val = int
  type Env = seq<Val>     // one value per symbol
  type Ext = seq<int>     // memory outside the function's symbols

  /** An argument buffered by a PARAM statement; when it holds a pointer the
      callee can read the memory as it was at that point. */
  datatype Arg = Arg(value: Val, memory: Option<Env>)

  datatype CallInput = CallInput(callee: Val, args: seq<Arg>, globals: Env, ext: Ext)

  datatype Event =
    | CallEvent(input: CallInput)
    | StoreEvent(target: Var, pointer: Val, value: Val)
    | GlobalEvent(symbol: nat, target: Var, value: Val)

  datatype State = State(env: Env, ext: Ext, args: seq<Arg>, trace: seq<Event>)

  datatype Machine = Machine(
    convert: (Type, Val) -> Val,
    unary: (Op, Type, Val) -> Val,
    binary: (Op, Type, Val, Val) -> Val,
    address: nat -> Val,
    plus: (Val, nat) -> Val,
    field: (Type, nat, Val) -> Val,           // the low bits that a bit-field keeps
    get: (Type, Var, Val) -> Val,             // part of an object's value
    put: (Type, Var, Val, Val) -> Val,        // object's value with a part replaced
    load: (Env, Ext, Var, Val) -> Val,        // through a pointer: may read anything
    storeSymbol: (nat, Val, Var, Val, Val) -> Val,  // effect of a pointer store on one symbol
    storeExt: (Ext, Var, Val, Val) -> Ext,
    callResult: CallInput -> Val,
    callSymbol: (nat, Val, CallInput) -> Val, // effect of a call on one symbol
    callExt: CallInput -> Ext,
    truth: Val -> bool)

  /** Where a variable is; a reference to storage carries no immediate value. */
  function Place(v: Var): Var { v.(imm := 0) }

  /** The variable takes in all of a scalar object of the given type; what a larger
      one does to the object's neighbours is not looked at. */
  predicate Covers(objectType: Type, v: Var) {
    IsScalar(objectType) && SizeOf(v.ty) >= SizeOf(objectType) && v.offset == 0 && v.fieldWidth == 0
  }

  /** What storing at the variable keeps of a value. */
  function Kept(m: Machine, v: Var, x: Val): Val {
    if v.fieldWidth == 0 then x else m.field(v.ty, v.fieldWidth, x)
  }

  /** A stored value reads back at its own place: whole objects convert it to the
      type it is stored at, bit-fields give what they kept. */
  predicate ReadsBack(m: Machine, t: Type, v: Var, a: Val, x: Val) {
    m.get(t, v, m.put(t, v, a, Kept(m, v, x))) == if v.fieldWidth == 0 then m.convert(v.ty, x) else Kept(m, v, x)
  }

  /** Storing to a whole object leaves nothing of its old value. */
  predicate Overwrites(m: Machine, t: Type, v: Var, a: Val, b: Val, x: Val) {
    Covers(t, v) ==> m.put(t, v, a, x) == m.put(t, v, b, x)
  }

  predicate Idempotent(m: Machine, t: Type, x: Val) {
    m.convert(t, m.convert(t, x)) == m.convert(t, x)
  }

  /** What a bit-field keeps fits the field's type, if its width does. */
  predicate FieldFits(m: Machine, t: Type, width: nat, x: Val) {
    0 < width <= FieldBits(t) ==> m.convert(t, m.field(t, width, x)) == m.field(t, width, x)
  }

  /** A bit-field looks at no more of the low bits than it is wide, and keeps all of
      these if its type has so many. */
  predicate KeepsLowBits(m: Machine, t: Type, width: nat, wide: Type, more: nat, x: Val) {
    0 < width <= more <= FieldBits(wide) ==> m.field(t, width, m.field(wide, more, x)) == m.field(t, width, x)
  }

  /** What is assumed of the machine; TargetMachine says that integers in two's
      complement, bit-fields and bytes in memory meet it. */
  ghost predicate Lawful(m: Machine) {
    && (forall t, x :: Idempotent(m, t, x))
    && (forall t, v, a, b, x :: Overwrites(m, t, v, a, b, x))
    && (forall t, v, a, x :: ReadsBack(m, t, v, a, x))
    && (forall t, n: nat, x :: FieldFits(m, t, n, x))
    && (forall t, n: nat, wide, more: nat, x :: KeepsLowBits(m, t, n, wide, more, x))
  }

  /** The environment with every symbol of no linkage masked out. */
  function Globals(syms: seq<Symbol>, env: Env): (g: Env)
    ensures |g| == |env|
  {
    seq(|env|, x requires 0 <= x < |env| =>
      if x < |syms| && syms[x].linkage != LinkNone then env[x] else 0)
  }

  function PointerValue(m: Machine, syms: seq<Symbol>, v: Var, env: Env): Val
  {
    match v.symbol
    case None => v.imm
    case Some(p) => if p < |env| && p < |syms| then env[p] else 0
  }

  function EvalVar(m: Machine, syms: seq<Symbol>, v: Var, st: State): Val
  {
    match v.kind
    case Immediate => m.plus(if v.symbol.Some? then m.address(v.symbol.value) else v.imm, v.offset)
    case Address => m.plus(if v.symbol.Some? then m.address(v.symbol.value) else 0, v.offset)
    case Deref => m.load(st.env, st.ext, v, PointerValue(m, syms, v, st.env))
    case Direct =>
      if v.symbol.Some? && v.symbol.value < |st.env| && v.symbol.value < |syms|
      then m.get(syms[v.symbol.value].ty, Place(v), st.env[v.symbol.value]) else 0
  }

  function CallInputOf(syms: seq<Symbol>, callee: Val, st: State): CallInput {
    CallInput(callee, st.args, Globals(syms, st.env), st.ext)
  }

  function DoCall(m: Machine, syms: seq<Symbol>, callee: Val, st: State): (State, Val) {
    var input := CallInputOf(syms, callee, st);
    var env := seq(|st.env|, x requires 0 <= x < |st.env| => m.callSymbol(x, st.env[x], input));
    (State(env, m.callExt(input), [], st.trace + [CallEvent(input)]), m.callResult(input))
  }

  /** Evaluate an expression: the state after it (changed only by a call) and
      its value, which always fits the expression's type. */
  function EvalExpr(m: Machine, syms: seq<Symbol>, e: Expr, st: State): (State, Val) {
    var l := EvalVar(m, syms, e.l, st);
    if e.op == Call then
      var (st', v) := DoCall(m, syms, l, st);
      (st', m.convert(e.ty, v))
    else if e.op == Cast then
      (st, m.convert(e.ty, l))
    else if e.op == Not || e.op == Neg then
      (st, m.convert(e.ty, m.unary(e.op, e.ty, l)))
    else
      (st, m.convert(e.ty, m.binary(e.op, e.ty, l, EvalVar(m, syms, e.r, st))))
  }

  function Store(m: Machine, syms: seq<Symbol>, t: Var, v: Val, st: State): State {
    var kept := Kept(m, t, v);
    if t.kind == Direct then
      if t.symbol.Some? && t.symbol.value < |st.env| && t.symbol.value < |syms| then
        var x := t.symbol.value;
        st.(env := st.env[x := m.put(syms[x].ty, Place(t), st.env[x], kept)],
            trace := if syms[x].linkage == LinkNone then st.trace
                     else st.trace + [GlobalEvent(x, t, kept)])
      else st
    else
      var p := PointerValue(m, syms, t, st.env);
      State(
        seq(|st.env|, x requires 0 <= x < |st.env| => m.storeSymbol(x, st.env[x], t, p, kept)),
        m.storeExt(st.ext, t, p, kept), st.args, st.trace + [StoreEvent(t, p, kept)])
  }

  function ExecStatement(m: Machine, syms: seq<Symbol>, s: Statement, st: State): State {
    var (st1, v) := EvalExpr(m, syms, s.expr, st);
    match s.st
    case ExprStmt => st1
    case Param =>
      st1.(args := st1.args + [Arg(v, if ContainsPointer(s.expr.ty) then Some(st1.env) else None)])
    case Assign => Store(m, syms, s.t, v, st1)
  }

  function ExecCode(m: Machine, syms: seq<Symbol>, c: seq<Statement>, st: State): State {
    if c == [] then st else ExecCode(m, syms, c[1..], ExecStatement(m, syms, c[0], st))
  }

  /** What an observer has seen after running some number of blocks. */
  datatype Outcome =
    | Running(trace: seq<Event>)
    | Done(trace: seq<Event>, value: Option<Val>, globals: Env, ext: Ext)

  /** Leave block b in state st (its code already run): either the function is
      over, or control goes to another block. */
  datatype Exit = Return(outcome: Outcome) | Goto(block: nat, st: State)

  function ExitBlock(m: Machine, syms: seq<Symbol>, b: Block, st: State): Exit {
    if b.jump0.None? then
      if b.hasReturnValue then
        var (st', v) := EvalExpr(m, syms, b.expr, st);
        Return(Done(st'.trace, Some(v), Globals(syms, st'.env), st'.ext))
      else
        Return(Done(st.trace, None, Globals(syms, st.env), st.ext))
    else if b.jump1.None? then
      Goto(b.jump0.value, st)
    else
      var (st', v) := EvalExpr(m, syms, b.expr, st);
      Goto(if m.truth(v) then b.jump1.value else b.jump0.value, st')
  }

  function Run(m: Machine, syms: seq<Symbol>, g: Graph, b: nat, st: State, fuel: nat): Outcome
    requires ValidGraph(g) && b < |g|
    decreases fuel
  {
    if fuel == 0 then Running(st.trace)
    else
      assert ValidJumps(g[b], |g|);
      match ExitBlock(m, syms, g[b], ExecCode(m, syms, g[b].code, st))
      case Return(o) => o
      case Goto(next, st') => Run(m, syms, g, next, st', fuel - 1)
  }

  /** Some number of blocks of g shows the outcome. */
  ghost predicate Shows(m: Machine, syms: seq<Symbol>, g: Graph, entry: nat, st: State, o: Outcome)
    requires ValidGraph(g) && entry < |g|
  {
    exists k: nat :: Run(m, syms, g, entry, st, k) == o
  }

  /** Whatever g shows, h shows too. */
  ghost predicate Includes(m: Machine, syms: seq<Symbol>, g: Graph, h: Graph, entry: nat, st: State)
    requires ValidGraph(g) && entry < |g|
    requires ValidGraph(h) && entry < |h|
  {
    forall n: nat :: Shows(m, syms, h, entry, st, Run(m, syms, g, entry, st, n))
  }

  /** From every start state the two graphs show the same outcomes: the same
      traces, and, when they return, the same value and memory. */
  ghost predicate Equivalent(syms: seq<Symbol>, g: Graph, h: Graph, entry: nat)
    requires ValidGraph(g) && entry < |g|
    requires ValidGraph(h) && entry < |h|
  {
    forall m: Machine, st: State :: Lawful(m) && |st.env| == |syms| ==>
      Includes(m, syms, g, h, entry, st) && Includes(m, syms, h, g, entry, st)
  }

  lemma {:induction false} IncludesTransitive(m: Machine, syms: seq<Symbol>, f: Graph, g: Graph, h: Graph, entry: nat, st: State)
    requires ValidGraph(f) && ValidGraph(g) && ValidGraph(h)
    requires entry < |f| && entry < |g| && entry < |h|
    requires Includes(m, syms, f, g, entry, st) && Includes(m, syms, g, h, entry, st)
    ensures Includes(m, syms, f, h, entry, st)
  {
    forall n: nat
      ensures Shows(m, syms, h, entry, st, Run(m, syms, f, entry, st, n))
    {
      var o := Run(m, syms, f, entry, st, n);
      assert Shows(m, syms, g, entry, st, o);
      var k: nat :| Run(m, syms, g, entry, st, k) == o;
      assert Shows(m, syms, h, entry, st, Run(m, syms, g, entry, st, k));
    }
  }

  lemma {:induction false} EquivalentTransitive(syms: seq<Symbol>, f: Graph, g: Graph, h: Graph, entry: nat)
    requires ValidGraph(f) && ValidGraph(g) && ValidGraph(h)
    requires entry < |f| && entry < |g| && entry < |h|
    requires Equivalent(syms, f, g, entry) && Equivalent(syms, g, h, entry)
    ensures Equivalent(syms, f, h, entry)
  {
    forall m: Machine, st: State | Lawful(m) && |st.env| == |syms|
      ensures Includes(m, syms, f, h, entry, st) && Includes(m, syms, h, f, entry, st)
    {
      IncludesTransitive(m, syms, f, g, h, entry, st);
      IncludesTransitive(m, syms, h, g, f, entry, st);
    }
  }

  lemma {:induction false} ExecAppend(m: Machine, syms: seq<Symbol>, c: seq<Statement>, d: seq<Statement>, st: State)
    ensures ExecCode(m, syms, c + d, st) == ExecCode(m, syms, d, ExecCode(m, syms, c, st))
  {
    if c == [] {
      assert c + d == d;
    } else {
      assert (c + d)[1..] == c[1..] + d;
      ExecAppend(m, syms, c[1..], d, ExecStatement(m, syms, c[0], st));
    }
  }
}
