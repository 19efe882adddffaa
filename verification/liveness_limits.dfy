/**
  Where the liveness analysis stops being right about one statement: it takes
  every direct store to a scalar for an overwriting of all of it, and it does not
  look for pointers inside arrays.
*/
module LivenessLimits {
  import opened Options
  import opened Arith
  import opened Ir
  import opened IrSemantics
  import opened TargetMachine
  import opened ExampleCode
  import opened Liveness
  import opened Transform
  import opened Passes

  /** What the statement leaves of the symbols that are live after it depends only on
      those of the given set, and on what others can see. */
  ghost predicate SoundBefore(syms: seq<Symbol>, idx: Index, c: Statement, out: Bits, live: Bits)
    requires |idx| == |syms| && ValidStatement(c, syms)
  {
    forall m: Machine, s: State, t: State :: Lawful(m) ==> KeepsSimilar(m, syms, idx, c, live, out, s, t)
  }

  ghost predicate KeepsSimilar(
    m: Machine, syms: seq<Symbol>, idx: Index, c: Statement, live: Bits, out: Bits, s: State, t: State)
    requires |idx| == |syms| && ValidStatement(c, syms)
  {
    Similar(syms, idx, live, s, t) ==>
      Similar(syms, idx, out, ExecStatement(m, syms, c, s), ExecStatement(m, syms, c, t))
  }

  /** The set that the analysis computes is large enough. */
  ghost predicate TransferSound(syms: seq<Symbol>, idx: Index, c: Statement, out: Bits)
    requires |idx| == |syms| && ValidStatement(c, syms)
  {
    SoundBefore(syms, idx, c, out, Transfer(syms, idx, c, out))
  }

  // ---------- Stores to a part of a scalar ----------

  /** The low bit of anything. */
  function Low(v: Val): Val { v % 2 }

  /** A machine whose values are bits; storing to less than a whole scalar pushes
      the old value up by one bit. */
  function PushMachine(): Machine {
    Machine(
      (t: Type, v: Val) => Low(v), (o: Op, t: Type, v: Val) => Low(v), (o: Op, t: Type, v: Val, w: Val) => Low(v + w),
      (x: nat) => 0, (v: Val, n: nat) => v,
      (t: Type, n: nat, v: Val) => Low(v),
      (t: Type, v: Var, a: Val) => Low(a),
      (t: Type, v: Var, a: Val, x: Val) => if Covers(t, v) then Low(x) else Low(x) + 2 * a,
      (e: Env, x: Ext, v: Var, p: Val) => 0,
      (x: nat, a: Val, v: Var, p: Val, w: Val) => a, (x: Ext, v: Var, p: Val, w: Val) => x,
      (c: CallInput) => 0, (x: nat, a: Val, c: CallInput) => a, (c: CallInput) => c.ext,
      (v: Val) => v == 1)
  }

  lemma {:induction false} PushMachineLawful()
    ensures Lawful(PushMachine())
  {
    var m := PushMachine();
    assert forall t, x :: Idempotent(m, t, x);
    assert forall t, v, a, b, x :: Overwrites(m, t, v, a, b, x);
    assert forall t, v, a, x :: ReadsBack(m, t, v, a, x);
    assert forall t, n: nat, x :: FieldFits(m, t, n, x);
    assert forall t, n: nat, wide, more: nat, x :: KeepsLowBits(m, t, n, wide, more, x);
  }

  /** A store that the analysis takes to overwrite its target, and that does not
      read the target first. */
  predicate TakenForWhole(syms: seq<Symbol>, idx: Index, c: Statement)
    requires |idx| == |syms|
  {
    Ready(syms, idx, c) && c.st == Assign && Def(syms, idx, c) != {} && Def(syms, idx, c) !! Uses(syms, idx, c)
  }

  /** States that differ in one local symbol only. */
  function Holding(syms: seq<Symbol>, x: nat, a: Val): State {
    State(seq(|syms|, y => if y == x then a else 0), [], [], [])
  }

  lemma {:induction false} HoldingSimilar(syms: seq<Symbol>, idx: Index, live: Bits, x: nat, a: Val, b: Val)
    requires ValidIndex(idx, syms) && x < |syms| && !Observed(syms, idx, live, x)
    ensures Similar(syms, idx, live, Holding(syms, x, a), Holding(syms, x, b))
  {
  }

  /** What a store leaves in its target on the push machine. */
  lemma {:induction false} PushedStore(syms: seq<Symbol>, c: Statement, s: State)
    requires ValidStatement(c, syms) && c.st == Assign && c.t.kind == Direct && |s.env| == |syms|
    ensures var m, x := PushMachine(), c.t.symbol.value;
      ExecStatement(m, syms, c, s).env[x] ==
        Low(EvalExpr(m, syms, c.expr, s).1) + if Covers(syms[x].ty, c.t) then 0 else 2 * s.env[x]
  {
  }

  lemma {:induction false} PartialStoreUnsound(syms: seq<Symbol>, idx: Index, c: Statement, out: Bits)
    requires ValidIndex(idx, syms) && TakenForWhole(syms, idx, c) && !WritesAll(syms, c.t)
    requires Def(syms, idx, c) <= out
    ensures !TransferSound(syms, idx, c, out)
  {
    var m, x := PushMachine(), c.t.symbol.value;
    var live := Transfer(syms, idx, c, out);
    PushMachineLawful();
    var s, t := Holding(syms, x, 0), Holding(syms, x, 1);
    HoldingSimilar(syms, idx, live, x, 0, 1);
    EvalExprSimilar(m, syms, idx, c.expr, live, s, t);
    PushedStore(syms, c, s);
    PushedStore(syms, c, t);
    assert Observed(syms, idx, out, x);
    assert !KeepsSimilar(m, syms, idx, c, live, out, s, t);
  }

  /** An argument shows the callee a local that the analysis does not take for read. */
  lemma {:induction false} HiddenPointerUnsound(syms: seq<Symbol>, idx: Index, c: Statement, out: Bits, x: nat)
    requires ValidIndex(idx, syms) && Ready(syms, idx, c) && c.st == Param && !ShowsPointer(c.expr)
    requires x < |syms| && !Observed(syms, idx, Transfer(syms, idx, c, out), x)
    ensures !TransferSound(syms, idx, c, out)
  {
    var m := PushMachine();
    PushMachineLawful();
    var s, t := Holding(syms, x, 0), Holding(syms, x, 1);
    HoldingSimilar(syms, idx, Transfer(syms, idx, c, out), x, 0, 1);
    var s', t' := ExecStatement(m, syms, c, s), ExecStatement(m, syms, c, t);
    assert s'.args[|s'.args| - 1].memory.value[x] == 0;
    assert t'.args[|t'.args| - 1].memory.value[x] == 1;
    assert !KeepsSimilar(m, syms, idx, c, Transfer(syms, idx, c, out), out, s, t);
  }

  /** The analysis is right about a statement and what is live after it if and only if
      the statement is plain there: a store that is taken to overwrite a local scalar
      covers it, or reads it as well, or nobody reads it afterwards; and a pointer in
      an argument is not hidden inside an array, or everything is live anyway. */
  lemma {:induction false} TransferSoundIff(syms: seq<Symbol>, idx: Index, c: Statement, out: Bits)
    requires ValidIndex(idx, syms) && Ready(syms, idx, c)
    ensures TransferSound(syms, idx, c, out) <==> Plain(syms, idx, c, out)
  {
    if Plain(syms, idx, c, out) {
      forall m: Machine, s: State, t: State | Lawful(m)
        ensures KeepsSimilar(m, syms, idx, c, Transfer(syms, idx, c, out), out, s, t)
      {
        if Similar(syms, idx, Transfer(syms, idx, c, out), s, t) {
          StatementSimilar(m, syms, idx, c, out, s, t);
        }
      }
    } else if c.st == Assign {
      PartialStoreUnsound(syms, idx, c, out);
    } else {
      var x: nat :| x < |syms| && !Observed(syms, idx, Transfer(syms, idx, c, out), x);
      HiddenPointerUnsound(syms, idx, c, out, x);
    }
  }

  // ---------- Erasing the store before it ----------

  /** `a` and then `b` store to one local scalar, which is live after `b` and which
      `b` does not read; `a` does nothing else. */
  predicate StoredTwice(syms: seq<Symbol>, idx: Index, a: Statement, b: Statement)
    requires |idx| == |syms|
  {
    && Ready(syms, idx, a) && a.st == Assign && a.t.kind == Direct && !HasSideEffects(a.expr)
    && TakenForWhole(syms, idx, b) && a.t.symbol == b.t.symbol && syms[b.t.symbol.value].linkage == LinkNone
    && Def(syms, idx, b) <= b.out && a.out == Transfer(syms, idx, b, b.out)
  }

  /** No machine and no state can tell whether the dead stores were carried out. */
  ghost predicate ErasurePreserves(syms: seq<Symbol>, idx: Index, c: seq<Statement>, end: Bits)
    requires |idx| == |syms| && ReadyCode(syms, idx, c)
  {
    forall m: Machine, s: State :: Lawful(m) && |s.env| == |syms| ==> SameErased(m, syms, idx, c, end, s)
  }

  ghost predicate SameErased(m: Machine, syms: seq<Symbol>, idx: Index, c: seq<Statement>, end: Bits, s: State)
    requires |idx| == |syms| && ReadyCode(syms, idx, c)
  {
    Similar(syms, idx, end, ExecCode(m, syms, c, s), ExecCode(m, syms, Dse(syms, idx, c), s))
  }

  lemma {:induction false} ErasesFirst(syms: seq<Symbol>, idx: Index, a: Statement, b: Statement)
    requires ValidIndex(idx, syms) && StoredTwice(syms, idx, a, b)
    ensures ReadyCode(syms, idx, [a, b]) && Annotated(syms, idx, [a, b], b.out)
    ensures Dse(syms, idx, [a, b]) == [b]
  {
    assert [a, b][1..] == [b] && [b][1..] == [];
    assert Annotated(syms, idx, [b], b.out);
    assert IsDeadStore(syms, idx, a) && !IsDeadStore(syms, idx, b);
    assert Dse(syms, idx, [b]) == [b];
  }

  lemma {:induction false} RunBoth(m: Machine, syms: seq<Symbol>, a: Statement, b: Statement, s: State)
    ensures ExecCode(m, syms, [a, b], s) == ExecStatement(m, syms, b, ExecStatement(m, syms, a, s))
    ensures ExecCode(m, syms, [b], s) == ExecStatement(m, syms, b, s)
  {
    assert [a] + [b] == [a, b] && [b][1..] == [];
    ExecCons(m, syms, a, [b], s);
  }

  /** The first store changes nothing that the second one needs. */
  lemma {:induction false} FirstUnneeded(m: Machine, syms: seq<Symbol>, idx: Index, a: Statement, b: Statement, s: State)
    requires ValidIndex(idx, syms) && StoredTwice(syms, idx, a, b) && |s.env| == |syms|
    ensures Similar(syms, idx, a.out, ExecStatement(m, syms, a, s), s)
  {
    DeadStoreInvisible(m, syms, idx, a.t, EvalExpr(m, syms, a.expr, s).1, a.out, s);
  }

  /** The second store leaves some of what the first one stored. */
  lemma {:induction false} PartialStoreShows(syms: seq<Symbol>, idx: Index, a: Statement, b: Statement, s: State)
    requires ValidIndex(idx, syms) && StoredTwice(syms, idx, a, b) && !WritesAll(syms, b.t)
    requires s == Holding(syms, b.t.symbol.value, 5)
    ensures var m, x := PushMachine(), b.t.symbol.value;
      ExecStatement(m, syms, b, ExecStatement(m, syms, a, s)).env[x] != ExecStatement(m, syms, b, s).env[x]
  {
    var m, x := PushMachine(), b.t.symbol.value;
    var s' := ExecStatement(m, syms, a, s);
    PushedStore(syms, a, s);
    assert s'.env[x] != 5;
    FirstUnneeded(m, syms, idx, a, b, s);
    EvalExprSimilar(m, syms, idx, b.expr, a.out, s', s);
    PushedStore(syms, b, s);
    PushedStore(syms, b, s');
  }

  /** Erasing the first of two stores to a local scalar is right if and only if the
      second covers all of it. */
  lemma {:induction false} ErasureIff(syms: seq<Symbol>, idx: Index, a: Statement, b: Statement)
    requires ValidIndex(idx, syms) && StoredTwice(syms, idx, a, b)
    ensures ReadyCode(syms, idx, [a, b]) && Dse(syms, idx, [a, b]) == [b]
    ensures ErasurePreserves(syms, idx, [a, b], b.out) <==> Covers(syms[b.t.symbol.value].ty, b.t)
  {
    ErasesFirst(syms, idx, a, b);
    if WritesAll(syms, b.t) {
      forall m: Machine, s: State | Lawful(m) && |s.env| == |syms|
        ensures SameErased(m, syms, idx, [a, b], b.out, s)
      {
        RunBoth(m, syms, a, b, s);
        FirstUnneeded(m, syms, idx, a, b, s);
        StatementSimilar(m, syms, idx, b, b.out, ExecStatement(m, syms, a, s), s);
      }
    } else {
      var m, s := PushMachine(), Holding(syms, b.t.symbol.value, 5);
      PushMachineLawful();
      RunBoth(m, syms, a, b, s);
      PartialStoreShows(syms, idx, a, b, s);
      assert Observed(syms, idx, b.out, b.t.symbol.value);
      assert !SameErased(m, syms, idx, [a, b], b.out, s);
    }
  }

  /** The target, with other types and all operators doing whatever. */
  function ByteMachine(): Machine { Target(PushMachine().(convert := (t: Type, v: Val) => 0)) }

  lemma {:induction false} ByteMachineLawful()
    ensures Lawful(ByteMachine())
  {
    TargetLawful(PushMachine().(convert := (t: Type, v: Val) => 0));
  }

  // `int i = 0x1234; *(char *) &i = 1; return i;`
  const WHOLE := Statement(Assign, {}, Local(0, INT), Constant(INT, 0x1234))
  const PART := Statement(Assign, {}, Local(0, CHAR), Constant(CHAR, 1))
  const PUNNED := Block(
    [WHOLE, PART], Expr(Cast, INT, Local(0, INT), Local(0, INT)), None, None, true, White, {}, {})

  lemma {:induction false} PunnedBlocks()
    ensures var syms, idx := [Symbol(INT, LinkNone)], [1];
      && ValidIndex(idx, syms) && ValidGraph([PUNNED]) && ReadyBlock(syms, idx, PUNNED)
      && ReadyBlock(syms, idx, Analysed(syms, idx, [PUNNED], 0))
      && DseBlock(syms, idx, Analysed(syms, idx, [PUNNED], 0)).code == [PART.(out := {0})]
  {
    var syms, idx := [Symbol(INT, LinkNone)], [1];
    var c := PUNNED.code;
    assert c[1..] == [PART] && c[1..][1..] == [];
    assert Transfer(syms, idx, PART, {0}) == {};
    assert EndOf(syms, idx, PUNNED, {}) == {0};
    var d := Annotate(syms, idx, c, {0});
    assert Annotate(syms, idx, [PART], {0}) == [PART.(out := {0})];
    assert d == [WHOLE, PART.(out := {0})];
    assert d[1..] == [PART.(out := {0})] && d[1..][1..] == [];
    assert IsDeadStore(syms, idx, d[0]) && !IsDeadStore(syms, idx, d[1]);
    assert Dse(syms, idx, d[1..]) == d[1..];
  }

  /** What the machine makes of the numbers and the two places. */
  lemma {:induction false} PunnedInt(a: Val)
    requires 0 <= a < 0x10000
    ensures ByteMachine().convert(INT, a) == a == ByteMachine().get(INT, Local(0, INT), a)
    ensures ByteMachine().put(INT, Local(0, INT), 0, a) == a
  {
    assert Pow2(32) == 0x1_0000_0000 && Pow2(31) == 0x8000_0000 by {
      Pow32();
      assert 2 * Pow2(31) == Pow2(32);
    }
    assert Pow2(0) == 1;
    InRangeFits(INT, 32, a);
    assert LowBits(32, a) == a;
  }

  lemma {:induction false} PunnedChar(a: Val)
    ensures ByteMachine().convert(CHAR, 1) == 1
    ensures ByteMachine().put(INT, Local(0, CHAR), a, 1) == a / 256 * 256 + 1
  {
    assert Pow2(0) == 1 && Pow2(7) == 128 && Pow2(8) == 256;
    InRangeFits(CHAR, 8, 1);
    assert StoredBits(PushMachine(), Local(0, CHAR), 1) == 1;
  }

  /** Reading the whole object, on any machine. */
  lemma {:induction false} ReturnedInt(m: Machine, a: Val)
    ensures var s := State([a], [], [], []);
      EvalExpr(m, [Symbol(INT, LinkNone)], PUNNED.expr, s) == (s, m.convert(INT, m.get(INT, Local(0, INT), a)))
  {
  }

  /** Storing a number at the place of some type, on any machine. */
  lemma {:induction false} StoredNumber(m: Machine, c: Statement, t: Type, n: int, a: Val)
    requires c == Statement(Assign, c.out, Local(0, t), Constant(t, n))
    ensures ExecStatement(m, [Symbol(INT, LinkNone)], c, State([a], [], [], []))
         == State([m.put(INT, Local(0, t), a, m.convert(t, m.plus(n, 0)))], [], [], [])
  {
  }

  /** What the two stores leave, and what is returned. */
  lemma {:induction false} PunnedStores(a: Val, part: Statement, z: Val)
    requires 0 <= a < 0x10000 && part == PART.(out := part.out) && z == a / 256 * 256 + 1
    ensures var m, syms, s := ByteMachine(), [Symbol(INT, LinkNone)], Holds(a);
      && (a == 0 ==> ExecStatement(m, syms, WHOLE, s) == Holds(0x1234))
      && ExecStatement(m, syms, part, s) == Holds(z)
      && EvalExpr(m, syms, PUNNED.expr, s) == (s, a)
  {
    var m := ByteMachine();
    StoredNumber(m, WHOLE, INT, 0x1234, a);
    StoredNumber(m, part, CHAR, 1, a);
    ReturnedInt(m, a);
    assert m.plus(0x1234, 0) == 0x1234 && m.plus(1, 0) == 1;
    PunnedInt(a);
    PunnedInt(0x1234);
    PunnedChar(a);
  }

  function Holds(a: Val): State { State([a], [], [], []) }

  /** The whole run of a block that returns the object, on any machine. */
  lemma {:induction false} ReturnRun(m: Machine, b: Block, a: Val, z: Val)
    requires b.jump0.None? && b.hasReturnValue && b.expr == PUNNED.expr && ValidGraph([b])
    requires ExecCode(m, [Symbol(INT, LinkNone)], b.code, Holds(a)) == Holds(z)
    requires EvalExpr(m, [Symbol(INT, LinkNone)], PUNNED.expr, Holds(z)) == (Holds(z), z)
    ensures Run(m, [Symbol(INT, LinkNone)], [b], 0, Holds(a), 1) == Done([], Some(z), [0], [])
  {
    assert Globals([Symbol(INT, LinkNone)], [z]) == [0];
  }

  lemma {:induction false} RunPair(m: Machine, part: Statement)
    requires ExecStatement(m, [Symbol(INT, LinkNone)], WHOLE, Holds(0)) == Holds(0x1234)
    requires ExecStatement(m, [Symbol(INT, LinkNone)], PART, Holds(0x1234)) == Holds(0x1201)
    requires ExecStatement(m, [Symbol(INT, LinkNone)], part, Holds(0)) == Holds(1)
    ensures ExecCode(m, [Symbol(INT, LinkNone)], [WHOLE, PART], Holds(0)) == Holds(0x1201)
    ensures ExecCode(m, [Symbol(INT, LinkNone)], [part], Holds(0)) == Holds(1)
  {
    RunBoth(m, [Symbol(INT, LinkNone)], WHOLE, PART, Holds(0));
    RunBoth(m, [Symbol(INT, LinkNone)], part, part, Holds(0));
  }

  lemma {:induction false} PunnedRuns(part: Statement)
    requires part == PART.(out := part.out)
    ensures ExecCode(ByteMachine(), [Symbol(INT, LinkNone)], [WHOLE, PART], Holds(0)) == Holds(0x1201)
    ensures ExecCode(ByteMachine(), [Symbol(INT, LinkNone)], [part], Holds(0)) == Holds(1)
  {
    PunnedStores(0, part, 1);
    PunnedStores(0x1234, PART, 0x1201);
    RunPair(ByteMachine(), part);
  }

  lemma {:induction false} PunnedReturns(b: Block, code: seq<Statement>, z: Val)
    requires b.code == code && b.jump0.None? && b.hasReturnValue && b.expr == PUNNED.expr && ValidGraph([b])
    requires 0 <= z < 0x10000 && ExecCode(ByteMachine(), [Symbol(INT, LinkNone)], code, Holds(0)) == Holds(z)
    ensures Run(ByteMachine(), [Symbol(INT, LinkNone)], [b], 0, Holds(0), 1) == Done([], Some(z), [0], [])
  {
    PunnedStores(z, PART, z / 256 * 256 + 1);
    ReturnRun(ByteMachine(), b, 0, z);
  }

  /** The analysis and the elimination make the program return 1 instead of 0x1201. */
  lemma {:induction false} PunnedStoreLost()
    ensures var syms, idx := [Symbol(INT, LinkNone)], [1];
      && ValidGraph([PUNNED]) && ReadyBlock(syms, idx, PUNNED)
      && var b := Analysed(syms, idx, [PUNNED], 0);
      && ReadyBlock(syms, idx, b) && ValidGraph([DseBlock(syms, idx, b)])
      && var m := ByteMachine();
      && Lawful(m)
      && Run(m, syms, [PUNNED], 0, Holds(0), 1) == Done([], Some(0x1201), [0], [])
      && Run(m, syms, [DseBlock(syms, idx, b)], 0, Holds(0), 1) == Done([], Some(1), [0], [])
  {
    PunnedBlocks();
    ByteMachineLawful();
    var part := PART.(out := {0});
    PunnedRuns(part);
    PunnedReturns(PUNNED, [WHOLE, PART], 0x1201);
    PunnedReturns(DseBlock([Symbol(INT, LinkNone)], [1], Analysed([Symbol(INT, LinkNone)], [1], [PUNNED], 0)), [part], 1);
  }

  // ---------- Pointers inside arrays ----------

  const INT_POINTER := INT.(pointer := true)
  const POINTERS := Type(Array, false, false, Tree(2, [], Some(INT_POINTER)))
  const HOLDER := Type(Struct, false, false, Tree(16, [Member("a", POINTERS)], None))
  const CALLER: seq<Symbol> := [Symbol(INT, LinkNone), Symbol(HOLDER, LinkNone), Symbol(FUNCTION, LinkExtern)]

  // `int x; struct { int *a[2]; } s; s.a[0] = &x; x = 1; f(s);`
  const POINT := Statement(Assign, {}, Local(1, INT_POINTER),
    Expr(Cast, INT_POINTER, Local(0, INT_POINTER).(kind := Address), Local(0, INT_POINTER).(kind := Address)))
  const SET := Statement(Assign, {}, Local(0, INT), Constant(INT, 1))
  const PASS := Statement(Param, {}, Local(1, HOLDER), Expr(Cast, HOLDER, Local(1, HOLDER), Local(1, HOLDER)))
  const CALL := Statement(ExprStmt, {}, Local(2, FUNCTION), Expr(Call, INT, Local(2, FUNCTION), Local(2, FUNCTION)))

  const TAIL := [PASS] + [CALL]
  const HIDING := [POINT] + ([SET] + TAIL)
  const ANALYSED := [POINT.(out := {1})] + ([SET.(out := {1})] + TAIL)

  lemma {:induction false} FirstOfMore(syms: seq<Symbol>, idx: Index, a: Statement, rest: seq<Statement>, end: Bits)
    requires |idx| == |syms| && Ready(syms, idx, a) && ReadyCode(syms, idx, rest)
    ensures ReadyCode(syms, idx, [a] + rest)
    ensures Annotate(syms, idx, [a] + rest, end)
         == [a.(out := Backward(syms, idx, rest, end))] + Annotate(syms, idx, rest, end)
    ensures Backward(syms, idx, [a] + rest, end) == Transfer(syms, idx, a, Backward(syms, idx, rest, end))
    ensures Dse(syms, idx, [a] + rest) == DseStatement(syms, idx, a) + Dse(syms, idx, rest)
  {
    assert ([a] + rest)[1..] == rest;
  }

  lemma {:induction false} TailAnalysed()
    ensures ReadyCode(CALLER, [1, 2, 0], TAIL) && Annotate(CALLER, [1, 2, 0], TAIL, {}) == TAIL
    ensures Backward(CALLER, [1, 2, 0], TAIL, {}) == {1} && Dse(CALLER, [1, 2, 0], TAIL) == TAIL
  {
    var idx := [1, 2, 0];
    HolderHidesPointer();
    FirstOfMore(CALLER, idx, CALL, [], {});
    assert [CALL] + [] == [CALL];
    assert Transfer(CALLER, idx, CALL, {}) == {};
    FirstOfMore(CALLER, idx, PASS, [CALL], {});
    assert Transfer(CALLER, idx, PASS, {}) == {1};
  }

  lemma {:induction false} SetDies(set1: Statement)
    requires set1 == SET.(out := {1})
    ensures ReadyCode(CALLER, [1, 2, 0], [SET] + TAIL) && ReadyCode(CALLER, [1, 2, 0], [set1] + TAIL)
    ensures Annotate(CALLER, [1, 2, 0], [SET] + TAIL, {}) == [set1] + TAIL
    ensures Backward(CALLER, [1, 2, 0], [SET] + TAIL, {}) == {1}
    ensures Dse(CALLER, [1, 2, 0], [set1] + TAIL) == TAIL
  {
    TailAnalysed();
    FirstOfMore(CALLER, [1, 2, 0], SET, TAIL, {});
    FirstOfMore(CALLER, [1, 2, 0], set1, TAIL, {});
    assert Transfer(CALLER, [1, 2, 0], SET, {1}) == {1};
  }

  lemma {:induction false} HidingAnalysed()
    ensures ValidIndex([1, 2, 0], CALLER)
    ensures ReadyCode(CALLER, [1, 2, 0], HIDING) && ReadyCode(CALLER, [1, 2, 0], ANALYSED)
    ensures Annotate(CALLER, [1, 2, 0], HIDING, {}) == ANALYSED
    ensures Dse(CALLER, [1, 2, 0], ANALYSED) == [ANALYSED[0]] + TAIL
  {
    var point1, set1 := POINT.(out := {1}), SET.(out := {1});
    SetDies(set1);
    FirstOfMore(CALLER, [1, 2, 0], POINT, [SET] + TAIL, {});
    FirstOfMore(CALLER, [1, 2, 0], point1, [set1] + TAIL, {});
  }

  /** The arguments' last memory at the first event. */
  function SeenBy(st: State): Option<Env> {
    if st.trace != [] && st.trace[0].CallEvent? && st.trace[0].input.args != []
    then st.trace[0].input.args[0].memory else None
  }

  lemma {:induction false} PassedMemory(s: State)
    requires s.args == [] && s.trace == [] && |s.env| == 3
    ensures SeenBy(ExecCode(PushMachine(), CALLER, TAIL, s)) == Some(s.env)
  {
    HolderHidesPointer();
    assert TAIL == [PASS, CALL];
    RunBoth(PushMachine(), CALLER, PASS, CALL, s);
  }

  /** The store that f can read through s.a[0] is erased: the call sees other memory. */
  lemma {:induction false} ArrayPointerLost()
    ensures ValidIndex([1, 2, 0], CALLER) && ReadyCode(CALLER, [1, 2, 0], HIDING)
    ensures var d := Annotate(CALLER, [1, 2, 0], HIDING, {});
      Dse(CALLER, [1, 2, 0], d) == [d[0]] + TAIL && !ErasurePreserves(CALLER, [1, 2, 0], d, {})
  {
    HidingAnalysed();
    PushMachineLawful();
    var m, s := PushMachine(), State([0, 0, 0], [], [], []);
    var s1 := ExecStatement(m, CALLER, ANALYSED[0], s);
    var s2 := ExecStatement(m, CALLER, ANALYSED[1], s1);
    assert s1.env[0] == 0 && s2.env[0] == 1;
    ExecCons(m, CALLER, ANALYSED[0], TAIL, s);
    ExecCons(m, CALLER, ANALYSED[0], [ANALYSED[1]] + TAIL, s);
    ExecCons(m, CALLER, ANALYSED[1], TAIL, s1);
    PassedMemory(s1);
    PassedMemory(s2);
    assert !SameErased(m, CALLER, [1, 2, 0], ANALYSED, {}, s);
  }

  lemma {:induction false} HolderHidesPointer()
    ensures ContainsPointer(HOLDER) && !IsOrHasPointer(HOLDER)
  {
    assert Member("a", POINTERS) in HOLDER.tree.members;
    assert ContainsPointer(POINTERS) && !IsOrHasPointer(POINTERS);
  }
}
