/**
  Where merging `t1 = e; t2 = t1` into `t2 = e` stops being right.  The compiler
  merges every pair that passes CanMerge; of those, exactly the faithful ones and
  the ones whose result nobody reads keep the program's meaning.
*/
module MergeLimits {
  import opened Options
  import opened Ir
  import opened IrSemantics
  import opened ExampleCode
  import opened Liveness
  import opened Transform

  /** A pair that the compiler merges. */
  predicate MergedPair(syms: seq<Symbol>, idx: Index, s1: Statement, s2: Statement)
    requires |idx| == |syms|
  {
    Ready(syms, idx, s1) && Ready(syms, idx, s2) && CanMerge(syms, idx, s1, s2)
  }

  /** No machine and no state can tell the pair from the merged statement. */
  ghost predicate MergePreserves(syms: seq<Symbol>, idx: Index, s1: Statement, s2: Statement)
    requires |idx| == |syms|
  {
    forall m: Machine, s: State :: Lawful(m) && |s.env| == |syms| ==>
      SameAfter(m, syms, idx, s1, s2, s)
  }

  ghost predicate SameAfter(m: Machine, syms: seq<Symbol>, idx: Index, s1: Statement, s2: Statement, s: State)
    requires |idx| == |syms|
  {
    Similar(syms, idx, s2.out,
      ExecStatement(m, syms, s2, ExecStatement(m, syms, s1, s)),
      ExecStatement(m, syms, Merged(s1, s2), s))
  }

  /** Merged are, at the least, a store to a local object that is not live afterwards and
      a copy of that object to another of its type. */
  lemma {:induction false} ChainsMerge(syms: seq<Symbol>, idx: Index, s1: Statement, s2: Statement)
    requires |idx| == |syms| && Ready(syms, idx, s1) && Ready(syms, idx, s2) && s1.st == s2.st == Assign
    requires s1.t.kind == Direct && syms[s1.t.symbol.value].linkage == LinkNone
    requires s2.expr == Expr(Cast, s1.t.ty, s1.t, s2.expr.r) && s2.t.ty == s1.t.ty
    requires idx[s1.t.symbol.value] - 1 !in s2.out
    ensures MergedPair(syms, idx, s1, s2)
  {
    TypeEqualSelf(s1.t.ty);
  }

  /** Nothing else is: a merged copy repeats its object's place, and the object is local
      and not live afterwards. */
  lemma {:induction false} MergedChains(syms: seq<Symbol>, idx: Index, s1: Statement, s2: Statement)
    requires |idx| == |syms| && MergedPair(syms, idx, s1, s2)
    ensures s1.st == s2.st == Assign && s1.t.kind == Direct && s2.expr.op == Cast
    ensures s2.expr.l == s1.t.(ty := s2.expr.l.ty, imm := s2.expr.l.imm)
    ensures var x := s1.t.symbol.value; syms[x].linkage == LinkNone && idx[x] - 1 !in s2.out
  {
  }

  // ---------- A machine that tells the others apart ----------

  /** What is unusual about the machine: the one type at which stored values are not
      swapped; the type to which conversions swap; the width up to which bit-fields
      keep nothing; whether those wider than their type turn their bit over. */
  datatype Twist = Twist(flip: Option<Type>, swap: Option<Type>, width: nat, over: bool)

  const STRAIGHT := Twist(None, None, 0, false)

  /** Every operation gives 1.  Objects hold odd numbers that stand for values, even
      ones for 1.  A swapped value is 0 for 1, and a conversion that swaps says so by
      adding 2.  Bit-fields keep the lowest bit. */
  function Probe(w: Twist): Machine {
    Machine(
      (t: Type, v: Val) => ProbeConvert(w, t, v),
      (o: Op, t: Type, v: Val) => 1, (o: Op, t: Type, u: Val, v: Val) => 1,
      (x: nat) => 1, (v: Val, n: nat) => 1,
      (t: Type, n: nat, v: Val) => ProbeField(w, t, n, v),
      (t: Type, v: Var, a: Val) => ProbeGet(w, v, a),
      (t: Type, v: Var, a: Val, x: Val) => ProbePut(w, v, x),
      (e: Env, x: Ext, v: Var, p: Val) => 1,
      (x: nat, a: Val, v: Var, p: Val, y: Val) => a, (x: Ext, v: Var, p: Val, y: Val) => x,
      (c: CallInput) => 1, (x: nat, a: Val, c: CallInput) => a, (c: CallInput) => c.ext,
      (v: Val) => v == 1)
  }

  function ProbeConvert(w: Twist, t: Type, v: Val): Val {
    if w.swap != Some(t) then v else if v == 0 then 3 else if v == 1 then 2 else v
  }

  function ProbeField(w: Twist, t: Type, n: nat, v: Val): Val {
    if n <= w.width then 0
    else if w.over && n > FieldBits(t) then 1 - v % 2
    else if w.swap == Some(t) then 2 + v % 2
    else v % 2
  }

  predicate Flipped(w: Twist, t: Type) { w.flip.Some? && w.flip.value != t }

  function ProbePut(w: Twist, v: Var, x: Val): Val {
    if Flipped(w, v.ty) then 2 * (1 - x) + 1 else 2 * x + 1
  }

  function ProbeGet(w: Twist, v: Var, a: Val): Val {
    if a % 2 == 0 then 1
    else
      var x := if Flipped(w, v.ty) then 1 - (a - 1) / 2 else (a - 1) / 2;
      if v.fieldWidth == 0 then ProbeConvert(w, v.ty, x) else x
  }

  lemma {:induction false} ProbeLawful(w: Twist)
    requires w.swap.None? || (w.width == 0 && !w.over)
    ensures Lawful(Probe(w))
  {
    var m := Probe(w);
    assert forall t, x :: Idempotent(m, t, x);
    assert forall t, v, a, b, x :: Overwrites(m, t, v, a, b, x);
    assert forall t, v, a, x :: ReadsBack(m, t, v, a, x);
    assert forall t, n: nat, x :: FieldFits(m, t, n, x);
    assert forall t, n: nat, wide, more: nat, x :: KeepsLowBits(m, t, n, wide, more, x);
  }

  /** A start state in which no symbol holds anything yet. */
  function Unset(syms: seq<Symbol>): State { State(seq(|syms|, x => 0), [], [], []) }

  /** Started there, every expression gives 1, converted to its type. */
  lemma {:induction false} ProbeValue(syms: seq<Symbol>, e: Expr, w: Twist)
    requires ValidExpr(e, syms)
    ensures var (st, v) := EvalExpr(Probe(w), syms, e, Unset(syms));
      st.env == Unset(syms).env && v == ProbeConvert(w, e.ty, 1)
  {
  }

  /** Different stores to an observed target, or through different pointers, can be
      told apart. */
  lemma {:induction false} StoresDiffer(
    w: Twist, syms: seq<Symbol>, idx: Index, t: Var, live: Bits, u: Val, s: State, v: Val, r: State)
    requires |idx| == |syms| == |s.env| == |r.env| && ValidTarget(t, syms) && s.trace == r.trace
    requires t.kind == Direct ==> Observed(syms, idx, live, t.symbol.value)
    requires || Kept(Probe(w), t, u) != Kept(Probe(w), t, v)
             || (t.kind == Deref && PointerValue(Probe(w), syms, t, s.env) != PointerValue(Probe(w), syms, t, r.env))
    ensures !Similar(syms, idx, live, Store(Probe(w), syms, t, u, s), Store(Probe(w), syms, t, v, r))
  {
    var m := Probe(w);
    var a, b := Store(m, syms, t, u, s), Store(m, syms, t, v, r);
    if t.kind == Direct {
      var y := t.symbol.value;
      assert a.env[y] == m.put(syms[y].ty, Place(t), s.env[y], Kept(m, t, u));
      assert b.env[y] == m.put(syms[y].ty, Place(t), r.env[y], Kept(m, t, v));
      assert a.env[y] != b.env[y];
    } else {
      assert a.trace[|s.trace|] != b.trace[|r.trace|];
    }
  }

  /** The twist that brings out what is wrong with a copy. */
  function TwistFor(p: Assignment, q: Assignment): Twist {
    if q.expr.l.ty != p.t.ty then STRAIGHT.(flip := Some(p.t.ty))
    else if p.t.fieldWidth > 0 && !(0 < q.t.fieldWidth <= p.t.fieldWidth) then STRAIGHT.(width := p.t.fieldWidth)
    else if p.t.fieldWidth > FieldBits(p.t.ty) then STRAIGHT.(over := true)
    else if p.t.fieldWidth == 0 && p.t.ty != p.expr.ty then STRAIGHT.(swap := Some(p.t.ty))
    else STRAIGHT.(swap := Some(q.expr.ty))
  }

  /** The copy's target is not given what it would keep of the value itself. */
  lemma {:induction false} ValuesDiffer(
    syms: seq<Symbol>, s1: Statement, s2: Statement, w: Twist, st: State, v: Val)
    requires ValidStatement(s1, syms) && s1.st == Assign && |st.env| == |syms|
    requires Copies(syms, Of(s1), Of(s2)) && !Faithful(Of(s1), Of(s2)) && !StoresThrough(Of(s1), Of(s2))
    requires w == TwistFor(Of(s1), Of(s2)) && v == ProbeConvert(w, s1.expr.ty, 1)
    ensures var m := Probe(w);
      var v2 := EvalExpr(m, syms, s2.expr, Store(m, syms, s1.t, v, st)).1;
      Kept(m, s2.t, v2) != Kept(m, s2.t, v)
  {
    var m, x := Probe(w), s1.t.symbol.value;
    var st1 := Store(m, syms, s1.t, v, st);
    assert st1.env[x] == ProbePut(w, Place(s1.t), Kept(m, s1.t, v));
    assert EvalVar(m, syms, s2.expr.l, st1) == ProbeGet(w, Place(s2.expr.l), st1.env[x]);
  }

  /** With the temporary unset, storing through it before and after setting it are
      different stores. */
  lemma {:induction false} ThroughDiffers(syms: seq<Symbol>, idx: Index, s1: Statement, s2: Statement)
    requires ValidIndex(idx, syms) && MergedPair(syms, idx, s1, s2) && StoresThrough(Of(s1), Of(s2))
    ensures !MergePreserves(syms, idx, s1, s2)
  {
    var m, s, x := Probe(STRAIGHT), Unset(syms), s1.t.symbol.value;
    ProbeLawful(STRAIGHT);
    ProbeValue(syms, s1.expr, STRAIGHT);
    var (st, v) := EvalExpr(m, syms, s1.expr, s);
    var st1 := Store(m, syms, s1.t, v, st);
    var v2 := EvalExpr(m, syms, s2.expr, st1).1;
    assert st.env[x] == 0 && st1.env[x] == ProbePut(STRAIGHT, Place(s1.t), Kept(m, s1.t, v));
    StoresDiffer(STRAIGHT, syms, idx, s2.t, s2.out, v2, st1, v, st);
    assert !SameAfter(m, syms, idx, s1, s2, s);
  }

  /** A harmful pair fails on the machine that its fault calls for. */
  lemma {:induction false} HarmfulDiffers(syms: seq<Symbol>, idx: Index, s1: Statement, s2: Statement)
    requires ValidIndex(idx, syms) && MergedPair(syms, idx, s1, s2)
    requires !Harmless(syms, idx, s1, s2) && !StoresThrough(Of(s1), Of(s2))
    ensures !MergePreserves(syms, idx, s1, s2)
  {
    var s, w := Unset(syms), TwistFor(Of(s1), Of(s2));
    var m := Probe(w);
    ProbeLawful(w);
    ProbeValue(syms, s1.expr, w);
    var (st, v) := EvalExpr(m, syms, s1.expr, s);
    var st1 := Store(m, syms, s1.t, v, st);
    var v2 := EvalExpr(m, syms, s2.expr, st1).1;
    ValuesDiffer(syms, s1, s2, w, st, v);
    StoresDiffer(w, syms, idx, s2.t, s2.out, v2, st1, v, st);
    assert !SameAfter(m, syms, idx, s1, s2, s);
  }

  /** Of the pairs that the compiler merges, those keep their meaning whose copy is
      faithful or whose target is never read; all others lose it. */
  lemma {:induction false} MergePreservesIff(syms: seq<Symbol>, idx: Index, s1: Statement, s2: Statement)
    requires ValidIndex(idx, syms) && MergedPair(syms, idx, s1, s2)
    ensures MergePreserves(syms, idx, s1, s2) <==> Harmless(syms, idx, s1, s2)
  {
    if Harmless(syms, idx, s1, s2) {
      forall m: Machine, s: State | Lawful(m) && |s.env| == |syms|
        ensures SameAfter(m, syms, idx, s1, s2, s)
      {
        MergePairSimilar(m, syms, idx, s1, s2, s);
      }
    } else if StoresThrough(Of(s1), Of(s2)) {
      ThroughDiffers(syms, idx, s1, s2);
    } else {
      HarmfulDiffers(syms, idx, s1, s2);
    }
  }

  // ---------- Four ways to fail ----------

  const VOID_POINTER := Type(Void, false, true, NoTree)
  const SHORT_POINTER := SHORT.(pointer := true)
  const CHAR_POINTER := CHAR.(pointer := true)
  const FIELDS := Type(Struct, false, false, Tree(4, [Member("b", INT)], None))
  const CHAR_OR_POINTER := Type(Union, false, false, Tree(8, [Member("c", CHAR), Member("p", CHAR_POINTER)], None))

  /** Symbols a and b of the given types, and a function f. */
  function Symbols(a: Type, b: Type): seq<Symbol> {
    [Symbol(a, LinkNone), Symbol(b, LinkNone), Symbol(FUNCTION, LinkExtern)]
  }

  /** `t = f();` */
  function CallTo(t: Var): Statement {
    Statement(Assign, {}, t, Expr(Call, t.ty, Local(2, FUNCTION), Local(2, FUNCTION)))
  }

  /** `t = (ty) l;`, after which only symbol b is live. */
  function CopyTo(t: Var, ty: Type, l: Var): Statement {
    Statement(Assign, {1}, t, Expr(Cast, ty, l, l))
  }

  /** `int b : 3; ... s.b = f(); x = s.b;` merges to `x = f();`, which cuts nothing off. */
  lemma {:induction false} TruncationLost()
    ensures var syms, field := Symbols(FIELDS, INT), Var(Direct, INT, Some(0), 0, 3, 0, 0);
      var s1, s2 := CallTo(field), CopyTo(Local(1, INT), INT, field);
      MergedPair(syms, [1, 2, 0], s1, s2) && !MergePreserves(syms, [1, 2, 0], s1, s2)
  {
    var syms, field := Symbols(FIELDS, INT), Var(Direct, INT, Some(0), 0, 3, 0, 0);
    MergePreservesIff(syms, [1, 2, 0], CallTo(field), CopyTo(Local(1, INT), INT, field));
  }

  /** `union { char c; char *p; } u; ... u.c = f(); q = u.p;` merges to `q = f();`. */
  lemma {:induction false} MemberConfused()
    ensures var syms := Symbols(CHAR_OR_POINTER, CHAR_POINTER);
      var s1, s2 := CallTo(Local(0, CHAR)), CopyTo(Local(1, CHAR_POINTER), CHAR_POINTER, Local(0, CHAR_POINTER));
      MergedPair(syms, [1, 2, 0], s1, s2) && !MergePreserves(syms, [1, 2, 0], s1, s2)
  {
    MergePreservesIff(Symbols(CHAR_OR_POINTER, CHAR_POINTER), [1, 2, 0],
      CallTo(Local(0, CHAR)), CopyTo(Local(1, CHAR_POINTER), CHAR_POINTER, Local(0, CHAR_POINTER)));
  }

  /** `short a, *q; ... a = f(); q = (int) a;` merges to `q = f();` with a short f(). */
  lemma {:induction false} WideningLost()
    ensures var syms := Symbols(SHORT, SHORT_POINTER);
      var s1, s2 := CallTo(Local(0, SHORT)), CopyTo(Local(1, SHORT_POINTER), SHORT_POINTER, Local(0, SHORT));
      MergedPair(syms, [1, 2, 0], s1, s2) && !MergePreserves(syms, [1, 2, 0], s1, s2)
  {
    MergePreservesIff(Symbols(SHORT, SHORT_POINTER), [1, 2, 0],
      CallTo(Local(0, SHORT)), CopyTo(Local(1, SHORT_POINTER), SHORT_POINTER, Local(0, SHORT)));
  }

  /** `void *p; ... p = f(); *(void **) p = p;` merges to `*(void **) p = f();`. */
  lemma {:induction false} PointerMoved()
    ensures var syms, through := Symbols(VOID_POINTER, INT), Local(0, VOID_POINTER).(kind := Deref);
      var s1, s2 := CallTo(Local(0, VOID_POINTER)), CopyTo(through, VOID_POINTER, Local(0, VOID_POINTER));
      MergedPair(syms, [1, 2, 0], s1, s2) && !MergePreserves(syms, [1, 2, 0], s1, s2)
  {
    var syms, through := Symbols(VOID_POINTER, INT), Local(0, VOID_POINTER).(kind := Deref);
    MergePreservesIff(syms, [1, 2, 0],
      CallTo(Local(0, VOID_POINTER)), CopyTo(through, VOID_POINTER, Local(0, VOID_POINTER)));
  }
}
