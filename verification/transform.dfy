/**
  The two code transformations driven by liveness: erasing dead stores and
  merging `t1 = e; t2 = t1` into `t2 = e`.  The functions here say what the
  passes compute; the lemmas say that runs cannot tell the difference.
*/
module Transform {
  import opened Ir
  import opened IrSemantics
  import opened Liveness

  // ---------- Dead store elimination ----------

  predicate IsDeadStore(syms: seq<Symbol>, idx: Index, s: Statement)
    requires |idx| == |syms| && ValidStatement(s, syms)
  {
    && s.st == Assign
    && s.t.kind == Direct
    && !IsLiveAfter(syms, idx, s.t.symbol.value, s.out)
    && syms[s.t.symbol.value].linkage == LinkNone
  }

  /** What becomes of one statement: a dead store keeps only its call, if any. */
  function DseStatement(syms: seq<Symbol>, idx: Index, s: Statement): seq<Statement>
    requires |idx| == |syms| && ValidStatement(s, syms)
  {
    if !IsDeadStore(syms, idx, s) then [s]
    else if HasSideEffects(s.expr) then [s.(st := ExprStmt)]
    else []
  }

  function Dse(syms: seq<Symbol>, idx: Index, c: seq<Statement>): (d: seq<Statement>)
    requires |idx| == |syms| && ReadyCode(syms, idx, c)
    ensures ReadyCode(syms, idx, d)
  {
    if c == [] then [] else DseStatement(syms, idx, c[0]) + Dse(syms, idx, c[1..])
  }

  function DeadStores(syms: seq<Symbol>, idx: Index, c: seq<Statement>): nat
    requires |idx| == |syms| && ReadyCode(syms, idx, c)
  {
    if c == [] then 0
    else (if IsDeadStore(syms, idx, c[0]) then 1 else 0) + DeadStores(syms, idx, c[1..])
  }

  function Assignments(c: seq<Statement>): nat {
    if c == [] then 0 else (if c[0].st == Assign then 1 else 0) + Assignments(c[1..])
  }

  lemma {:induction false} AssignmentsAppend(c: seq<Statement>, d: seq<Statement>)
    ensures Assignments(c + d) == Assignments(c) + Assignments(d)
  {
    if c == [] {
      assert c + d == d;
    } else {
      assert (c + d)[1..] == c[1..] + d;
      AssignmentsAppend(c[1..], d);
    }
  }

  /** Each dead store is one assignment less. */
  lemma {:induction false} DseAssignments(syms: seq<Symbol>, idx: Index, c: seq<Statement>)
    requires |idx| == |syms| && ReadyCode(syms, idx, c)
    ensures Assignments(Dse(syms, idx, c)) + DeadStores(syms, idx, c) == Assignments(c)
  {
    if c != [] {
      DseAssignments(syms, idx, c[1..]);
      AssignmentsAppend(DseStatement(syms, idx, c[0]), Dse(syms, idx, c[1..]));
    }
  }

  /** The remaining statements' recorded sets still cover what they must. */
  lemma {:induction false} DseAnnotated(syms: seq<Symbol>, idx: Index, c: seq<Statement>, end: Bits)
    requires ValidIndex(idx, syms) && ReadyCode(syms, idx, c) && Annotated(syms, idx, c, end)
    ensures ReadyCode(syms, idx, Dse(syms, idx, c))
    ensures Annotated(syms, idx, Dse(syms, idx, c), end)
    ensures LiveBefore(syms, idx, Dse(syms, idx, c), end) <= LiveBefore(syms, idx, c, end)
  {
    if c != [] {
      DseAnnotated(syms, idx, c[1..], end);
      var d := Dse(syms, idx, c);
      if IsDeadStore(syms, idx, c[0]) && !HasSideEffects(c[0].expr) {
        assert d == Dse(syms, idx, c[1..]);
      } else {
        assert d[1..] == Dse(syms, idx, c[1..]);
      }
    }
  }

  lemma {:induction false} DeadStoreInvisible(m: Machine, syms: seq<Symbol>, idx: Index, d: Var, v: Val, live: Bits, s: State)
    requires ValidIndex(idx, syms) && ValidTarget(d, syms) && NumberedVar(syms, idx, d)
    requires d.kind == Direct && syms[d.symbol.value].linkage == LinkNone
    requires !IsLiveAfter(syms, idx, d.symbol.value, live) && |s.env| == |syms|
    ensures Similar(syms, idx, live, Store(m, syms, d, v, s), s)
  {
  }

  lemma {:induction false} DseStatementSimilar(m: Machine, syms: seq<Symbol>, idx: Index, c: Statement, s: State)
    requires ValidIndex(idx, syms) && Ready(syms, idx, c) && |s.env| == |syms|
    ensures Similar(syms, idx, c.out, ExecStatement(m, syms, c, s), ExecCode(m, syms, DseStatement(syms, idx, c), s))
  {
    var d := DseStatement(syms, idx, c);
    if d != [] {
      assert d[1..] == [];
      assert ExecCode(m, syms, d, s) == ExecStatement(m, syms, d[0], s);
    }
    if IsDeadStore(syms, idx, c) {
      var (s1, v) := EvalExpr(m, syms, c.expr, s);
      DeadStoreInvisible(m, syms, idx, c.t, v, c.out, s1);
    }
  }

  /** Erasing dead stores changes nothing that is live after the code, nor any event. */
  lemma {:induction false} DseSimilar(
    m: Machine, syms: seq<Symbol>, idx: Index, c: seq<Statement>, end: Bits, s: State, t: State)
    requires Lawful(m) && ValidIndex(idx, syms) && ReadyCode(syms, idx, c) && PlainCode(syms, idx, c)
    requires Annotated(syms, idx, c, end)
    requires Similar(syms, idx, LiveBefore(syms, idx, c, end), s, t)
    ensures Similar(syms, idx, end, ExecCode(m, syms, c, s), ExecCode(m, syms, Dse(syms, idx, c), t))
  {
    if c != [] {
      var first := DseStatement(syms, idx, c[0]);
      var rest := Dse(syms, idx, c[1..]);
      StatementSimilar(m, syms, idx, c[0], c[0].out, s, t);
      var s', t' := ExecStatement(m, syms, c[0], s), ExecStatement(m, syms, c[0], t);
      var t'' := ExecCode(m, syms, first, t);
      DseStatementSimilar(m, syms, idx, c[0], t);
      DseSimilar(m, syms, idx, c[1..], end, s', t'');
      ExecAppend(m, syms, first, rest, t);
    }
  }

  // ---------- Merging chained assignments ----------

  predicate VarEqual(a: Var, b: Var) {
    && TypeEqual(a.ty, b.ty)
    && a.symbol == b.symbol
    && a.kind == b.kind
    && a.fieldWidth == b.fieldWidth
    && a.fieldOffset == b.fieldOffset
    && a.offset == b.offset
  }

  predicate CanMerge(syms: seq<Symbol>, idx: Index, s1: Statement, s2: Statement)
    requires |idx| == |syms|
    requires s1.st == Assign && s1.t.kind == Direct ==> s1.t.symbol.Some? && s1.t.symbol.value < |syms|
  {
    && s1.st == Assign
    && s2.st == Assign
    && IsIdentity(s2.expr)
    && VarEqual(s1.t, s2.expr.l)
    && TypeEqual(s1.t.ty, s2.t.ty)
    && s1.t.kind == Direct
    && syms[s1.t.symbol.value].linkage == LinkNone
    && !IsLiveAfter(syms, idx, s1.t.symbol.value, s2.out)
  }

  /** The merged statement; it keeps the first statement's (now stale) out set. */
  function Merged(s1: Statement, s2: Statement): Statement {
    s1.(t := s2.t)
  }

  /** An assignment, whatever is live after it. */
  datatype Assignment = Assignment(t: Var, expr: Expr)

  function Of(s: Statement): Assignment { Assignment(s.t, s.expr) }

  /** The part of the merge test that needs no liveness: q copies what p assigns. */
  predicate Copies(syms: seq<Symbol>, p: Assignment, q: Assignment) {
    && IsIdentity(q.expr) && VarEqual(p.t, q.expr.l) && TypeEqual(p.t.ty, q.t.ty)
    && p.t.kind == Direct && p.t.symbol.Some? && p.t.symbol.value < |syms|
    && syms[p.t.symbol.value].linkage == LinkNone
  }

  /** The target of q is reached through what p assigns. */
  predicate StoresThrough(p: Assignment, q: Assignment) {
    q.t.kind == Deref && q.t.symbol == p.t.symbol
  }

  /** The copy q gives its target just what p computed: every type on the way is
      the same, a bit-field on the way has the bits of its width and is not narrower
      than the target, and the target does not move when p is not carried out. */
  predicate Faithful(p: Assignment, q: Assignment) {
    && q.expr.ty == q.expr.l.ty == p.t.ty
    && (if p.t.fieldWidth == 0 then p.t.ty == p.expr.ty else 0 < q.t.fieldWidth <= p.t.fieldWidth <= FieldBits(p.t.ty))
    && !StoresThrough(p, q)
  }

  /** Nobody reads the copy's target afterwards. */
  predicate Unseen(syms: seq<Symbol>, idx: Index, s2: Statement)
    requires |idx| == |syms| && ValidTarget(s2.t, syms)
  {
    s2.t.kind == Direct && !Observed(syms, idx, s2.out, s2.t.symbol.value)
  }

  /** Merging the pair keeps its meaning; MergeLimits says that nothing less does. */
  predicate Harmless(syms: seq<Symbol>, idx: Index, s1: Statement, s2: Statement)
    requires |idx| == |syms| && ValidTarget(s2.t, syms)
  {
    Unseen(syms, idx, s2) || Faithful(Of(s1), Of(s2))
  }

  /** The merge pass from a statement onwards, given the code that follows it. */
  function MergeFrom(syms: seq<Symbol>, idx: Index, s1: Statement, rest: seq<Statement>): (d: seq<Statement>)
    requires |idx| == |syms| && Ready(syms, idx, s1) && ReadyCode(syms, idx, rest)
    ensures ReadyCode(syms, idx, d)
    decreases |rest|
  {
    if rest == [] then [s1]
    else if CanMerge(syms, idx, s1, rest[0]) then
      MergeFrom(syms, idx, Merged(s1, rest[0]), rest[1..])
    else [s1] + MergeFrom(syms, idx, rest[0], rest[1..])
  }

  function MergeCode(syms: seq<Symbol>, idx: Index, c: seq<Statement>): (d: seq<Statement>)
    requires |idx| == |syms| && ReadyCode(syms, idx, c)
    ensures ReadyCode(syms, idx, d)
  {
    if c == [] then [] else MergeFrom(syms, idx, c[0], c[1..])
  }

  /** Of the pairs that the pass merges, all are harmless. */
  predicate MergesKeep(syms: seq<Symbol>, idx: Index, s1: Statement, rest: seq<Statement>)
    requires |idx| == |syms| && Ready(syms, idx, s1) && ReadyCode(syms, idx, rest)
    decreases |rest|
  {
    if rest == [] then true
    else if CanMerge(syms, idx, s1, rest[0]) then
      Harmless(syms, idx, s1, rest[0]) && MergesKeep(syms, idx, Merged(s1, rest[0]), rest[1..])
    else MergesKeep(syms, idx, rest[0], rest[1..])
  }

  predicate CodeMergesKeep(syms: seq<Symbol>, idx: Index, c: seq<Statement>)
    requires |idx| == |syms| && ReadyCode(syms, idx, c)
  {
    c == [] || MergesKeep(syms, idx, c[0], c[1..])
  }

  lemma {:induction false} MergeAssignments(syms: seq<Symbol>, idx: Index, s1: Statement, rest: seq<Statement>)
    requires |idx| == |syms| && Ready(syms, idx, s1) && ReadyCode(syms, idx, rest)
    ensures Assignments(MergeFrom(syms, idx, s1, rest)) <= Assignments([s1]) + Assignments(rest)
    decreases |rest|
  {
    if rest != [] {
      AssignmentsAppend([rest[0]], rest[1..]);
      assert [rest[0]] + rest[1..] == rest;
      if CanMerge(syms, idx, s1, rest[0]) {
        MergeAssignments(syms, idx, Merged(s1, rest[0]), rest[1..]);
      } else {
        MergeAssignments(syms, idx, rest[0], rest[1..]);
        AssignmentsAppend([s1], MergeFrom(syms, idx, rest[0], rest[1..]));
      }
    }
  }

  lemma {:induction false} ValueFits(m: Machine, syms: seq<Symbol>, e: Expr, s: State)
    requires Lawful(m)
    ensures m.convert(e.ty, EvalExpr(m, syms, e, s).1) == EvalExpr(m, syms, e, s).1
  {
    var l := EvalVar(m, syms, e.l, s);
    var raw :=
      if e.op == Call then m.callResult(CallInputOf(syms, l, s))
      else if e.op == Cast then l
      else if IsUnary(e.op) then m.unary(e.op, e.ty, l)
      else m.binary(e.op, e.ty, l, EvalVar(m, syms, e.r, s));
    assert EvalExpr(m, syms, e, s).1 == m.convert(e.ty, raw);
    assert Idempotent(m, e.ty, raw);
  }

  /** Reading back a just assigned variable gives what it kept. */
  lemma {:induction false} ReadAfterStore(m: Machine, syms: seq<Symbol>, d: Var, l: Var, v: Val, s: State)
    requires Lawful(m) && |s.env| == |syms| && ValidTarget(d, syms) && d.kind == Direct
    requires VarEqual(d, l) && d.ty == l.ty
    ensures EvalVar(m, syms, l, Store(m, syms, d, v, s))
         == if d.fieldWidth == 0 then m.convert(d.ty, v) else Kept(m, d, v)
  {
    var x := d.symbol.value;
    assert Place(l) == Place(d);
    var p, ty := Place(d), syms[x].ty;
    assert ReadsBack(m, ty, p, s.env[x], v);
    assert Store(m, syms, d, v, s).env[x] == m.put(ty, p, s.env[x], Kept(m, p, v));
    assert l.kind == Direct && l.symbol == d.symbol;
  }

  /** A faithful copy hands on what its own target would have kept of the value. */
  lemma {:induction false} CopyKept(m: Machine, syms: seq<Symbol>, s1: Statement, s2: Statement, s: State)
    requires Lawful(m) && |s.env| == |syms| && ValidStatement(s1, syms) && s1.st == Assign
    requires Copies(syms, Of(s1), Of(s2)) && Faithful(Of(s1), Of(s2))
    ensures var (st, v) := EvalExpr(m, syms, s1.expr, s);
      var st1 := Store(m, syms, s1.t, v, st);
      var (st2, v2) := EvalExpr(m, syms, s2.expr, st1);
      st2 == st1 && Kept(m, s2.t, v2) == Kept(m, s2.t, v)
  {
    var (st, v) := EvalExpr(m, syms, s1.expr, s);
    var st1 := Store(m, syms, s1.t, v, st);
    ReadAfterStore(m, syms, s1.t, s2.expr.l, v, st);
    ValueFits(m, syms, s1.expr, s);
    var t1, t2 := s1.t, s2.t;
    if t1.fieldWidth > 0 {
      assert FieldFits(m, t1.ty, t1.fieldWidth, v);
      assert KeepsLowBits(m, t2.ty, t2.fieldWidth, t1.ty, t1.fieldWidth, v);
    }
  }

  /** Of a store, only what it keeps matters. */
  lemma {:induction false} StoresKept(m: Machine, syms: seq<Symbol>, t: Var, v: Val, w: Val, s: State)
    requires Kept(m, t, v) == Kept(m, t, w)
    ensures Store(m, syms, t, v, s) == Store(m, syms, t, w, s)
  {
  }

  /** One faithful merge, run from any state: only the dead temporary can differ. */
  lemma {:induction false} FaithfulSimilar(m: Machine, syms: seq<Symbol>, idx: Index, s1: Statement, s2: Statement, s: State)
    requires Lawful(m) && ValidIndex(idx, syms)
    requires Ready(syms, idx, s1) && Ready(syms, idx, s2) && Faithful(Of(s1), Of(s2))
    requires CanMerge(syms, idx, s1, s2) && |s.env| == |syms|
    ensures Similar(syms, idx, s2.out,
      ExecStatement(m, syms, s2, ExecStatement(m, syms, s1, s)),
      ExecStatement(m, syms, Merged(s1, s2), s))
  {
    var x := s1.t.symbol.value;
    var (st, v) := EvalExpr(m, syms, s1.expr, s);
    var st1 := Store(m, syms, s1.t, v, st);
    CopyKept(m, syms, s1, s2, s);
    var v2 := EvalExpr(m, syms, s2.expr, st1).1;
    StoresKept(m, syms, s2.t, v2, v, st1);
    var a, b := Store(m, syms, s2.t, v, st1), Store(m, syms, s2.t, v, st);
    DeadStoreInvisible(m, syms, idx, s1.t, v, s2.out, st);
    if s2.t.kind == Deref {
      assert PointerValue(m, syms, s2.t, st1.env) == PointerValue(m, syms, s2.t, st.env);
    }
    forall z | 0 <= z < |syms| && Observed(syms, idx, s2.out, z)
      ensures a.env[z] == b.env[z]
    {
      assert z != x;
    }
  }

  /** A merge into a target that nobody reads. */
  lemma {:induction false} UnseenSimilar(m: Machine, syms: seq<Symbol>, idx: Index, s1: Statement, s2: Statement, s: State)
    requires Lawful(m) && ValidIndex(idx, syms) && |s.env| == |syms|
    requires Ready(syms, idx, s1) && Ready(syms, idx, s2) && CanMerge(syms, idx, s1, s2) && Unseen(syms, idx, s2)
    ensures Similar(syms, idx, s2.out,
      ExecStatement(m, syms, s2, ExecStatement(m, syms, s1, s)),
      ExecStatement(m, syms, Merged(s1, s2), s))
  {
    var (st, v) := EvalExpr(m, syms, s1.expr, s);
    var st1 := Store(m, syms, s1.t, v, st);
    assert EvalExpr(m, syms, s2.expr, st1).0 == st1;
  }

  lemma {:induction false} MergePairSimilar(m: Machine, syms: seq<Symbol>, idx: Index, s1: Statement, s2: Statement, s: State)
    requires Lawful(m) && ValidIndex(idx, syms) && |s.env| == |syms|
    requires Ready(syms, idx, s1) && Ready(syms, idx, s2) && CanMerge(syms, idx, s1, s2) && Harmless(syms, idx, s1, s2)
    ensures Similar(syms, idx, s2.out,
      ExecStatement(m, syms, s2, ExecStatement(m, syms, s1, s)),
      ExecStatement(m, syms, Merged(s1, s2), s))
  {
    if Unseen(syms, idx, s2) {
      UnseenSimilar(m, syms, idx, s1, s2, s);
    } else {
      FaithfulSimilar(m, syms, idx, s1, s2, s);
    }
  }

  /** Merging needs no more than the unmerged code's recorded sets promise, unless
      the merged statement stores through the temporary. */
  lemma {:induction false} MergeTransfer(syms: seq<Symbol>, idx: Index, s1: Statement, s2: Statement, live: Bits)
    requires ValidIndex(idx, syms)
    requires Ready(syms, idx, s1) && Ready(syms, idx, s2)
    requires CanMerge(syms, idx, s1, s2) && live <= s2.out
    ensures Ready(syms, idx, Merged(s1, s2))
    ensures Transfer(syms, idx, Merged(s1, s2), live)
         <= Transfer(syms, idx, s1, Transfer(syms, idx, s2, s2.out)) + Uses(syms, idx, Merged(s1, s2))
    ensures !StoresThrough(Of(s1), Of(s2)) ==>
      Transfer(syms, idx, Merged(s1, s2), live) <= Transfer(syms, idx, s1, Transfer(syms, idx, s2, s2.out))
  {
  }

  /** What the merged code needs, it needed before, or some statement of it reads it. */
  lemma {:induction false} MergeBackward(
    syms: seq<Symbol>, idx: Index, s1: Statement, rest: seq<Statement>, end: Bits, less: Bits)
    requires ValidIndex(idx, syms) && Ready(syms, idx, s1) && ReadyCode(syms, idx, rest) && Annotated(syms, idx, rest, end)
    ensures Backward(syms, idx, MergeFrom(syms, idx, s1, rest), end)
         <= Transfer(syms, idx, s1, LiveBefore(syms, idx, rest, end))
          + Backward(syms, idx, MergeFrom(syms, idx, s1, rest), less)
    decreases |rest|
  {
    if rest == [] {
      assert [s1][1..] == [];
    } else if CanMerge(syms, idx, s1, rest[0]) {
      var s2, s12, tail := rest[0], Merged(s1, rest[0]), rest[1..];
      MergeTransfer(syms, idx, s1, s2, LiveBefore(syms, idx, tail, end));
      MergeBackward(syms, idx, s12, tail, end, less);
      if StoresThrough(Of(s1), Of(s2)) {
        KeptHead(syms, idx, s12, tail, less);
      }
    } else {
      MergeBackward(syms, idx, rest[0], rest[1..], end, less);
      var d := MergeFrom(syms, idx, rest[0], rest[1..]);
      assert ([s1] + d)[1..] == d;
    }
  }

  /** A store through a pointer is not merged into anything. */
  lemma {:induction false} KeptHead(syms: seq<Symbol>, idx: Index, s1: Statement, rest: seq<Statement>, end: Bits)
    requires |idx| == |syms| && Ready(syms, idx, s1) && ReadyCode(syms, idx, rest) && s1.t.kind != Direct
    ensures Uses(syms, idx, s1) <= Backward(syms, idx, MergeFrom(syms, idx, s1, rest), end)
  {
    var d := MergeFrom(syms, idx, s1, rest);
    assert d[0] == s1;
  }

  lemma {:induction false} ExecCons(m: Machine, syms: seq<Symbol>, st: Statement, rest: seq<Statement>, s: State)
    ensures ExecCode(m, syms, [st] + rest, s) == ExecCode(m, syms, rest, ExecStatement(m, syms, st, s))
  {
    assert ([st] + rest)[1..] == rest;
  }

  /** The unmerged pair and the merged statement, each followed by the rest of the code. */
  lemma {:induction false} MergeFirstPair(
    m: Machine, syms: seq<Symbol>, idx: Index, s1: Statement, rest: seq<Statement>, end: Bits, s: State)
    requires Lawful(m) && ValidIndex(idx, syms) && |s.env| == |syms|
    requires Ready(syms, idx, s1) && ReadyCode(syms, idx, rest) && Annotated(syms, idx, rest, end)
    requires rest != [] && CanMerge(syms, idx, s1, rest[0]) && Harmless(syms, idx, s1, rest[0]) && PlainCode(syms, idx, rest)
    ensures Similar(syms, idx, end,
      ExecCode(m, syms, [s1] + rest, s), ExecCode(m, syms, [Merged(s1, rest[0])] + rest[1..], s))
  {
    var s2, s12, tail := rest[0], Merged(s1, rest[0]), rest[1..];
    var s' := ExecStatement(m, syms, s1, s);
    MergePairSimilar(m, syms, idx, s1, s2, s);
    ExecCons(m, syms, s1, rest, s);
    assert rest == [s2] + tail;
    ExecCons(m, syms, s2, tail, s');
    ExecCons(m, syms, s12, tail, s);
    CodeSimilar(m, syms, idx, tail, end, ExecStatement(m, syms, s2, s'), ExecStatement(m, syms, s12, s));
  }

  /** Merging may go on with s1, after which the given symbols are live, before the rest. */
  predicate MayMerge(syms: seq<Symbol>, idx: Index, s1: Statement, out: Bits, rest: seq<Statement>, end: Bits) {
    && ValidIndex(idx, syms) && Ready(syms, idx, s1) && ReadyCode(syms, idx, rest) && Annotated(syms, idx, rest, end)
    && LiveBefore(syms, idx, rest, end) <= out
    && Plain(syms, idx, s1, out) && PlainCode(syms, idx, rest) && MergesKeep(syms, idx, s1, rest)
  }

  /** A merged statement is as plain as the copy was. */
  lemma {:induction false} MergedPlain(syms: seq<Symbol>, idx: Index, s1: Statement, s2: Statement)
    requires ValidIndex(idx, syms) && Ready(syms, idx, s1) && Ready(syms, idx, s2) && CanMerge(syms, idx, s1, s2)
    requires Plain(syms, idx, s2, s2.out)
    ensures Plain(syms, idx, Merged(s1, s2), s2.out)
  {
    var s12 := Merged(s1, s2);
    if !WritesAll(syms, s2.t) && Def(syms, idx, s2) <= Uses(syms, idx, s2) {
      assert s2.t.symbol == s1.t.symbol;
      assert Def(syms, idx, s12) !! s2.out;
    }
  }

  lemma {:induction false} MayMergeOn(
    syms: seq<Symbol>, idx: Index, s1: Statement, out: Bits, rest: seq<Statement>, end: Bits)
    requires MayMerge(syms, idx, s1, out, rest, end) && rest != []
    ensures if CanMerge(syms, idx, s1, rest[0])
      then Harmless(syms, idx, s1, rest[0]) && MayMerge(syms, idx, Merged(s1, rest[0]), rest[0].out, rest[1..], end)
      else MayMerge(syms, idx, rest[0], rest[0].out, rest[1..], end)
  {
    if CanMerge(syms, idx, s1, rest[0]) {
      MergedPlain(syms, idx, s1, rest[0]);
    }
  }

  /** The merge pass changes nothing that is live after the code, nor any event. */
  lemma {:induction false} MergeSimilar(
    m: Machine, syms: seq<Symbol>, idx: Index, s1: Statement, out: Bits, rest: seq<Statement>, end: Bits, s: State, t: State)
    requires Lawful(m) && MayMerge(syms, idx, s1, out, rest, end)
    requires Similar(syms, idx, Transfer(syms, idx, s1, out), s, t)
    ensures Similar(syms, idx, end,
      ExecCode(m, syms, [s1] + rest, s), ExecCode(m, syms, MergeFrom(syms, idx, s1, rest), t))
    decreases |rest|
  {
    var s', t' := ExecStatement(m, syms, s1, s), ExecStatement(m, syms, s1, t);
    ExecCons(m, syms, s1, rest, s);
    StatementSimilar(m, syms, idx, s1, out, s, t);
    SimilarMonotone(syms, idx, out, LiveBefore(syms, idx, rest, end), s', t');
    if rest == [] {
      assert [s1][1..] == [];
    } else {
      var s2, tail := rest[0], rest[1..];
      MayMergeOn(syms, idx, s1, out, rest, end);
      if CanMerge(syms, idx, s1, s2) {
        MergeTransfer(syms, idx, s1, s2, s2.out);
        MergeFirstPair(m, syms, idx, s1, rest, end, s);
        SimilarMonotone(syms, idx, Transfer(syms, idx, s1, out), Transfer(syms, idx, Merged(s1, s2), s2.out), s, t);
        MergeSimilar(m, syms, idx, Merged(s1, s2), s2.out, tail, end, s, t);
      } else {
        MergeSimilar(m, syms, idx, s2, s2.out, tail, end, s', t');
        assert [s2] + tail == rest;
        ExecCons(m, syms, s1, MergeFrom(syms, idx, s2, tail), t);
      }
    }
  }

  // ---------- Code that both passes may be given ----------

  /** What the analysis and the erasure make of the code, both passes keep the meaning of. */
  predicate RoundKeeps(syms: seq<Symbol>, idx: Index, c: seq<Statement>)
    requires |idx| == |syms| && ReadyCode(syms, idx, c)
  {
    PlainCode(syms, idx, c) && CodeMergesKeep(syms, idx, Dse(syms, idx, c))
  }

  lemma {:induction false} DsePlain(syms: seq<Symbol>, idx: Index, c: seq<Statement>)
    requires |idx| == |syms| && ReadyCode(syms, idx, c) && PlainCode(syms, idx, c)
    ensures PlainCode(syms, idx, Dse(syms, idx, c))
  {
    if c != [] {
      DsePlain(syms, idx, c[1..]);
      var first, d := DseStatement(syms, idx, c[0]), Dse(syms, idx, c);
      forall i | 0 <= i < |d|
        ensures Plain(syms, idx, d[i], d[i].out)
      {
        assert Plain(syms, idx, c[0], c[0].out);
        assert i < |first| || d[i] == Dse(syms, idx, c[1..])[i - |first|];
      }
    }
  }

  // ---------- A test that needs no analysis ----------

  /** Merging any two of the assignments is faithful and makes another of them. */
  predicate MergesFaithfully(syms: seq<Symbol>, all: set<Assignment>) {
    forall p, q :: p in all && q in all && Copies(syms, p, q) ==>
      Faithful(p, q) && Assignment(q.t, p.expr) in all
  }

  predicate In(all: set<Assignment>, s: Statement) { s.st == Assign ==> Of(s) in all }

  predicate Within(all: set<Assignment>, c: seq<Statement>) {
    forall i :: 0 <= i < |c| ==> In(all, c[i])
  }

  /** Whatever could be merged in the code, now or after earlier merges, would be merged faithfully. */
  ghost predicate Mergeable(syms: seq<Symbol>, c: seq<Statement>) {
    exists all :: MergesFaithfully(syms, all) && Within(all, c)
  }

  /** Every store to a local scalar is whole, and every argument shows its pointers. */
  predicate WholeCode(syms: seq<Symbol>, c: seq<Statement>) {
    forall i :: 0 <= i < |c| ==> WholeStatement(syms, c[i])
  }

  predicate WholeStatement(syms: seq<Symbol>, s: Statement) {
    && ValidStatement(s, syms)
    && (s.st == Assign ==> WritesAll(syms, s.t)) && (s.st == Param ==> ShowsPointer(s.expr))
  }

  /** Enough, but not needed, for all rounds to keep the code's meaning. */
  ghost predicate Optimizable(syms: seq<Symbol>, c: seq<Statement>) {
    WholeCode(syms, c) && Mergeable(syms, c)
  }

  /** A pair that may be merged is merged into one that may be merged further. */
  lemma {:induction false} MergedFaithfully(syms: seq<Symbol>, idx: Index, all: set<Assignment>, s1: Statement, s2: Statement)
    requires |idx| == |syms| && Ready(syms, idx, s1) && Ready(syms, idx, s2) && CanMerge(syms, idx, s1, s2)
    requires MergesFaithfully(syms, all) && In(all, s1) && In(all, s2)
    ensures Faithful(Of(s1), Of(s2)) && Ready(syms, idx, Merged(s1, s2)) && In(all, Merged(s1, s2))
    ensures WholeStatement(syms, s2) ==> WholeStatement(syms, Merged(s1, s2))
  {
    assert Copies(syms, Of(s1), Of(s2));
  }

  lemma {:induction false} DseWithin(syms: seq<Symbol>, idx: Index, all: set<Assignment>, c: seq<Statement>)
    requires |idx| == |syms| && ReadyCode(syms, idx, c) && WholeCode(syms, c) && Within(all, c)
    ensures WholeCode(syms, Dse(syms, idx, c)) && Within(all, Dse(syms, idx, c))
  {
    if c != [] {
      DseWithin(syms, idx, all, c[1..]);
      var first, rest := DseStatement(syms, idx, c[0]), Dse(syms, idx, c[1..]);
      forall i | 0 <= i < |first| + |rest|
        ensures WholeStatement(syms, (first + rest)[i]) && In(all, (first + rest)[i])
      {
        assert WholeStatement(syms, c[0]) && In(all, c[0]);
      }
    }
  }

  lemma {:induction false} MergeWithin(
    syms: seq<Symbol>, idx: Index, all: set<Assignment>, s1: Statement, rest: seq<Statement>)
    requires |idx| == |syms| && Ready(syms, idx, s1) && ReadyCode(syms, idx, rest)
    requires WholeStatement(syms, s1) && WholeCode(syms, rest)
    requires MergesFaithfully(syms, all) && In(all, s1) && Within(all, rest)
    ensures MergesKeep(syms, idx, s1, rest)
    ensures var d := MergeFrom(syms, idx, s1, rest); WholeCode(syms, d) && Within(all, d)
    decreases |rest|
  {
    if rest != [] {
      var s2 := rest[0];
      assert WholeStatement(syms, s2) && In(all, s2);
      if CanMerge(syms, idx, s1, s2) {
        MergedFaithfully(syms, idx, all, s1, s2);
        MergeWithin(syms, idx, all, Merged(s1, s2), rest[1..]);
      } else {
        MergeWithin(syms, idx, all, s2, rest[1..]);
      }
    }
  }

  /** Code that passes the test keeps its meaning in a round, and passes it again. */
  lemma {:induction false} OptimizableKeeps(syms: seq<Symbol>, idx: Index, c: seq<Statement>)
    requires |idx| == |syms| && ReadyCode(syms, idx, c) && Optimizable(syms, c)
    ensures RoundKeeps(syms, idx, c) && Optimizable(syms, MergeCode(syms, idx, Dse(syms, idx, c)))
  {
    var all :| MergesFaithfully(syms, all) && Within(all, c);
    forall i | 0 <= i < |c|
      ensures Plain(syms, idx, c[i], c[i].out)
    {
      assert WholeStatement(syms, c[i]);
    }
    var d := Dse(syms, idx, c);
    DseWithin(syms, idx, all, c);
    if d != [] {
      assert WholeStatement(syms, d[0]) && In(all, d[0]);
      MergeWithin(syms, idx, all, d[0], d[1..]);
    }
  }

  /** Recorded sets do not matter to the test. */
  lemma {:induction false} SetsOptimizable(syms: seq<Symbol>, c: seq<Statement>, d: seq<Statement>)
    requires |c| == |d| && forall i :: 0 <= i < |c| ==> d[i] == c[i].(out := d[i].out)
    requires Optimizable(syms, c)
    ensures Optimizable(syms, d)
  {
    var all :| MergesFaithfully(syms, all) && Within(all, c);
    forall i | 0 <= i < |d|
      ensures WholeStatement(syms, d[i]) && In(all, d[i])
    {
      assert WholeStatement(syms, c[i]) && In(all, c[i]);
    }
  }

  // ---------- What the passes leave behind ----------

  /** No dead store is left. */
  lemma {:induction false} DseLeavesNone(syms: seq<Symbol>, idx: Index, c: seq<Statement>)
    requires |idx| == |syms| && ReadyCode(syms, idx, c)
    ensures forall i :: 0 <= i < |Dse(syms, idx, c)| ==>
      ValidStatement(Dse(syms, idx, c)[i], syms) && !IsDeadStore(syms, idx, Dse(syms, idx, c)[i])
  {
    if c != [] {
      DseLeavesNone(syms, idx, c[1..]);
      var first := DseStatement(syms, idx, c[0]);
      forall i | 0 <= i < |first| + |Dse(syms, idx, c[1..])|
        ensures ValidStatement(Dse(syms, idx, c)[i], syms) && !IsDeadStore(syms, idx, Dse(syms, idx, c)[i])
      {
        if i >= |first| {
          assert Dse(syms, idx, c)[i] == Dse(syms, idx, c[1..])[i - |first|];
        }
      }
    }
  }

  predicate NoPairMerges(syms: seq<Symbol>, idx: Index, c: seq<Statement>)
    requires |idx| == |syms| && ReadyCode(syms, idx, c)
  {
    forall i :: 0 <= i < |c| - 1 ==> !CanMerge(syms, idx, c[i], c[i + 1])
  }

  /** No two neighbours can be merged any more. */
  lemma {:induction false} MergeLeavesNone(syms: seq<Symbol>, idx: Index, s1: Statement, rest: seq<Statement>)
    requires |idx| == |syms| && Ready(syms, idx, s1) && ReadyCode(syms, idx, rest)
    ensures NoPairMerges(syms, idx, MergeFrom(syms, idx, s1, rest))
    ensures var d := MergeFrom(syms, idx, s1, rest); d != [] && d[0] == s1.(t := d[0].t)
    ensures forall p :: Ready(syms, idx, p) && !CanMerge(syms, idx, p, s1) ==>
      !CanMerge(syms, idx, p, MergeFrom(syms, idx, s1, rest)[0])
    decreases |rest|
  {
    if rest != [] {
      var s2 := rest[0];
      if CanMerge(syms, idx, s1, s2) {
        MergeLeavesNone(syms, idx, Merged(s1, s2), rest[1..]);
        forall p | Ready(syms, idx, p) && !CanMerge(syms, idx, p, s1)
          ensures !CanMerge(syms, idx, p, Merged(s1, s2))
        {
          if TypeEqual(p.t.ty, s2.t.ty) {
            TypeEqualSymmetric(s1.t.ty, s2.t.ty);
            TypeEqualTransitive(p.t.ty, s2.t.ty, s1.t.ty);
          }
        }
      } else {
        MergeLeavesNone(syms, idx, s2, rest[1..]);
        var d := MergeFrom(syms, idx, s2, rest[1..]);
        assert !CanMerge(syms, idx, s1, d[0]);
        assert forall i :: 0 < i < |d| ==> ([s1] + d)[i] == d[i - 1];
      }
    }
  }

  // ---------- Stale sets ----------

  /** The code without its recorded sets. */
  function Bare(c: seq<Statement>): (d: seq<Statement>)
    ensures |d| == |c|
  {
    seq(|c|, i requires 0 <= i < |c| => c[i].(out := {}))
  }

  /** A merged statement keeps a set that no longer describes it; whatever that
      set is, the pass makes the same code. */
  lemma {:induction false} StaleOutUnread(
    syms: seq<Symbol>, idx: Index, s1: Statement, rest: seq<Statement>, stale: Bits)
    requires |idx| == |syms| && Ready(syms, idx, s1) && ReadyCode(syms, idx, rest)
    ensures Ready(syms, idx, s1.(out := stale))
    ensures Bare(MergeFrom(syms, idx, s1.(out := stale), rest)) == Bare(MergeFrom(syms, idx, s1, rest))
    decreases |rest|
  {
    if rest != [] && CanMerge(syms, idx, s1, rest[0]) {
      StaleOutUnread(syms, idx, Merged(s1, rest[0]), rest[1..], stale);
    } else if rest != [] {
      var d := MergeFrom(syms, idx, rest[0], rest[1..]);
      assert Bare([s1] + d) == Bare([s1]) + Bare(d);
      assert Bare([s1.(out := stale)] + d) == Bare([s1.(out := stale)]) + Bare(d);
    }
  }

  /** Solving the sets again reads no old set. */
  lemma {:induction false} AnnotateReadsBare(
    syms: seq<Symbol>, idx: Index, c: seq<Statement>, d: seq<Statement>, end: Bits)
    requires |idx| == |syms| && ReadyCode(syms, idx, c) && ReadyCode(syms, idx, d) && Bare(c) == Bare(d)
    ensures Annotate(syms, idx, c, end) == Annotate(syms, idx, d, end)
    ensures Backward(syms, idx, c, end) == Backward(syms, idx, d, end)
    decreases |c|
  {
    assert |c| == |d|;
    if c != [] {
      assert Bare(c)[0] == Bare(d)[0];
      assert Bare(c[1..]) == Bare(c)[1..] == Bare(d)[1..] == Bare(d[1..]);
      AnnotateReadsBare(syms, idx, c[1..], d[1..], end);
    }
  }
}
