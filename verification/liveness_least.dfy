/**
  How small the set before a statement could be: of the symbols that the analysis
  takes for live, exactly those are in every sound set whose value the statement
  passes on or leaves to be read.
*/
module LivenessLeast {
  import opened Options
  import opened Ir
  import opened IrSemantics
  import opened Liveness
  import opened LivePaths
  import opened LivenessLimits

  /** The operand's value depends on the symbol's; its address alone does not. */
  predicate ValueOf(v: Var, y: nat) { v.kind == Deref || (v.kind == Direct && v.symbol == Some(y)) }

  predicate ValueReads(e: Expr, y: nat) {
    ValueOf(e.l, y) || (!IsUnary(e.op) && ValueOf(e.r, y))
  }

  /** The value of the statement's expression goes to a place that is read, or to a callee. */
  predicate Matters(syms: seq<Symbol>, idx: Index, c: Statement, out: Bits)
    requires |idx| == |syms| && ValidStatement(c, syms)
  {
    || c.expr.op == Call || c.st == Param
    || (c.st == Assign && (c.t.kind == Direct ==> Observed(syms, idx, out, c.t.symbol.value)))
  }

  /** The statement leaves nothing of the symbol's value. */
  predicate Overwritten(syms: seq<Symbol>, c: Statement, y: nat)
    requires y < |syms|
  {
    c.st == Assign && c.t.kind == Direct && c.t.symbol == Some(y) && Covers(syms[y].ty, c.t)
  }

  /** The symbol's value is needed before the statement. */
  predicate Required(syms: seq<Symbol>, idx: Index, c: Statement, out: Bits, y: nat)
    requires |idx| == |syms| && ValidStatement(c, syms) && y < |syms|
  {
    || (Observed(syms, idx, out, y) && !Overwritten(syms, c, y))
    || (ValueReads(c.expr, y) && Matters(syms, idx, c, out))
    || (c.st == Assign && c.t.kind == Deref && c.t.symbol == Some(y))
    || (c.st == Param && ContainsPointer(c.expr.ty))
  }

  /** A local symbol with a number. */
  predicate Local(syms: seq<Symbol>, idx: Index, y: nat) {
    Numbered(syms, idx, y) && syms[y].linkage == LinkNone
  }

  // ---------- What is required is in every sound set ----------

  /** A machine that computes without losing anything; what it loads is symbol y. */
  function Reader(y: nat): Machine {
    Machine(
      (t: Type, v: Val) => v, (o: Op, t: Type, v: Val) => v, (o: Op, t: Type, v: Val, w: Val) => v + 3 * w,
      (x: nat) => 0, (v: Val, n: nat) => v,
      (t: Type, n: nat, v: Val) => v,
      (t: Type, v: Var, a: Val) => a, (t: Type, v: Var, a: Val, x: Val) => x,
      (e: Env, x: Ext, v: Var, p: Val) => if y < |e| then e[y] else 0,
      (x: nat, a: Val, v: Var, p: Val, w: Val) => a, (x: Ext, v: Var, p: Val, w: Val) => x,
      (c: CallInput) => 0, (x: nat, a: Val, c: CallInput) => a, (c: CallInput) => c.ext,
      (v: Val) => v == 1)
  }

  lemma {:induction false} ReaderLawful(y: nat)
    ensures Lawful(Reader(y))
  {
    var m := Reader(y);
    assert forall t, x :: Idempotent(m, t, x);
    assert forall t, v, a, b, x :: Overwrites(m, t, v, a, b, x);
    assert forall t, v, a, x :: ReadsBack(m, t, v, a, x);
    assert forall t, n: nat, x :: FieldFits(m, t, n, x);
    assert forall t, n: nat, wide, more: nat, x :: KeepsLowBits(m, t, n, wide, more, x);
  }

  /** How much more an operand is worth when y holds 1 instead of 0. */
  function Weight(v: Var, y: nat): int { if ValueOf(v, y) then 1 else 0 }

  lemma {:induction false} OperandWeight(syms: seq<Symbol>, v: Var, y: nat)
    requires ValidVar(v, syms) && y < |syms|
    ensures EvalVar(Reader(y), syms, v, Holding(syms, y, 1))
         == EvalVar(Reader(y), syms, v, Holding(syms, y, 0)) + Weight(v, y)
  {
  }

  lemma {:induction false} ExprWeight(syms: seq<Symbol>, e: Expr, y: nat)
    requires ValidExpr(e, syms) && y < |syms| && e.op != Call && ValueReads(e, y)
    ensures var m, s, t := Reader(y), Holding(syms, y, 0), Holding(syms, y, 1);
      && EvalExpr(m, syms, e, s).1 != EvalExpr(m, syms, e, t).1
      && EvalExpr(m, syms, e, s).0 == s && EvalExpr(m, syms, e, t).0 == t
  {
    OperandWeight(syms, e.l, y);
    if !IsUnary(e.op) {
      OperandWeight(syms, e.r, y);
    }
  }

  /** A value that is read and goes somewhere shows. */
  lemma {:induction false} ValueShows(syms: seq<Symbol>, idx: Index, c: Statement, out: Bits, y: nat)
    requires Local(syms, idx, y) && Ready(syms, idx, c) && ValueReads(c.expr, y) && Matters(syms, idx, c, out)
    ensures var m, s, t := Reader(y), Holding(syms, y, 0), Holding(syms, y, 1);
      !Similar(syms, idx, out, ExecStatement(m, syms, c, s), ExecStatement(m, syms, c, t))
  {
    var m, s, t := Reader(y), Holding(syms, y, 0), Holding(syms, y, 1);
    var s', t' := ExecStatement(m, syms, c, s), ExecStatement(m, syms, c, t);
    if c.expr.op == Call {
      OperandWeight(syms, c.expr.l, y);
      assert s'.trace[0] != t'.trace[0];
    } else {
      ExprWeight(syms, c.expr, y);
      match c.st
      case Param => assert s'.args[0] != t'.args[0];
      case Assign =>
        if c.t.kind == Direct {
          var z := c.t.symbol.value;
          assert s'.env[z] != t'.env[z];
        } else {
          assert s'.trace[0] != t'.trace[0];
        }
      case ExprStmt =>
    }
  }

  /** A value that is not overwritten stays, on the machine that pushes values up. */
  lemma {:induction false} ValueStays(syms: seq<Symbol>, idx: Index, c: Statement, out: Bits, y: nat)
    requires Local(syms, idx, y) && Ready(syms, idx, c) && Observed(syms, idx, out, y) && !Overwritten(syms, c, y)
    ensures var m, s, t := PushMachine(), Holding(syms, y, 0), Holding(syms, y, 1);
      !Similar(syms, idx, out, ExecStatement(m, syms, c, s), ExecStatement(m, syms, c, t))
  {
    var m, s, t := PushMachine(), Holding(syms, y, 0), Holding(syms, y, 1);
    var s', t' := ExecStatement(m, syms, c, s), ExecStatement(m, syms, c, t);
    if c.st == Assign && c.t.kind == Direct && c.t.symbol == Some(y) {
      PushedStore(syms, c, s);
      PushedStore(syms, c, t);
    }
    assert s'.env[y] != t'.env[y];
  }

  /** So does the pointer through which something is stored, and the memory that an
      argument shows. */
  lemma {:induction false} PointerShows(syms: seq<Symbol>, idx: Index, c: Statement, out: Bits, y: nat)
    requires Local(syms, idx, y) && Ready(syms, idx, c)
    requires || (c.st == Assign && c.t.kind == Deref && c.t.symbol == Some(y))
             || (c.st == Param && ContainsPointer(c.expr.ty))
    ensures var m, s, t := PushMachine(), Holding(syms, y, 0), Holding(syms, y, 1);
      !Similar(syms, idx, out, ExecStatement(m, syms, c, s), ExecStatement(m, syms, c, t))
  {
    var m, s, t := PushMachine(), Holding(syms, y, 0), Holding(syms, y, 1);
    var s', t' := ExecStatement(m, syms, c, s), ExecStatement(m, syms, c, t);
    if c.st == Param {
      assert s'.args[|s'.args| - 1].memory.value[y] != t'.args[|t'.args| - 1].memory.value[y];
    } else {
      assert s'.trace[|s'.trace| - 1] != t'.trace[|t'.trace| - 1];
    }
  }

  lemma {:induction false} RequiredIsNeeded(syms: seq<Symbol>, idx: Index, c: Statement, out: Bits, y: nat, live: Bits)
    requires Local(syms, idx, y) && Ready(syms, idx, c) && Required(syms, idx, c, out, y)
    requires idx[y] - 1 !in live
    ensures !SoundBefore(syms, idx, c, out, live)
  {
    var s, t := Holding(syms, y, 0), Holding(syms, y, 1);
    HoldingSimilar(syms, idx, live, y, 0, 1);
    var m := PushMachine();
    PushMachineLawful();
    if Observed(syms, idx, out, y) && !Overwritten(syms, c, y) {
      ValueStays(syms, idx, c, out, y);
    } else if ValueReads(c.expr, y) && Matters(syms, idx, c, out) {
      m := Reader(y);
      ReaderLawful(y);
      ValueShows(syms, idx, c, out, y);
    } else {
      PointerShows(syms, idx, c, out, y);
    }
    assert !KeepsSimilar(m, syms, idx, c, live, out, s, t);
  }

  // ---------- What is not required is in none ----------

  /** Another value of y changes nothing in what others see of the state. */
  predicate ButFor(y: nat, s: State, t: State) {
    && |s.env| == |t.env| && s.ext == t.ext && s.args == t.args && s.trace == t.trace
    && forall x :: 0 <= x < |s.env| && x != y ==> s.env[x] == t.env[x]
  }

  lemma {:induction false} OperandSame(m: Machine, syms: seq<Symbol>, v: Var, y: nat, s: State, t: State)
    requires ValidVar(v, syms) && ButFor(y, s, t) && !ValueOf(v, y)
    ensures EvalVar(m, syms, v, s) == EvalVar(m, syms, v, t)
  {
  }

  lemma {:induction false} ExprSame(m: Machine, syms: seq<Symbol>, idx: Index, e: Expr, y: nat, s: State, t: State)
    requires Local(syms, idx, y) && ValidExpr(e, syms) && ButFor(y, s, t) && |s.env| == |syms|
    requires e.op == Call ==> !ValueReads(e, y)
    ensures ButFor(y, EvalExpr(m, syms, e, s).0, EvalExpr(m, syms, e, t).0)
    ensures !ValueReads(e, y) ==> EvalExpr(m, syms, e, s).1 == EvalExpr(m, syms, e, t).1
  {
    if !ValueReads(e, y) {
      OperandSame(m, syms, e.l, y, s, t);
      if !IsUnary(e.op) {
        OperandSame(m, syms, e.r, y, s, t);
      }
    }
    if e.op == Call {
      assert Globals(syms, s.env) == Globals(syms, t.env);
    }
  }

  lemma {:induction false} StoreSame(
    m: Machine, syms: seq<Symbol>, idx: Index, c: Statement, out: Bits, y: nat, v: Val, w: Val, s: State, t: State)
    requires Lawful(m) && Local(syms, idx, y) && Ready(syms, idx, c) && c.st == Assign && |s.env| == |syms|
    requires ButFor(y, s, t) && !Required(syms, idx, c, out, y)
    requires v != w ==> c.t.kind == Direct && !Observed(syms, idx, out, c.t.symbol.value)
    ensures Similar(syms, idx, out, Store(m, syms, c.t, v, s), Store(m, syms, c.t, w, t))
  {
    var d := c.t;
    if d.kind == Direct {
      var x := d.symbol.value;
      if x == y && Observed(syms, idx, out, y) {
        assert Overwrites(m, syms[x].ty, Place(d), s.env[x], t.env[x], Kept(m, d, v));
      }
    } else {
      assert PointerValue(m, syms, d, s.env) == PointerValue(m, syms, d, t.env);
    }
  }

  /** Another value of a symbol that is not required changes nothing that is live
      afterwards, and no event. */
  lemma {:induction false} StatementSame(
    m: Machine, syms: seq<Symbol>, idx: Index, c: Statement, out: Bits, y: nat, s: State, t: State)
    requires Lawful(m) && Local(syms, idx, y) && Ready(syms, idx, c) && |s.env| == |syms|
    requires ButFor(y, s, t) && !Required(syms, idx, c, out, y)
    ensures Similar(syms, idx, out, ExecStatement(m, syms, c, s), ExecStatement(m, syms, c, t))
  {
    ExprSame(m, syms, idx, c.expr, y, s, t);
    var (s1, v) := EvalExpr(m, syms, c.expr, s);
    var (t1, w) := EvalExpr(m, syms, c.expr, t);
    match c.st
    case Assign => StoreSame(m, syms, idx, c, out, y, v, w, s1, t1);
    case _ => assert !Observed(syms, idx, out, y);
  }

  lemma {:induction false} SimilarTransitive(syms: seq<Symbol>, idx: Index, live: Bits, r: State, s: State, t: State)
    requires |idx| == |syms| && Similar(syms, idx, live, r, s) && Similar(syms, idx, live, s, t)
    ensures Similar(syms, idx, live, r, t)
  {
  }

  /** A sound set stays sound without a symbol that is not required. */
  lemma {:induction false} SoundWithout(syms: seq<Symbol>, idx: Index, c: Statement, out: Bits, y: nat, live: Bits)
    requires Local(syms, idx, y) && Ready(syms, idx, c) && !Required(syms, idx, c, out, y)
    requires SoundBefore(syms, idx, c, out, live)
    ensures SoundBefore(syms, idx, c, out, live - {idx[y] - 1})
  {
    var less := live - {idx[y] - 1};
    forall m: Machine, s: State, t: State | Lawful(m)
      ensures KeepsSimilar(m, syms, idx, c, less, out, s, t)
    {
      if Similar(syms, idx, less, s, t) {
        var r := t.(env := t.env[y := s.env[y]]);
        forall x | 0 <= x < |syms| && Observed(syms, idx, live, x)
          ensures s.env[x] == r.env[x]
        {
          assert x != y ==> Observed(syms, idx, less, x);
        }
        assert KeepsSimilar(m, syms, idx, c, live, out, s, r);
        StatementSame(m, syms, idx, c, out, y, r, t);
        SimilarTransitive(syms, idx, out, ExecStatement(m, syms, c, s), ExecStatement(m, syms, c, r),
          ExecStatement(m, syms, c, t));
      }
    }
  }

  /** Where the analysis is sound, a local symbol is in every sound set if and only if
      it is required. */
  lemma {:induction false} LeastIff(syms: seq<Symbol>, idx: Index, c: Statement, out: Bits, y: nat)
    requires Local(syms, idx, y) && Ready(syms, idx, c) && Plain(syms, idx, c, out)
    ensures (forall live :: SoundBefore(syms, idx, c, out, live) ==> idx[y] - 1 in live) <==> Required(syms, idx, c, out, y)
  {
    if Required(syms, idx, c, out, y) {
      forall live | SoundBefore(syms, idx, c, out, live)
        ensures idx[y] - 1 in live
      {
        if idx[y] - 1 !in live {
          RequiredIsNeeded(syms, idx, c, out, y, live);
        }
      }
    } else {
      TransferSoundIff(syms, idx, c, out);
      SoundWithout(syms, idx, c, out, y, Transfer(syms, idx, c, out));
    }
  }

  /** The analysis takes a symbol for live that is not in every sound set exactly when
      the statement names it, but only its address, or only for a value that is dropped. */
  lemma {:induction false} SpareIff(syms: seq<Symbol>, idx: Index, c: Statement, out: Bits, y: nat)
    requires Local(syms, idx, y) && Ready(syms, idx, c) && Plain(syms, idx, c, out)
    ensures Required(syms, idx, c, out, y) ==> idx[y] - 1 in Transfer(syms, idx, c, out)
    ensures idx[y] - 1 in Transfer(syms, idx, c, out) && !Required(syms, idx, c, out, y) ==>
      ExprReads(c.expr, y) && (ValueReads(c.expr, y) ==> !Matters(syms, idx, c, out))
  {
    TransferSoundIff(syms, idx, c, out);
    if Required(syms, idx, c, out, y) && idx[y] - 1 !in Transfer(syms, idx, c, out) {
      RequiredIsNeeded(syms, idx, c, out, y, Transfer(syms, idx, c, out));
    }
    TransferIff(syms, idx, c, out, y);
    PointerTestIff(c.expr.ty);
  }
}
