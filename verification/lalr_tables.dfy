/**
  From the finished state table to the generated parser's tables: the table is
  itself the least LALR system, its states are numbered in table order, and the
  numbered automaton is what the parser needs.
*/
module LalrTables {
  import opened Options
  import opened Grammars
  import opened FirstSets
  import opened Automata
  import opened ActionRows
  import opened PackedTables
  import opened ParserDriver
  import opened LalrItems
  import opened LalrClosure
  import opened LalrStates
  import opened LalrGenerator

  // ---------- The finished table is a system ----------

  predicate DistinctKernels(pool: seq<Item>) {
    forall p, q :: 0 <= p < |pool| && 0 <= q < |pool| && Kernel(pool[p].ts) == Kernel(pool[q].ts) ==> p == q
  }

  /** The states of the table by their kernels. */
  function TableSystem(pool: seq<Item>): (sys: System)
    requires DistinctKernels(pool)
    ensures forall p :: 0 <= p < |pool| ==> Kernel(pool[p].ts) in sys && sys[Kernel(pool[p].ts)] == pool[p].ts
    ensures forall k :: k in sys ==> exists p :: 0 <= p < |pool| && Kernel(pool[p].ts) == k
  {
    map p | 0 <= p < |pool| :: Kernel(pool[p].ts) := pool[p].ts
  }

  lemma {:induction false} OrderedKernelsDistinct(pool: seq<Item>, st: seq<nat>)
    requires ValidOrder(pool, st)
    ensures DistinctKernels(pool)
    ensures forall i, j :: 0 <= i < |st| && 0 <= j < |st| && st[i] == st[j] ==> i == j
  {
    forall p, q | 0 <= p < |pool| && 0 <= q < |pool| && Kernel(pool[p].ts) == Kernel(pool[q].ts)
      ensures p == q
    {
      assert p in st && q in st;
      var i :| 0 <= i < |st| && st[i] == p;
      var j :| 0 <= j < |st| && st[j] == q;
      KernelLessTotal(KernelAt(pool, st, i), KernelAt(pool, st, j));
    }
    forall i, j | 0 <= i < j < |st|
      ensures st[i] != st[j]
    {
      KernelLessTotal(KernelAt(pool, st, i), KernelAt(pool, st, j));
    }
  }

  lemma {:induction false} DottedShape(us: seq<Term>)
    requires Sorted(us) && Dotted(us)
    ensures KernelShape(us)
  {
    assert us[..|us|] == us;
    assert KernelFirst(us, |us|);
  }

  lemma {:induction false} MovedInKernel(g: Grammar, ts: seq<Term>, x: Sym, u: Term, vs: seq<Term>)
    requires TransitionOk(g, ts, x, vs) && KernelShape(vs) && CoreMovedFrom(g, ts, x, u) && u.dot > 0
    ensures CoreOf(u) in Kernel(vs)
  {
    KernelSorted(vs);
    KernelIsPrefix(vs);
    var i :| 0 <= i < |ts| && Expects(g, ts[i], x) && CoreOf(Advance(ts[i])) == CoreOf(u);
    TransitionTerm(g, ts, x, vs, i);
    var m :| 0 <= m < |vs| && CoreOf(vs[m]) == CoreOf(u);
    assert Kernel(vs)[m] == CoreOf(u);
  }

  lemma {:induction false} TransitionTerm(g: Grammar, ts: seq<Term>, x: Sym, vs: seq<Term>, i: nat)
    requires TransitionOk(g, ts, x, vs) && i < |ts| && Expects(g, ts[i], x)
    ensures HasCore(vs, CoreOf(Advance(ts[i])))
  {
    assert TermBelow(Advance(ts[i]), vs);
  }

  lemma {:induction false} KernelIsMoved(g: Grammar, ts: seq<Term>, x: Sym, us: seq<Term>, v: Term)
    requires CoresMoved(g, ts, x, us) && Dotted(us) && CoreMovedFrom(g, ts, x, v)
    ensures CoreOf(v) in Kernel(us)
  {
    KernelOfDotted(us);
    var i :| 0 <= i < |ts| && Expects(g, ts[i], x) && CoreOf(Advance(ts[i])) == CoreOf(v);
    assert HasCore(us, CoreOf(Advance(ts[i])));
    var j :| 0 <= j < |us| && CoreOf(us[j]) == CoreOf(v);
    assert Kernel(us)[j] == CoreOf(v);
  }

  /** A state reached over x has the kernel that moving over x gives. */
  lemma {:induction false} TransitionKernel(g: Grammar, ts: seq<Term>, x: Sym, us: seq<Term>, vs: seq<Term>)
    requires TransitionOk(g, ts, x, vs) && KernelShape(vs)
    requires CoresMoved(g, ts, x, us) && Sorted(us) && Dotted(us)
    ensures Kernel(vs) == Kernel(us)
  {
    DottedShape(us);
    KernelSorted(us);
    KernelSorted(vs);
    forall c | c in Kernel(us)
      ensures c in Kernel(vs)
    {
      KernelOfDotted(us);
      var j :| 0 <= j < |us| && Kernel(us)[j] == c;
      MovedInKernel(g, ts, x, us[j], vs);
    }
    forall c | c in Kernel(vs)
      ensures c in Kernel(us)
    {
      KernelIsPrefix(vs);
      var m :| 0 <= m < |Kernel(vs)| && Kernel(vs)[m] == c;
      KernelIsMoved(g, ts, x, us, vs[m]);
    }
    SortedCoresEqual(Kernel(vs), Kernel(us));
  }

  lemma {:induction false} ExpectedIsSymbol(g: Grammar, t: Term, x: Sym)
    requires ValidGrammar(g) && Expects(g, t, x)
    ensures x < g.nsy
  {
    assert ValidRule(g, g.rules[t.rule]);
    assert ValidSym(g, g.rules[t.rule].rhs[t.dot]);
  }

  lemma {:induction false} TableTransition(
    g: Grammar, info: Info, pool: seq<Item>, sys: System, p: nat, x: Sym, us: seq<Term>)
    requires ValidGrammar(g) && ValidInfo(g, info) && ValidPool(g, pool) && FinishedTable(g, info, pool)
    requires DistinctKernels(pool) && sys == TableSystem(pool) && p < |pool|
    requires Sorted(us) && Dotted(us) && us != [] && CoresMoved(g, pool[p].ts, x, us)
    ensures Kernel(us) in sys && MovedBelow(g, pool[p].ts, x, sys[Kernel(us)])
  {
    var ts := pool[p].ts;
    assert CoreMovedFrom(g, ts, x, us[0]);
    var i :| 0 <= i < |ts| && Expects(g, ts[i], x);
    ExpectedIsSymbol(g, ts[i], x);
    assert FinishedItem(g, info, pool, p) && GotoOk(g, pool, p, x);
    var q := pool[p].gtbl[x].value;
    assert ValidItem(g, pool, q);
    TransitionKernel(g, ts, x, us, pool[q].ts);
  }

  lemma {:induction false} TableEntry(g: Grammar, info: Info, pool: seq<Item>, sys: System, p: nat)
    requires ValidGrammar(g) && ValidInfo(g, info) && ValidPool(g, pool) && FinishedTable(g, info, pool)
    requires DistinctKernels(pool) && sys == TableSystem(pool) && p < |pool|
    ensures SystemEntry(g, info, sys, Kernel(pool[p].ts))
  {
    assert FinishedItem(g, info, pool, p);
    var k := Kernel(pool[p].ts);
    assert sys[k] == pool[p].ts;
    forall x, us | Sorted(us) && Dotted(us) && us != [] && CoresMoved(g, sys[k], x, us)
      ensures Kernel(us) in sys && MovedBelow(g, sys[k], x, sys[Kernel(us)])
    {
      TableTransition(g, info, pool, sys, p, x, us);
    }
  }

  /** The finished table is closed under closure and goto, contains the start, and
      has no more cores than closure forces: being below every such system of
      states, it is the least one. */
  lemma {:induction false} TableIsSystem(g: Grammar, info: Info, pool: seq<Item>, st: seq<nat>)
    requires ValidGrammar(g) && ValidInfo(g, info) && TableOk(g, pool, st) && FinishedTable(g, info, pool)
    ensures DistinctKernels(pool) && IsLalrSystem(g, info, TableSystem(pool))
  {
    OrderedKernelsDistinct(pool, st);
    var sys := TableSystem(pool);
    assert ValidItem(g, pool, 0);
    assert Kernel(pool[0].ts) == [] && CoreOf(pool[0].ts[0]) == (0, 0);
    assert TermBelow(Term(0, 0, {0}), pool[0].ts);
    forall k | k in sys
      ensures SystemEntry(g, info, sys, k)
    {
      var p :| 0 <= p < |pool| && Kernel(pool[p].ts) == k;
      TableEntry(g, info, pool, sys, p);
    }
  }

  // ---------- Numbering the states ----------

  /** id holds each state's place in the table, counted from 1. */
  predicate IsNumbering(st: seq<nat>, id: seq<nat>) {
    && |id| == |st|
    && (forall n :: 0 <= n < |st| ==> st[n] < |id| && id[st[n]] == n + 1)
    && (forall p :: 0 <= p < |id| ==> 1 <= id[p] <= |st| && st[id[p] - 1] == p)
  }

  method NumberStates(pool: seq<Item>, st: seq<nat>) returns (id: seq<nat>)
    requires ValidOrder(pool, st)
    ensures IsNumbering(st, id)
  {
    OrderedKernelsDistinct(pool, st);
    id := seq(|st|, p => 0);
    var n := 0;
    while n < |st|
      invariant 0 <= n <= |st| == |id|
      invariant forall m :: 0 <= m < n ==> id[st[m]] == m + 1
    {
      id := id[st[n] := n + 1];
      n := n + 1;
    }
    forall p | 0 <= p < |id|
      ensures 1 <= id[p] <= |st| && st[id[p] - 1] == p
    {
      assert p in st;
      var m :| 0 <= m < |st| && st[m] == p;
    }
  }

  function Renumber(target: Option<nat>, id: seq<nat>): (r: Option<nat>)
    requires forall p :: 0 <= p < |id| ==> id[p] > 0
    requires target.Some? ==> target.value < |id|
  {
    match target
    case None => None
    case Some(p) => Some(id[p] - 1)
  }

  /** The states in table order, their gotos by number. */
  function Numbered(g: Grammar, pool: seq<Item>, st: seq<nat>, id: seq<nat>): (a: Automaton)
    requires TableOk(g, pool, st) && IsNumbering(st, id)
    ensures |a.states| == |st| && a.ini + 1 == id[0]
    ensures forall n :: 0 <= n < |st| ==> a.states[n] == NumberedState(g, pool, st, id, n)
  {
    Automaton(seq(|st|, n requires 0 <= n < |st| => NumberedState(g, pool, st, id, n)), id[0] - 1)
  }

  function NumberedState(g: Grammar, pool: seq<Item>, st: seq<nat>, id: seq<nat>, n: nat): (q: State)
    requires TableOk(g, pool, st) && IsNumbering(st, id) && n < |st|
    ensures q.ts == pool[st[n]].ts && |q.gtbl| == g.nsy
    ensures ValidItem(g, pool, st[n])
    ensures forall x :: 0 <= x < g.nsy ==> q.gtbl[x] == Renumber(pool[st[n]].gtbl[x], id)
  {
    assert ValidItem(g, pool, st[n]);
    State(pool[st[n]].ts, seq(g.nsy, x requires 0 <= x < g.nsy => Renumber(pool[st[n]].gtbl[x], id)))
  }

  // ---------- The numbered automaton is what the parser needs ----------

  lemma {:induction false} SomeExpectsAlike(g: Grammar, q: State, x: Sym)
    ensures ExpectsSome(g, q, x) <==> SomeExpects(g, q.ts, x)
  {
    if ExpectsSome(g, q, x) {
      var i :| 0 <= i < |q.ts| && Expects(g, q.ts[i], x);
      assert SomeExpects(g, q.ts, x);
    }
    if SomeExpects(g, q.ts, x) {
      var i :| 0 <= i < |q.ts| && Expects(g, q.ts[i], x);
      assert ExpectsSome(g, q, x);
    }
  }

  lemma {:induction false} CoreIsHad(r: State, t: Term)
    requires HasCore(r.ts, CoreOf(t))
    ensures Has(r, t.rule, t.dot)
  {
    var j :| 0 <= j < |r.ts| && CoreOf(r.ts[j]) == CoreOf(t);
    assert r.ts[j].rule == t.rule && r.ts[j].dot == t.dot;
  }

  lemma {:induction false} CameFromMoved(g: Grammar, q: State, x: Sym, t: Term)
    requires ValidTerm(g, t) && t.dot > 0 && CoreMovedFrom(g, q.ts, x, t)
    ensures CameFrom(g, q, t, x)
  {
    var j :| 0 <= j < |q.ts| && Expects(g, q.ts[j], x) && CoreOf(Advance(q.ts[j])) == CoreOf(t);
    assert q.ts[j].rule == t.rule && q.ts[j].dot == t.dot - 1;
    assert Has(q, t.rule, t.dot - 1);
  }

  lemma {:induction false} TransitionHas(g: Grammar, q: State, x: Sym, r: State)
    requires ValidTerms(g, r.ts) && TransitionOk(g, q.ts, x, r.ts)
    ensures forall i :: 0 <= i < |q.ts| && Expects(g, q.ts[i], x) ==> Has(r, q.ts[i].rule, q.ts[i].dot + 1)
    ensures forall i :: 0 <= i < |r.ts| && r.ts[i].dot > 0 ==> CameFrom(g, q, r.ts[i], x)
  {
    forall i | 0 <= i < |q.ts| && Expects(g, q.ts[i], x)
      ensures Has(r, q.ts[i].rule, q.ts[i].dot + 1)
    {
      TransitionTerm(g, q.ts, x, r.ts, i);
      CoreIsHad(r, Advance(q.ts[i]));
    }
    forall i | 0 <= i < |r.ts| && r.ts[i].dot > 0
      ensures CameFrom(g, q, r.ts[i], x)
    {
      CameFromMoved(g, q, x, r.ts[i]);
    }
  }

  lemma {:induction false} TargetNumbered(
    g: Grammar, pool: seq<Item>, st: seq<nat>, id: seq<nat>, a: Automaton, n: nat, x: Sym)
    requires TableOk(g, pool, st) && IsNumbering(st, id) && a == Numbered(g, pool, st, id) && n < |st| && x < g.nsy
    ensures var q := a.states[n];
      && ValidItem(g, pool, st[n]) && |q.gtbl| == g.nsy && q.ts == pool[st[n]].ts
      && (q.gtbl[x].Some? <==> pool[st[n]].gtbl[x].Some?)
      && (q.gtbl[x].Some? ==>
            (&& q.gtbl[x].value < |a.states| && q.gtbl[x].value != a.ini
             && a.states[q.gtbl[x].value].ts == pool[pool[st[n]].gtbl[x].value].ts))
  {
    var p, q := st[n], a.states[n];
    assert q == NumberedState(g, pool, st, id, n);
    if pool[p].gtbl[x].Some? {
      var t := pool[p].gtbl[x].value;
      assert st[id[t] - 1] == t && st[id[0] - 1] == 0;
      assert a.states[id[t] - 1] == NumberedState(g, pool, st, id, id[t] - 1);
    }
  }

  lemma {:induction false} NumberedGoto(
    g: Grammar, info: Info, pool: seq<Item>, st: seq<nat>, id: seq<nat>, a: Automaton, n: nat, x: Sym)
    requires ValidGrammar(g) && ValidInfo(g, info) && TableOk(g, pool, st) && FinishedTable(g, info, pool)
    requires IsNumbering(st, id) && a == Numbered(g, pool, st, id) && n < |st| && x < g.nsy
    ensures var q := a.states[n];
      && |q.gtbl| == g.nsy
      && (q.gtbl[x].Some? ==> q.gtbl[x].value < |a.states| && q.gtbl[x].value != a.ini)
      && GotoExact(g, a, q, x)
  {
    var p, q := st[n], a.states[n];
    assert FinishedItem(g, info, pool, p) && GotoOk(g, pool, p, x);
    TargetNumbered(g, pool, st, id, a, n, x);
    SomeExpectsAlike(g, q, x);
    if q.gtbl[x].Some? {
      var r := a.states[q.gtbl[x].value];
      assert ValidItem(g, pool, pool[p].gtbl[x].value);
      TransitionHas(g, q, x, r);
    }
  }

  lemma {:induction false} NumberedJustified(
    g: Grammar, pool: seq<Item>, st: seq<nat>, id: seq<nat>, a: Automaton, n: nat, i: nat)
    requires ValidGrammar(g) && TableOk(g, pool, st)
    requires IsNumbering(st, id) && a == Numbered(g, pool, st, id) && n < |st|
    requires i < |a.states[n].ts|
    ensures Justified(g, a, n, a.states[n].ts[i])
  {
    var p, q := st[n], a.states[n];
    assert q == NumberedState(g, pool, st, id, n);
    assert ValidItem(g, pool, p);
    var t := q.ts[i];
    if t.dot == 0 && t.rule < |g.rules| {
      if i == 0 {
        assert CoreOf(t) == (0, 0) && p == 0 && id[0] == n + 1;
      } else {
        assert CoreOf(t) != (0, 0);
        SomeExpectsAlike(g, q, g.rules[t.rule].lhs);
      }
    }
  }

  lemma {:induction false} NumberedSound(
    g: Grammar, info: Info, pool: seq<Item>, st: seq<nat>, id: seq<nat>, a: Automaton, n: nat)
    requires ValidGrammar(g) && ValidInfo(g, info) && TableOk(g, pool, st) && FinishedTable(g, info, pool)
    requires IsNumbering(st, id) && a == Numbered(g, pool, st, id) && n < |st|
    ensures SoundState(g, a, n)
  {
    var q := a.states[n];
    assert q == NumberedState(g, pool, st, id, n);
    assert ValidItem(g, pool, st[n]);
    forall x | 0 <= x < g.nsy
      ensures q.gtbl[x].Some? ==> q.gtbl[x].value < |a.states| && q.gtbl[x].value != a.ini
    {
      NumberedGoto(g, info, pool, st, id, a, n, x);
    }
    forall x | 0 <= x < g.nsy
      ensures GotoExact(g, a, q, x)
    {
      NumberedGoto(g, info, pool, st, id, a, n, x);
    }
    forall i | 0 <= i < |q.ts|
      ensures Justified(g, a, n, q.ts[i])
    {
      NumberedJustified(g, pool, st, id, a, n, i);
    }
  }

  /** The numbered automaton spells gotos exactly and justifies every closure term. */
  lemma {:induction false} NumberedValid(
    g: Grammar, info: Info, pool: seq<Item>, st: seq<nat>, id: seq<nat>)
    requires ValidGrammar(g) && ValidInfo(g, info) && TableOk(g, pool, st) && FinishedTable(g, info, pool)
    requires IsNumbering(st, id)
    ensures ValidAutomaton(g, Numbered(g, pool, st, id))
  {
    var a := Numbered(g, pool, st, id);
    forall n | 0 <= n < |a.states|
      ensures SoundState(g, a, n)
    {
      NumberedSound(g, info, pool, st, id, a, n);
    }
    assert st[a.ini] == 0 && ValidItem(g, pool, 0);
    KernelSorted(pool[0].ts);
    assert Kernel(pool[0].ts) == [];
    assert a.states[a.ini] == NumberedState(g, pool, st, id, a.ini);
  }

  // ---------- The numbered automaton misses nothing ----------

  /** The state is closed with its lookaheads, and its gotos hand them on. */
  ghost predicate CompleteState(g: Grammar, info: Info, a: Automaton, k: nat)
    requires ValidGrammar(g) && ValidInfo(g, info) && k < |a.states|
  {
    var q := a.states[k];
    && ValidTerms(g, q.ts) && Closed(g, info, q.ts)
    && forall x :: 0 <= x < |q.gtbl| && q.gtbl[x].Some? ==>
         q.gtbl[x].value < |a.states| && MovedBelow(g, q.ts, x, a.states[q.gtbl[x].value].ts)
  }

  ghost predicate CompleteAutomaton(g: Grammar, info: Info, a: Automaton)
    requires ValidGrammar(g) && ValidInfo(g, info)
  {
    && a.ini < |a.states| && TermBelow(Term(0, 0, {0}), a.states[a.ini].ts)
    && forall k :: 0 <= k < |a.states| ==> CompleteState(g, info, a, k)
  }

  lemma {:induction false} NumberedCompleteState(
    g: Grammar, info: Info, pool: seq<Item>, st: seq<nat>, id: seq<nat>, a: Automaton, n: nat)
    requires ValidGrammar(g) && ValidInfo(g, info) && TableOk(g, pool, st) && FinishedTable(g, info, pool)
    requires IsNumbering(st, id) && a == Numbered(g, pool, st, id) && n < |st|
    ensures CompleteState(g, info, a, n)
  {
    var q := a.states[n];
    assert q == NumberedState(g, pool, st, id, n);
    assert FinishedItem(g, info, pool, st[n]);
    forall x | 0 <= x < |q.gtbl| && q.gtbl[x].Some?
      ensures q.gtbl[x].value < |a.states| && MovedBelow(g, q.ts, x, a.states[q.gtbl[x].value].ts)
    {
      TargetNumbered(g, pool, st, id, a, n, x);
      assert GotoOk(g, pool, st[n], x);
    }
  }

  lemma {:induction false} NumberedComplete(
    g: Grammar, info: Info, pool: seq<Item>, st: seq<nat>, id: seq<nat>)
    requires ValidGrammar(g) && ValidInfo(g, info) && TableOk(g, pool, st) && FinishedTable(g, info, pool)
    requires IsNumbering(st, id)
    ensures CompleteAutomaton(g, info, Numbered(g, pool, st, id))
  {
    var a := Numbered(g, pool, st, id);
    forall n | 0 <= n < |a.states|
      ensures CompleteState(g, info, a, n)
    {
      NumberedCompleteState(g, info, pool, st, id, a, n);
    }
    assert st[a.ini] == 0 && ValidItem(g, pool, 0);
    assert a.states[a.ini] == NumberedState(g, pool, st, id, a.ini);
    assert CoreOf(pool[0].ts[0]) == (0, 0);
  }

  /** Every term's shift has a goto to take. */
  lemma {:induction false} ValidIsReady(g: Grammar, p: Precedence, a: Automaton)
    requires ValidGrammar(g) && ValidAutomaton(g, a) && ValidPrecedence(g, p)
    ensures ReadyAll(g, p, a)
  {
    forall k | 0 <= k < |a.states|
      ensures Ready(g, p, a.states[k])
    {
      var q := a.states[k];
      assert SoundState(g, a, k);
      forall i | 0 <= i < |q.ts|
        ensures ReadyTerm(g, q, q.ts[i])
      {
        forall s | 0 <= s < g.nsy && Expects(g, q.ts[i], s)
          ensures q.gtbl[s].Some?
        {
          assert GotoExact(g, a, q, s) && ExpectsSome(g, q, s);
        }
      }
    }
  }

  // ---------- The generator ----------

  /** The automaton's states are the least LALR system of the grammar. */
  ghost predicate IsLeastLalr(g: Grammar, info: Info, a: Automaton, pool: seq<Item>, st: seq<nat>, id: seq<nat>) {
    && ValidGrammar(g) && ValidInfo(g, info) && ExactInfo(g, info)
    && TableOk(g, pool, st) && IsNumbering(st, id) && a == Numbered(g, pool, st, id)
    && DistinctKernels(pool) && IsLalrSystem(g, info, TableSystem(pool))
    && (forall sys :: IsLalrSystem(g, info, sys) ==> PoolWithin(sys, pool))
  }

  /** Build the automaton and number its states. */
  method BuildAutomaton(g: Grammar)
    returns (a: Automaton, ghost info: Info, ghost pool: seq<Item>, ghost st: seq<nat>, ghost id: seq<nat>)
    requires ValidGrammar(g) && Defined(g)
    ensures ValidAutomaton(g, a) && IsLeastLalr(g, info, a, pool, st, id) && CompleteAutomaton(g, info, a)
  {
    var symbols := new Symbols(g);
    symbols.Ginit();
    info := symbols.info;
    var gen := new Generator(g, symbols.info);
    gen.Stgen();
    pool, st := gen.pool, gen.st;
    var ids := NumberStates(gen.pool, gen.st);
    id := ids;
    a := Numbered(g, gen.pool, gen.st, ids);
    TableIsSystem(g, info, pool, st);
    NumberedValid(g, info, pool, st, id);
    NumberedComplete(g, info, pool, st, id);
  }

  /** The tables of the automaton, compressed and written out. */
  method BuildTables(g: Grammar, p: Precedence, a: Automaton) returns (t: Packed)
    requires ValidGrammar(g) && ValidPrecedence(g, p) && ValidAutomaton(g, a)
    ensures Good(g, p, a, t) && |t.act| <= |a.states| * (g.ntk + g.nsy - MAX_TK)
  {
    ValidIsReady(g, p, a);
    var tables := TblGen(g, p, a);
    var adsp, gdsp, act, chk, actsz := ActGen(g, p, a, tables);
    t := TblOut(g, p, a, tables, adsp, gdsp, act, chk, actsz);
  }

  /** The whole generator, from a grammar to the tables of its parser.  The tables
      implement the grammar's least LALR automaton; it is sound and complete, as
      the parser needs to accept nothing but sentences and, without conflicts,
      every sentence. */
  method Generate(g: Grammar, p: Precedence)
    returns (t: Packed, a: Automaton, ghost info: Info, ghost pool: seq<Item>, ghost st: seq<nat>, ghost id: seq<nat>)
    requires ValidGrammar(g) && Defined(g) && ValidPrecedence(g, p)
    ensures Good(g, p, a, t)
    ensures IsLeastLalr(g, info, a, pool, st, id) && CompleteAutomaton(g, info, a)
    ensures |t.act| <= |a.states| * (g.ntk + g.nsy - MAX_TK)
  {
    a, info, pool, st, id := BuildAutomaton(g);
    t := BuildTables(g, p, a);
  }
}
