/**
  The converse of the parser's soundness: when no state of the automaton has a
  conflict, the generated parser accepts every sentence of the grammar, and the
  value it returns is the sentence's parse tree.
*/
module ParserCompleteness {
  import opened Options
  import opened Grammars
  import opened FirstSets
  import opened Automata
  import opened ActionRows
  import opened PackedTables
  import opened ParserDriver
  import opened LalrItems
  import opened LalrStates
  import opened LalrTables

  // ---------- Runs of a loop ----------

  /** Where a loop with the given body is after at most n trips. */
  function After(body: Config -> Status, c: Config, n: nat): Status
    decreases n
  {
    if n == 0 then Going(c)
    else
      match body(c)
      case Going(d) => After(body, d, n - 1)
      case r => r
  }

  /** From c the loop gets to r. */
  ghost predicate Leads(body: Config -> Status, c: Config, r: Status) {
    exists n: nat :: After(body, c, n) == r
  }

  lemma {:induction false} RunOn(body: Config -> Status, c: Config, n: nat, m: nat)
    ensures match After(body, c, n)
      case Going(d) => After(body, c, n + m) == After(body, d, m)
      case r => After(body, c, n + m) == r
    decreases n
  {
    if n > 0 && body(c).Going? {
      RunOn(body, body(c).config, n - 1, m);
    }
  }

  lemma {:induction false} LeadsOn(body: Config -> Status, c: Config, d: Config, r: Status)
    requires Leads(body, c, Going(d)) && Leads(body, d, r)
    ensures Leads(body, c, r)
  {
    var n: nat :| After(body, c, n) == Going(d);
    var m: nat :| After(body, d, m) == r;
    RunOn(body, c, n, m);
  }

  lemma {:induction false} LeadsOnce(body: Config -> Status, c: Config)
    ensures Leads(body, c, Going(c)) && Leads(body, c, body(c))
  {
    assert After(body, c, 0) == Going(c) && After(body, c, 1) == body(c);
  }

  /** A loop ends in one way only. */
  lemma {:induction false} EndsOnce(body: Config -> Status, c: Config, r: Status, s: Status)
    requires Leads(body, c, r) && Leads(body, c, s) && !r.Going? && !s.Going?
    ensures r == s
  {
    var n: nat :| After(body, c, n) == r;
    var m: nat :| After(body, c, m) == s;
    RunOn(body, c, n, m);
    RunOn(body, c, m, n);
  }

  ghost predicate Unfolds(body: Config -> Status, run: (Config, nat) -> Status, c: Config, n: nat) {
    if n == 0 then run(c, 0) == Going(c)
    else
      match body(c)
      case Going(d) => run(c, n) == run(d, n - 1)
      case r => run(c, n) == r
  }

  lemma {:induction false} AfterIs(body: Config -> Status, run: (Config, nat) -> Status, c: Config, n: nat)
    requires forall d, m :: Unfolds(body, run, d, m)
    ensures After(body, c, n) == run(c, n)
    decreases n
  {
    assert Unfolds(body, run, c, n);
    if n > 0 && body(c).Going? {
      AfterIs(body, run, body(c).config, n - 1);
    }
  }

  // ---------- Entries without conflicts ----------

  /** Two terms that act on the same token shift it both, or reduce by the same rule. */
  predicate SameAction(g: Grammar, t: Term, u: Term) {
    if IsComplete(g, t) then IsComplete(g, u) && t.rule == u.rule else !IsComplete(g, u)
  }

  ghost predicate NoConflict(g: Grammar, q: State) {
    forall i, j, s :: 0 <= i < |q.ts| && 0 <= j < |q.ts| && ActsOn(g, q.ts[i], s) && ActsOn(g, q.ts[j], s) ==>
      SameAction(g, q.ts[i], q.ts[j])
  }

  /** The entry that the term alone makes. */
  function OwnEntry(g: Grammar, q: State, t: Term, s: Sym): int
    requires s < |q.gtbl|
  {
    if IsComplete(g, t) then Red(t.rule) else GotoEntry(q, s)
  }

  /** Without conflicts an entry is what any term that acts on the token makes of it. */
  lemma {:induction false} EntryIs(g: Grammar, p: Precedence, q: State, i: nat, s: Sym, n: nat)
    requires Ready(g, p, q) && NoConflict(g, q) && s < g.ntk && n <= |q.ts|
    requires i < |q.ts| && ActsOn(g, q.ts[i], s)
    ensures Entry(g, p, q, s, n) == OwnEntry(g, q, q.ts[i], s) || (n <= i && Entry(g, p, q, s, n) == 0)
    decreases n
  {
    if n > 0 {
      EntryIs(g, p, q, i, s, n - 1);
      var t := q.ts[n - 1];
      assert ReadyTerm(g, q, t) && ReadyTerm(g, q, q.ts[i]);
      if ActsOn(g, t, s) {
        assert SameAction(g, q.ts[i], t);
      }
    }
  }

  // ---------- The parser at work ----------

  /** A grammar with its tables, and the tokens that the parser is to read. */
  datatype Parser = Parser(g: Grammar, info: Info, p: Precedence, a: Automaton, t: Packed, lex: nat -> Sym)

  /** Tables of a complete automaton without conflicts. */
  ghost predicate Works(x: Parser) {
    && Good(x.g, x.p, x.a, x.t) && (forall i: nat :: x.lex(i) < x.g.ntk)
    && ValidInfo(x.g, x.info) && ExactInfo(x.g, x.info) && CompleteAutomaton(x.g, x.info, x.a)
    && forall k :: 0 <= k < |x.a.states| ==> NoConflict(x.g, x.a.states[k])
  }

  ghost predicate At(x: Parser, c: Config) {
    Works(x) && Inv(x.g, x.a, x.lex, c) && c.tk >= -1 && |c.stack| < STACK_SIZE
  }

  /** Where in the input the next token to shift stands. */
  function Ahead(c: Config): nat
    requires c.tk >= 0 ==> c.pos > 0
  {
    if c.tk >= 0 then c.pos - 1 else c.pos
  }

  /** One trip round the parser's loop. */
  ghost function Trips(x: Parser): Config -> Status {
    c => if At(x, c) then ParserDriver.Step(x.g, x.p, x.a, x.t, x.lex, c) else SyntaxError
  }

  lemma {:induction false} TripKeepsAt(x: Parser, c: Config)
    requires At(x, c) && Trips(x)(c).Going?
    ensures At(x, Trips(x)(c).config)
  {
    StepKeepsInv(x.g, x.p, x.a, x.t, x.lex, c);
    ActReady(x.g, x.p, x.a, x.t, x.lex, c);
  }

  ghost function Runs(x: Parser): (Config, nat) -> Status {
    (c: Config, n: nat) =>
      if At(x, c) then Run(x.g, x.p, x.a, x.t, x.lex, c, n) else if n == 0 then Going(c) else SyntaxError
  }

  lemma {:induction false} RunUnfolds(x: Parser, c: Config, n: nat)
    ensures Unfolds(Trips(x), Runs(x), c, n)
  {
    if At(x, c) && n > 0 && Trips(x)(c).Going? {
      TripKeepsAt(x, c);
    }
  }

  lemma {:induction false} AfterIsRun(x: Parser, c: Config, n: nat)
    requires At(x, c)
    ensures After(Trips(x), c, n) == Run(x.g, x.p, x.a, x.t, x.lex, c, n)
  {
    forall d, m
      ensures Unfolds(Trips(x), Runs(x), d, m)
    {
      RunUnfolds(x, d, m);
    }
    AfterIs(Trips(x), Runs(x), c, n);
    assert Runs(x)(c, n) == Run(x.g, x.p, x.a, x.t, x.lex, c, n);
  }

  // ---------- One move ----------

  /** With the next token s at hand, or in a state that needs none, the parser
      does what its state's entry for s says. */
  lemma {:induction false} DecideIs(g: Grammar, p: Precedence, a: Automaton, t: Packed, d: Config, s: Sym, e: int)
    requires Good(g, p, a, t) && Top(t, d.stack) < |a.states| && s < g.ntk
    requires d.tk == s || (d.tk == -1 && t.adsp[Top(t, d.stack)] + g.ntk <= 0)
    requires e == EntryRow(g, p, a, Top(t, d.stack))[s] && e != 0 && e != -1
    ensures Decide(t, d) == if e > 0 then Shift(e - 1) else ReduceBy(Red(e))
    ensures e > 0 ==> d.tk == s
  {
    var k := Top(t, d.stack);
    assert ActionsAgree(g, p, a, t, k) && ActionAgrees(t, k, s, e);
    assert d.tk == -1 ==> ActionLookup(t, k, s) == None;
  }

  /** What a term that acts on the next token makes the parser do. */
  lemma {:induction false} MoveIs(x: Parser, c: Config, i: nat)
    requires At(x, c) && Top(x.t, c.stack) < |x.a.states| && i < |x.a.states[Top(x.t, c.stack)].ts|
    requires ActsOn(x.g, x.a.states[Top(x.t, c.stack)].ts[i], x.lex(Ahead(c)))
    ensures var d, q := Fetch(x.t, x.lex, c), x.a.states[Top(x.t, c.stack)];
      && At(x, d) && d.stack == c.stack && Ahead(d) == Ahead(c)
      && CanAct(x.t, d) && Trips(x)(c) == Act(x.t, d)
      && (if IsComplete(x.g, q.ts[i]) then Decide(x.t, d) == ReduceBy(q.ts[i].rule)
          else
            var s := x.lex(Ahead(c));
            d.tk == s && s < |q.gtbl| && q.gtbl[s].Some? && Decide(x.t, d) == Shift(q.gtbl[s].value))
  {
    var k, s := Top(x.t, c.stack), x.lex(Ahead(c));
    var d, q := Fetch(x.t, x.lex, c), x.a.states[k];
    ActReady(x.g, x.p, x.a, x.t, x.lex, c);
    FetchReady(x.g, x.p, x.a, x.t, x.lex, c);
    FetchKeepsInv(x.g, x.a, x.t, x.lex, c);
    assert Ready(x.g, x.p, q) && NoConflict(x.g, q) && ReadyTerm(x.g, q, q.ts[i]);
    EntryIs(x.g, x.p, q, i, s, |q.ts|);
    DecideIs(x.g, x.p, x.a, x.t, d, s, OwnEntry(x.g, q, q.ts[i], s));
  }

  // ---------- Terms and their lookaheads ----------

  /** State k holds the rule with its dot there and la among its lookaheads. */
  ghost predicate Offers(a: Automaton, k: nat, rule: nat, dot: nat, la: Sym) {
    k < |a.states| && exists i :: OffersAt(a.states[k], i, rule, dot, la)
  }

  predicate OffersAt(q: State, i: int, rule: nat, dot: nat, la: Sym) {
    0 <= i < |q.ts| && CoreOf(q.ts[i]) == (rule, dot) && la in q.ts[i].lk
  }

  /** What stands after the dot can be followed by la. */
  ghost predicate Precedes(g: Grammar, info: Info, rule: nat, dot: nat, la: Sym, next: Sym)
    requires ValidGrammar(g) && ValidInfo(g, info)
  {
    && rule < |g.rules| && dot < |g.rules[rule].rhs| && ValidRule(g, g.rules[rule])
    && next in First(g, info, g.rules[rule].rhs[dot + 1..], {la})
  }

  /** Closure: where rule r is expected, it is offered with what may follow. */
  lemma {:induction false} ClosureOffers(x: Parser, k: nat, rule: nat, dot: nat, la: Sym, next: Sym, r: nat)
    requires Works(x) && Offers(x.a, k, rule, dot, la) && Precedes(x.g, x.info, rule, dot, la, next)
    requires r < |x.g.rules| && x.g.rules[r].lhs == x.g.rules[rule].rhs[dot]
    ensures Offers(x.a, k, r, 0, next)
  {
    var q := x.a.states[k];
    var i :| OffersAt(q, i, rule, dot, la);
    assert CompleteState(x.g, x.info, x.a, k) && ClosedFor(x.g, x.info, q.ts, q.ts[i]);
    FirstMonotone(x.g, x.info, Rest(x.g, q.ts[i]), {la}, q.ts[i].lk);
    var m :| 0 <= m < |q.ts| && CoreOf(q.ts[m]) == (r, 0) && Handed(x.g, x.info, q.ts[i]) <= q.ts[m].lk;
    assert OffersAt(q, m, r, 0, next);
  }

  /** Goto: a term's lookaheads go with it. */
  lemma {:induction false} GotoOffers(x: Parser, k: nat, rule: nat, dot: nat, la: Sym)
    requires Works(x) && Offers(x.a, k, rule, dot, la)
    requires rule < |x.g.rules| && dot < |x.g.rules[rule].rhs|
    ensures var s, q := x.g.rules[rule].rhs[dot], x.a.states[k];
      s < |q.gtbl| && q.gtbl[s].Some? && Offers(x.a, q.gtbl[s].value, rule, dot + 1, la)
  {
    var q, s := x.a.states[k], x.g.rules[rule].rhs[dot];
    var i :| OffersAt(q, i, rule, dot, la);
    assert Expects(x.g, q.ts[i], s) && ReadyTerm(x.g, q, q.ts[i]);
    ExpectedIsSymbol(x.g, q.ts[i], s);
    assert CompleteState(x.g, x.info, x.a, k);
    var next := x.a.states[q.gtbl[s].value];
    assert TermBelow(Advance(q.ts[i]), next.ts);
    var j :| 0 <= j < |next.ts| && CoreOf(next.ts[j]) == CoreOf(Advance(q.ts[i])) && q.ts[i].lk <= next.ts[j].lk;
    assert OffersAt(next, j, rule, dot + 1, la);
  }

  /** What follows a tree can be seen in the trees after it, or past them. */
  lemma {:induction false} NextPrecedes(
    g: Grammar, info: Info, rule: nat, ts: seq<Tree>, m: nat, la: Sym, next: Sym, parent: Tree)
    requires ValidGrammar(g) && ValidInfo(g, info) && ExactInfo(g, info) && la < g.ntk
    requires rule < |g.rules| && Roots(g, ts) == g.rules[rule].rhs && ValidForest(g, ts) && m < |ts|
    requires forall i :: 0 <= i < |ts| ==> ts[i] < parent
    requires next == (YieldForest(ts[m + 1..]) + [la])[0]
    ensures Precedes(g, info, rule, m, la, next)
  {
    var us, rhs := ts[m + 1..], g.rules[rule].rhs;
    assert ValidRule(g, g.rules[rule]);
    assert Roots(g, us) == rhs[m + 1..];
    ForestDerives(g, us, parent);
    YieldTokens(g, us, parent);
    FirstExact(g, info, rhs[m + 1..], {la}, next);
    var y := YieldForest(us);
    if y != [] {
      assert y == [next] + y[1..];
    }
  }

  // ---------- Parsing trees ----------

  /** The stack that parsing a tree takes. */
  function Depth(t: Tree): (n: nat)
    ensures n > 0
  {
    match t
    case Leaf(_) => 1
    case Node(_, ts) => if ts == [] then 1 else ForestDepth(ts)
  }

  function ForestDepth(ts: seq<Tree>): (n: nat)
    ensures ts != [] ==> n > 0
  {
    if ts == [] then 0
    else
      var first, others := Depth(ts[0]), 1 + ForestDepth(ts[1..]);
      if first > others then first else others
  }

  predicate Spells(lex: nat -> Sym, i: nat, w: seq<Sym>) {
    forall j: nat :: j < |w| ==> SpelledAt(lex, i, w, j)
  }

  predicate SpelledAt(lex: nat -> Sym, i: nat, w: seq<Sym>, j: nat) {
    j < |w| && lex(i + j) == w[j]
  }

  /** The parser has the first m of a rule's trees on its stack above base, and the
      rest of them in front of it, then the lookahead. */
  ghost predicate Reading(x: Parser, c: Config, base: seq<Frame>, rule: nat, ts: seq<Tree>, m: nat, la: Sym) {
    && At(x, c) && rule < |x.g.rules| && Roots(x.g, ts) == x.g.rules[rule].rhs && ValidForest(x.g, ts)
    && m <= |ts| && base <= c.stack && Vals(c.stack[|base|..]) == ts[..m]
    && Offers(x.a, Top(x.t, c.stack), rule, m, la) && la < x.g.ntk
    && Spells(x.lex, Ahead(c), YieldForest(ts[m..]) + [la])
  }

  /** d is c with the tree read. */
  ghost predicate Read(x: Parser, c: Config, t: Tree, d: Config) {
    && At(x, c) && At(x, d) && Leads(Trips(x), c, Going(d))
    && Ahead(d) == Ahead(c) + |Yield(t)|
    && Top(x.t, c.stack) < |x.a.states|
    && var q, s := x.a.states[Top(x.t, c.stack)], Root(x.g, t);
      s < |q.gtbl| && q.gtbl[s].Some? && d.stack == c.stack + [Frame(q.gtbl[s].value, t)]
  }

  /** Shifting a token reads the leaf. */
  lemma {:induction false} ShiftReads(x: Parser, c: Config, s: Sym, rule: nat, dot: nat, la: Sym)
    requires At(x, c) && Offers(x.a, Top(x.t, c.stack), rule, dot, la) && s < x.g.ntk && x.lex(Ahead(c)) == s
    requires rule < |x.g.rules| && dot < |x.g.rules[rule].rhs| && x.g.rules[rule].rhs[dot] == s
    ensures var r := Trips(x)(c);
      if |c.stack| + 1 >= STACK_SIZE then r == Overflow else r.Going? && Read(x, c, Leaf(s), r.config)
  {
    var q := x.a.states[Top(x.t, c.stack)];
    var i :| OffersAt(q, i, rule, dot, la);
    assert Expects(x.g, q.ts[i], s) && ActsOn(x.g, q.ts[i], s);
    MoveIs(x, c, i);
    LeadsOnce(Trips(x), c);
    if Trips(x)(c).Going? {
      TripKeepsAt(x, c);
    }
  }

  /** With all of a rule's trees on the stack, the parser decides for the rule. */
  lemma {:induction false} DecidesForRule(x: Parser, c: Config, base: seq<Frame>, rule: nat, ts: seq<Tree>, la: Sym)
    requires Reading(x, c, base, rule, ts, |ts|, la)
    ensures Top(x.t, c.stack) < |x.a.states| && Has(x.a.states[Top(x.t, c.stack)], rule, |x.g.rules[rule].rhs|)
    ensures var d := Fetch(x.t, x.lex, c);
      && At(x, d) && d.stack == c.stack && Ahead(d) == Ahead(c)
      && CanAct(x.t, d) && Trips(x)(c) == Act(x.t, d) && Decide(x.t, d) == ReduceBy(rule)
  {
    var q := x.a.states[Top(x.t, c.stack)];
    var i :| OffersAt(q, i, rule, |ts|, la);
    assert |ts| == |Roots(x.g, ts)| && YieldForest(ts[|ts|..]) + [la] == [la];
    assert SpelledAt(x.lex, Ahead(c), [la], 0);
    assert IsComplete(x.g, q.ts[i]) && ActsOn(x.g, q.ts[i], la);
    MoveIs(x, c, i);
  }

  /** What a reduction pops is the rule's trees. */
  lemma {:induction false} Popped(x: Parser, c: Config, base: seq<Frame>, rule: nat, ts: seq<Tree>, la: Sym)
    requires Reading(x, c, base, rule, ts, |ts|, la)
    ensures |c.stack| == |base| + |ts| && |ts| == |x.g.rules[rule].rhs| == x.t.r1[rule]
    ensures c.stack[..|base|] == base && Vals(c.stack[|base|..]) == ts
  {
    assert |ts| == |Roots(x.g, ts)| && |Vals(c.stack[|base|..])| == |c.stack| - |base|;
    assert ts[..|ts|] == ts;
  }

  lemma {:induction false} ReduceFolds(x: Parser, c: Config, base: seq<Frame>, rule: nat, ts: seq<Tree>, la: Sym)
    requires Reading(x, c, base, rule, ts, |ts|, la) && rule > 0
    ensures var r := Trips(x)(c);
      if |base| + 1 >= STACK_SIZE then r == Overflow
      else
        && r.Going? && At(x, r.config) && Ahead(r.config) == Ahead(c)
        && Top(x.t, base) < |x.a.states|
        && var q, s := x.a.states[Top(x.t, base)], x.g.rules[rule].lhs;
           s < |q.gtbl| && q.gtbl[s].Some? && r.config.stack == base + [Frame(q.gtbl[s].value, Node(rule, ts))]
  {
    DecidesForRule(x, c, base, rule, ts, la);
    Popped(x, c, base, rule, ts, la);
    ReduceReady(x.g, x.p, x.a, x.t, c.stack, rule);
    if Trips(x)(c).Going? {
      TripKeepsAt(x, c);
    }
  }

  lemma {:induction false} SpellsSplit(lex: nat -> Sym, i: nat, v: seq<Sym>, w: seq<Sym>)
    requires Spells(lex, i, v + w)
    ensures Spells(lex, i, v) && Spells(lex, i + |v|, w)
  {
    forall j: nat | j < |v|
      ensures SpelledAt(lex, i, v, j)
    {
      assert SpelledAt(lex, i, v + w, j);
    }
    var k := i + |v|;
    forall j: nat | j < |w|
      ensures SpelledAt(lex, k, w, j)
    {
      assert SpelledAt(lex, i, v + w, |v| + j);
    }
  }

  /** The token after the next tree. */
  function Following(ts: seq<Tree>, m: nat, la: Sym): Sym
    requires m < |ts|
  {
    (YieldForest(ts[m + 1..]) + [la])[0]
  }

  /** The next tree and the token after it stand in front of the parser. */
  lemma {:induction false} NextTree(lex: nat -> Sym, i: nat, ts: seq<Tree>, m: nat, la: Sym, k: nat)
    requires m < |ts| && Spells(lex, i, YieldForest(ts[m..]) + [la]) && k == i + |Yield(ts[m])|
    ensures Spells(lex, i, Yield(ts[m]) + [Following(ts, m, la)])
    ensures Spells(lex, k, YieldForest(ts[m + 1..]) + [la])
  {
    var y, others := Yield(ts[m]), YieldForest(ts[m + 1..]) + [la];
    assert ts[m..][1..] == ts[m + 1..];
    assert YieldForest(ts[m..]) + [la] == y + others;
    SpellsSplit(lex, i, y, others);
    assert others == [others[0]] + others[1..];
    assert y + others == (y + [others[0]]) + others[1..];
    SpellsSplit(lex, i, y + [others[0]], others[1..]);
  }

  lemma {:induction false} PushedVals(stack: seq<Frame>, base: seq<Frame>, f: Frame, ts: seq<Tree>, m: nat)
    requires base <= stack && m < |ts| && Vals(stack[|base|..]) == ts[..m] && f.val == ts[m]
    ensures base <= stack + [f] && Vals((stack + [f])[|base|..]) == ts[..m + 1]
  {
    assert (stack + [f])[|base|..] == stack[|base|..] + [f];
    assert Vals(stack[|base|..] + [f]) == ts[..m] + [ts[m]];
    assert ts[..m] + [ts[m]] == ts[..m + 1];
  }

  /** Having read the next tree, the parser has one more on its stack. */
  lemma {:induction false} ReadKeepsReading(
    x: Parser, c: Config, base: seq<Frame>, rule: nat, ts: seq<Tree>, m: nat, la: Sym, d: Config)
    requires Reading(x, c, base, rule, ts, m, la) && m < |ts| && Read(x, c, ts[m], d)
    ensures Reading(x, d, base, rule, ts, m + 1, la) && |d.stack| == |c.stack| + 1
  {
    assert Roots(x.g, ts)[m] == x.g.rules[rule].rhs[m];
    GotoOffers(x, Top(x.t, c.stack), rule, m, la);
    assert Top(x.t, d.stack) == x.a.states[Top(x.t, c.stack)].gtbl[Root(x.g, ts[m])].value;
    NextTree(x.lex, Ahead(c), ts, m, la, Ahead(d));
    PushedVals(c.stack, base, d.stack[|c.stack|], ts, m);
  }

  /** What the parser has in front of it when it is to read a tree. */
  ghost predicate Facing(x: Parser, c: Config, rule: nat, dot: nat, la: Sym, t: Tree, next: Sym) {
    && At(x, c) && Offers(x.a, Top(x.t, c.stack), rule, dot, la)
    && Precedes(x.g, x.info, rule, dot, la, next) && next < x.g.ntk
    && ValidTree(x.g, t) && Root(x.g, t) == x.g.rules[rule].rhs[dot]
    && Spells(x.lex, Ahead(c), Yield(t) + [next])
  }

  lemma {:induction false} FacesNext(
    x: Parser, c: Config, base: seq<Frame>, rule: nat, ts: seq<Tree>, m: nat, la: Sym, parent: Tree)
    requires Reading(x, c, base, rule, ts, m, la) && m < |ts|
    requires forall i :: 0 <= i < |ts| ==> ts[i] < parent
    ensures Facing(x, c, rule, m, la, ts[m], Following(ts, m, la))
  {
    var next := Following(ts, m, la);
    NextTree(x.lex, Ahead(c), ts, m, la, Ahead(c) + |Yield(ts[m])|);
    NextPrecedes(x.g, x.info, rule, ts, m, la, next, parent);
    assert Roots(x.g, ts)[m] == x.g.rules[rule].rhs[m];
    YieldTokens(x.g, ts[m + 1..], parent);
  }

  /** Where a rule's left side is expected, the parser can start on its trees. */
  lemma {:induction false} StartsRule(
    x: Parser, c: Config, rule: nat, dot: nat, la: Sym, r: nat, ts: seq<Tree>, next: Sym)
    requires Facing(x, c, rule, dot, la, Node(r, ts), next)
    ensures 0 < r < |x.g.rules| && Reading(x, c, c.stack, r, ts, 0, next)
  {
    assert ValidRule(x.g, x.g.rules[rule]);
    ClosureOffers(x, Top(x.t, c.stack), rule, dot, la, next, r);
    assert Vals(c.stack[|c.stack|..]) == [] && ts[0..] == ts;
  }

  /** The end of reading a tree: one more frame, or too deep a stack. */
  ghost predicate Parsed(x: Parser, c: Config, t: Tree, d: Config) {
    At(x, c) && if |c.stack| + Depth(t) >= STACK_SIZE then Leads(Trips(x), c, Overflow) else Read(x, c, t, d)
  }

  ghost predicate ForestParsed(
    x: Parser, c: Config, base: seq<Frame>, rule: nat, ts: seq<Tree>, m: nat, la: Sym, d: Config)
  {
    && At(x, c) && m <= |ts|
    && if |c.stack| + ForestDepth(ts[m..]) >= STACK_SIZE then Leads(Trips(x), c, Overflow)
       else
         && Reading(x, d, base, rule, ts, |ts|, la) && Leads(Trips(x), c, Going(d))
         && Ahead(d) == Ahead(c) + |YieldForest(ts[m..])|
  }

  /** Facing a tree that its state expects, and a token that may follow it, the
      parser reads the tree, unless its stack is too small. */
  lemma {:induction false} ParsesTree(
    x: Parser, c: Config, rule: nat, dot: nat, la: Sym, t: Tree, next: Sym) returns (d: Config)
    requires Facing(x, c, rule, dot, la, t, next)
    ensures Parsed(x, c, t, d)
    decreases t, 1, 0
  {
    match t
    case Leaf(s) =>
      assert SpelledAt(x.lex, Ahead(c), Yield(t) + [next], 0);
      ShiftReads(x, c, s, rule, dot, la);
      LeadsOnce(Trips(x), c);
      d := if Trips(x)(c).Going? then Trips(x)(c).config else c;
    case Node(r, ts) =>
      StartsRule(x, c, rule, dot, la, r, ts, next);
      var e := ParsesForest(x, c, c.stack, r, ts, 0, next, t);
      d := ParsedNode(x, c, r, ts, next, e);
  }

  lemma {:induction false} ParsedNode(
    x: Parser, c: Config, r: nat, ts: seq<Tree>, la: Sym, e: Config) returns (d: Config)
    requires ForestParsed(x, c, c.stack, r, ts, 0, la, e) && r > 0
    ensures Parsed(x, c, Node(r, ts), d)
  {
    assert ts[0..] == ts;
    d := c;
    if |c.stack| + ForestDepth(ts) < STACK_SIZE {
      ReduceFolds(x, e, c.stack, r, ts, la);
      LeadsOnce(Trips(x), e);
      LeadsOn(Trips(x), c, e, Trips(x)(e));
      if Trips(x)(e).Going? {
        d := Trips(x)(e).config;
      }
    }
  }

  lemma {:induction false} ParsesForest(
    x: Parser, c: Config, base: seq<Frame>, rule: nat, ts: seq<Tree>, m: nat, la: Sym, parent: Tree)
    returns (d: Config)
    requires Reading(x, c, base, rule, ts, m, la) && forall i :: 0 <= i < |ts| ==> ts[i] < parent
    ensures ForestParsed(x, c, base, rule, ts, m, la, d)
    decreases parent, 0, |ts| - m
  {
    if m == |ts| {
      LeadsOnce(Trips(x), c);
      d := c;
    } else {
      var next := Following(ts, m, la);
      FacesNext(x, c, base, rule, ts, m, la, parent);
      var e := ParsesTree(x, c, rule, m, la, ts[m], next);
      d := c;
      if |c.stack| + Depth(ts[m]) < STACK_SIZE {
        ReadKeepsReading(x, c, base, rule, ts, m, la, e);
        d := ParsesForest(x, e, base, rule, ts, m + 1, la, parent);
      }
      ForestStep(x, c, base, rule, ts, m, la, e, d);
    }
  }

  lemma {:induction false} ForestStep(
    x: Parser, c: Config, base: seq<Frame>, rule: nat, ts: seq<Tree>, m: nat, la: Sym, e: Config, d: Config)
    requires m < |ts| && Parsed(x, c, ts[m], e)
    requires |c.stack| + Depth(ts[m]) < STACK_SIZE ==> ForestParsed(x, e, base, rule, ts, m + 1, la, d)
    ensures ForestParsed(x, c, base, rule, ts, m, la, d)
  {
    assert ts[m..][0] == ts[m] && ts[m..][1..] == ts[m + 1..];
    if |c.stack| + Depth(ts[m]) < STACK_SIZE {
      var deep := |e.stack| + ForestDepth(ts[m + 1..]) >= STACK_SIZE;
      LeadsOn(Trips(x), c, e, if deep then Overflow else Going(d));
    }
  }

  // ---------- Whole sentences ----------

  /** The trees of the start rule stand in front of the starting parser. */
  lemma {:induction false} StartReads(x: Parser, tree: Tree)
    requires Works(x) && ValidTree(x.g, tree) && Root(x.g, tree) == x.g.start
    requires Spells(x.lex, 0, Yield(tree) + [0, 0])
    ensures Reading(x, START, [], 0, [tree, Leaf(0)], 0, 0)
  {
    var ts := [tree, Leaf(0)];
    StartInv(x.g, x.a, x.lex);
    assert Roots(x.g, ts) == x.g.rules[0].rhs;
    var q := x.a.states[x.a.ini];
    var i :| 0 <= i < |q.ts| && CoreOf(q.ts[i]) == (0, 0) && {0} <= q.ts[i].lk;
    assert 0 in {0} && OffersAt(q, i, 0, 0, 0);
    assert Vals(START.stack[0..]) == ts[..0];
    assert ts[0..] == ts && ts[1..] == [Leaf(0)] && ts[1..][1..] == [];
    assert YieldForest(ts[1..]) == Yield(ts[1]) + YieldForest([]);
    assert YieldForest(ts) + [0] == Yield(tree) + [0, 0];
  }

  /** With the start rule's trees on its stack, the parser accepts. */
  lemma {:induction false} StartFolds(x: Parser, d: Config, tree: Tree)
    requires Reading(x, d, [], 0, [tree, Leaf(0)], 2, 0)
    ensures Trips(x)(d).Accept? && Trips(x)(d).val == tree
  {
    var ts := [tree, Leaf(0)];
    DecidesForRule(x, d, [], 0, ts, 0);
    Popped(x, d, [], 0, ts, 0);
    assert d.stack[0..] == d.stack && Vals(d.stack)[0] == ts[0];
    AcceptedValue(x.t, Fetch(x.t, x.lex, d));
  }

  ghost predicate Accepts(x: Parser, tree: Tree)
    requires At(x, START)
  {
    exists n: nat, c :: Run(x.g, x.p, x.a, x.t, x.lex, START, n) == Accept(tree, c)
  }

  ghost predicate Overflows(x: Parser)
    requires At(x, START)
  {
    exists n: nat :: Run(x.g, x.p, x.a, x.t, x.lex, START, n) == Overflow
  }

  /** The parser accepts whatever tree the input spells, as that tree, unless the
      tree is too deep for its stack. */
  lemma {:induction false} ParsesInput(x: Parser, tree: Tree)
    requires Works(x) && ValidTree(x.g, tree) && Root(x.g, tree) == x.g.start
    requires Spells(x.lex, 0, Yield(tree) + [0, 0])
    ensures At(x, START)
    ensures if Depth(tree) < STACK_SIZE then Accepts(x, tree) else Overflows(x)
  {
    var ts := [tree, Leaf(0)];
    StartReads(x, tree);
    var d := ParsesForest(x, START, [], 0, ts, 0, 0, Node(0, ts));
    assert ts[0..] == ts && ts[1..] == [Leaf(0)] && ts[1..][1..] == [];
    assert ForestDepth(ts[1..]) == 1;
    var r := Overflow;
    if Depth(tree) < STACK_SIZE {
      StartFolds(x, d, tree);
      LeadsOnce(Trips(x), d);
      r := Trips(x)(d);
      LeadsOn(Trips(x), START, d, r);
    }
    var n: nat :| After(Trips(x), START, n) == r;
    AfterIsRun(x, START, n);
  }

  // ---------- What the parser accepts ----------

  /** No rule but the first mentions the end mark, whose name `$` no identifier of
      a grammar file can be. */
  predicate EndMarkApart(g: Grammar) {
    g.start != 0 && forall r, i :: 0 < r < |g.rules| && 0 <= i < |g.rules[r].rhs| ==> g.rules[r].rhs[i] != 0
  }

  lemma {:induction false} NoEndMark(g: Grammar, t: Tree)
    requires ValidGrammar(g) && EndMarkApart(g) && ValidTree(g, t) && Root(g, t) != 0 && Root(g, t) != SYM0
    ensures 0 !in Yield(t)
    decreases t, 1, 0
  {
    match t
    case Leaf(_) =>
    case Node(r, ts) =>
      assert ValidRule(g, g.rules[r]);
      forall i | 0 <= i < |ts|
        ensures Root(g, ts[i]) != 0 && Root(g, ts[i]) != SYM0
      {
        assert Roots(g, ts)[i] == g.rules[r].rhs[i];
      }
      NoEndMarks(g, ts, t);
  }

  lemma {:induction false} NoEndMarks(g: Grammar, ts: seq<Tree>, parent: Tree)
    requires ValidGrammar(g) && EndMarkApart(g) && ValidForest(g, ts)
    requires forall i :: 0 <= i < |ts| ==> ts[i] < parent && Root(g, ts[i]) != 0 && Root(g, ts[i]) != SYM0
    ensures 0 !in YieldForest(ts)
    decreases parent, 0, |ts|
  {
    if ts != [] {
      NoEndMark(g, ts[0]);
      NoEndMarks(g, ts[1..], parent);
    }
  }

  /** Input that consists of the sentence and then the end mark, for ever. */
  ghost predicate Inputs(lex: nat -> Sym, w: seq<Sym>) {
    forall i: nat :: lex(i) == if i < |w| then w[i] else 0
  }

  /** A string in front of the end mark is the whole input. */
  lemma {:induction false} UpToEndMark(lex: nat -> Sym, w: seq<Sym>, v: seq<Sym>)
    requires Inputs(lex, w) && 0 !in w && 0 !in v && forall i: nat :: i <= |v| ==> lex(i) == (v + [0])[i]
    ensures v == w
  {
    assert lex(|v|) == (v + [0])[|v|] == 0;
    assert lex(|w|) == 0;
    forall i: nat | i < |v|
      ensures lex(i) == v[i] && v[i] in v
    {
      assert (v + [0])[i] == v[i];
    }
    forall i: nat | i < |w|
      ensures lex(i) == w[i] && w[i] in w
    {
    }
  }

  /** The parser returns nothing but parse trees of its input. */
  lemma {:induction false} AcceptsOnlyParses(x: Parser, w: seq<Sym>, tree: Tree)
    requires At(x, START) && EndMarkApart(x.g) && Inputs(x.lex, w) && 0 !in w && Accepts(x, tree)
    ensures IsParse(x.g, tree, w)
  {
    var n: nat, c :| Run(x.g, x.p, x.a, x.t, x.lex, START, n) == Accept(tree, c);
    AcceptedIsDerivable(x.g, x.p, x.a, x.t, x.lex, START, n);
    assert ValidRule(x.g, x.g.rules[0]);
    NoEndMark(x.g, tree);
    var v := Yield(tree);
    forall i: nat | i <= |v|
      ensures x.lex(i) == (v + [0])[i]
    {
      assert Consumed(x.lex, c)[i] == x.lex(i);
    }
    UpToEndMark(x.lex, w, v);
  }

  /** A run ends in one way only. */
  lemma {:induction false} EndsOneWay(x: Parser, u: Tree, v: Tree)
    requires At(x, START) && Accepts(x, u)
    ensures !Overflows(x) && (Accepts(x, v) ==> u == v)
  {
    var n: nat, c :| Run(x.g, x.p, x.a, x.t, x.lex, START, n) == Accept(u, c);
    AfterIsRun(x, START, n);
    if Overflows(x) {
      var m: nat :| Run(x.g, x.p, x.a, x.t, x.lex, START, m) == Overflow;
      AfterIsRun(x, START, m);
      EndsOnce(Trips(x), START, Accept(u, c), Overflow);
    }
    if Accepts(x, v) {
      var m: nat, d :| Run(x.g, x.p, x.a, x.t, x.lex, START, m) == Accept(v, d);
      AfterIsRun(x, START, m);
      EndsOnce(Trips(x), START, Accept(u, c), Accept(v, d));
    }
  }

  /** For a grammar without conflicts, the parser accepts exactly the sentences:
      what it returns for an input is a parse tree of it, and every parse tree of
      the input is what it returns, unless the tree is too deep for its stack. */
  lemma {:induction false} AcceptsExactly(x: Parser, w: seq<Sym>, tree: Tree)
    requires Works(x) && EndMarkApart(x.g) && Inputs(x.lex, w) && 0 !in w
    ensures At(x, START)
    ensures Accepts(x, tree) <==> IsParse(x.g, tree, w) && Depth(tree) < 100
    ensures IsParse(x.g, tree, w) && Depth(tree) >= 100 ==> Overflows(x)
  {
    StartInv(x.g, x.a, x.lex);
    if IsParse(x.g, tree, w) {
      ParsesInput(x, tree);
    }
    if Accepts(x, tree) {
      AcceptsOnlyParses(x, w, tree);
      EndsOneWay(x, tree, tree);
    }
  }

  /** So it accepts an input, or its stack is too small, if the input is derivable from
      the start symbol, and accepts no other. */
  lemma {:induction false} AcceptsSentences(x: Parser, w: seq<Sym>)
    requires Works(x) && EndMarkApart(x.g) && Inputs(x.lex, w) && 0 !in w
    ensures At(x, START)
    ensures Derives(x.g, [x.g.start], w) ==> (exists tree :: Accepts(x, tree)) || Overflows(x)
    ensures (exists tree :: Accepts(x, tree)) ==> Derives(x.g, [x.g.start], w)
  {
    forall i | 0 <= i < |w|
      ensures w[i] < x.g.ntk
    {
      assert x.lex(i) == w[i];
    }
    SentenceIffParse(x.g, w);
    StartInv(x.g, x.a, x.lex);
    if tree :| IsParse(x.g, tree, w) {
      AcceptsExactly(x, w, tree);
    }
    if tree :| Accepts(x, tree) {
      AcceptsExactly(x, w, tree);
    }
  }

  /** Hence a sentence has no two parse trees, if one of them fits the stack. */
  lemma {:induction false} OneParse(x: Parser, w: seq<Sym>, u: Tree, v: Tree)
    requires Works(x) && EndMarkApart(x.g) && Inputs(x.lex, w) && 0 !in w
    requires IsParse(x.g, u, w) && IsParse(x.g, v, w) && Depth(u) < STACK_SIZE
    ensures u == v
  {
    AcceptsExactly(x, w, u);
    AcceptsExactly(x, w, v);
    EndsOneWay(x, u, v);
  }
}
