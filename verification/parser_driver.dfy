/**
  The generated parser.  Its semantic values are parse trees here, so that what
  it accepts can be read off its stack.
*/
module ParserDriver {
  import opened Options
  import opened Grammars
  import opened Automata
  import opened ActionRows
  import opened PackedTables

  const STACK_SIZE: nat := 100

  datatype Frame = Frame(state: nat, val: Tree)

  /** The stack without its bottom, the state at the bottom, the token read but
      not yet shifted (-1 for none), and how many tokens were read. */
  datatype Config = Config(stack: seq<Frame>, tk: int, pos: nat)

  datatype Status =
    | Going(config: Config)
    | Accept(val: Tree, config: Config)   // return 0
    | SyntaxError | Nonassoc              // return -1
    | Overflow                            // return -2

  function Top(t: Packed, stack: seq<Frame>): nat {
    if stack == [] then t.ini else stack[|stack| - 1].state
  }

  function Vals(stack: seq<Frame>): (ts: seq<Tree>)
    ensures |ts| == |stack|
    ensures forall i :: 0 <= i < |stack| ==> ts[i] == stack[i].val
  {
    seq(|stack|, i requires 0 <= i < |stack| => stack[i].val)
  }

  function Push(stack: seq<Frame>, state: nat, val: Tree, tk: int, pos: nat): Status {
    if |stack| + 1 >= STACK_SIZE then Overflow
    else Going(Config(stack + [Frame(state, val)], tk, pos))
  }

  /** Reduce by rule r: pop its right side, go to the next state.  Rule 0 accepts. */
  function Reduce(t: Packed, c: Config, r: nat): Status
    requires r < |t.r1| == |t.r2| && t.r1[r] <= |c.stack| && t.r2[r] < |t.gdsp| == |t.gdef|
    requires |t.act| == |t.chk|
    requires r > 0 ==> GotoLookup(t, t.r2[r], Top(t, c.stack[..|c.stack| - t.r1[r]])) >= 0
    requires r == 0 ==> t.r1[0] >= 1
  {
    var base := c.stack[..|c.stack| - t.r1[r]];
    var popped := c.stack[|c.stack| - t.r1[r]..];
    if r == 0 then Accept(popped[0].val, c)
    else Push(base, GotoLookup(t, t.r2[r], Top(t, base)), Node(r, Vals(popped)), c.tk, c.pos)
  }

  /** What the parser does next in its current state with its current token. */
  datatype Move = Shift(state: nat) | ReduceBy(rule: nat) | ErrorMove | NonassocMove

  /** Whether the state looks at a token before moving. */
  predicate NeedsToken(t: Packed, c: Config)
    requires Top(t, c.stack) < |t.adsp|
  {
    c.tk < 0 && t.adsp[Top(t, c.stack)] + t.ntoks > 0
  }

  /** The configuration once a needed token was read. */
  function Fetch(t: Packed, lex: nat -> Sym, c: Config): Config
    requires Top(t, c.stack) < |t.adsp|
  {
    if NeedsToken(t, c) then c.(tk := lex(c.pos), pos := c.pos + 1) else c
  }

  function Decide(t: Packed, c: Config): Move
    requires Top(t, c.stack) < |t.adsp| == |t.adef| && |t.act| == |t.chk|
  {
    var s := Top(t, c.stack);
    match ActionLookup(t, s, c.tk)
    case None => if t.adef[s] < 0 then ErrorMove else ReduceBy(t.adef[s])
    case Some(n) => if n == -1 then NonassocMove else if n < 0 then ReduceBy(Red(n)) else Shift(n)
  }

  // ---------- The invariant ----------

  /** The states on the stack are the path its values' roots spell from the start. */
  ghost predicate GotoPath(g: Grammar, a: Automaton, stack: seq<Frame>) {
    forall i :: 0 <= i < |stack| ==> PathAt(g, a, stack, i)
  }

  function StateAt(a: Automaton, stack: seq<Frame>, i: nat): nat
    requires i <= |stack|
  {
    if i == 0 then a.ini else stack[i - 1].state
  }

  /** Frame i was entered from the state below it over the root of its value. */
  ghost predicate PathAt(g: Grammar, a: Automaton, stack: seq<Frame>, i: nat)
    requires i < |stack|
  {
    var below, x := StateAt(a, stack, i), Root(g, stack[i].val);
    && stack[i].state < |a.states|
    && below < |a.states| && x < |a.states[below].gtbl|
    && a.states[below].gtbl[x] == Some(stack[i].state)
    && ValidTree(g, stack[i].val)
  }

  /** Tokens taken off the input and shifted. */
  function Consumed(lex: nat -> Sym, c: Config): seq<Sym>
    requires c.tk >= 0 ==> c.pos > 0
  {
    seq(if c.tk >= 0 then c.pos - 1 else c.pos, i requires i >= 0 => lex(i))
  }

  ghost predicate Inv(g: Grammar, a: Automaton, lex: nat -> Sym, c: Config) {
    && GotoPath(g, a, c.stack)
    && (c.tk >= 0 ==> c.pos > 0 && c.tk == lex(c.pos - 1) && c.tk < g.ntk)
    && YieldForest(Vals(c.stack)) == Consumed(lex, c)
  }

  ghost predicate Good(g: Grammar, p: Precedence, a: Automaton, t: Packed) {
    ValidGrammar(g) && ValidAutomaton(g, a) && ReadyAll(g, p, a) && Implements(g, p, a, t)
  }

  // ---------- Legal moves ----------

  lemma {:induction false} TopIsState(g: Grammar, a: Automaton, t: Packed, stack: seq<Frame>)
    requires ValidAutomaton(g, a) && Shaped(g, a, t) && GotoPath(g, a, stack)
    ensures Top(t, stack) == StateAt(a, stack, |stack|) < |a.states|
  {
    if stack != [] {
      assert PathAt(g, a, stack, |stack| - 1);
    }
  }

  lemma {:induction false} ReduceIsLegal(g: Grammar, p: Precedence, a: Automaton, k: nat, s: Sym)
    requires ReadyAll(g, p, a) && k < |a.states| && s < g.ntk
    requires EntryRow(g, p, a, k)[s] < -1
    ensures var r := Red(EntryRow(g, p, a, k)[s]);
      0 <= r < |g.rules| && Has(a.states[k], r, |g.rules[r].rhs|)
  {
    var q := a.states[k];
    assert Ready(g, p, q);
    EntryLegal(g, p, q, s, |q.ts|);
    var i :| 0 <= i < |q.ts| && q.ts[i].rule == Red(EntryRow(g, p, a, k)[s]) && IsComplete(g, q.ts[i]) && s in q.ts[i].lk;
  }

  /** Whatever the parser decides is right: shifts follow the goto table, and a
      reduction's rule is complete in the current state, defaults included. */
  lemma {:induction false} MoveIsLegal(g: Grammar, p: Precedence, a: Automaton, t: Packed, c: Config)
    requires Good(g, p, a, t) && Top(t, c.stack) < |a.states|
    requires -1 <= c.tk < g.ntk && (c.tk == -1 ==> t.adsp[Top(t, c.stack)] + g.ntk <= 0)
    ensures var q := a.states[Top(t, c.stack)];
      match Decide(t, c)
      case Shift(n) => c.tk >= 0 && c.tk < |q.gtbl| && q.gtbl[c.tk] == Some(n)
      case ReduceBy(r) => r < |g.rules| && Has(q, r, |g.rules[r].rhs|)
      case _ => true
  {
    var k := Top(t, c.stack);
    var q, row := a.states[k], EntryRow(g, p, a, k);
    assert ActionsAgree(g, p, a, t, k) && Ready(g, p, q);
    if ActionLookup(t, k, c.tk).Some? {
      assert c.tk >= 0;
      assert ActionAgrees(t, k, c.tk, row[c.tk]);
      EntryLegal(g, p, q, c.tk, |q.ts|);
      if row[c.tk] < -1 {
        ReduceIsLegal(g, p, a, k, c.tk);
      }
    } else if t.adef[k] >= 0 {
      var s :| 0 <= s < g.ntk && row[s] == Red(t.adef[k]);
      ReduceIsLegal(g, p, a, k, s);
    }
  }

  // ---------- A reduction finds its right side ----------

  lemma {:induction false} BottomDots(g: Grammar, a: Automaton, r: nat, d: nat)
    requires ValidAutomaton(g, a)
    ensures Has(a.states[a.ini], r, d) ==> d == 0
  {
  }

  /** A term with its dot d symbols in has those symbols on top of the stack, and
      the state below them holds the term with its dot in front. */
  lemma {:induction false} DotIsOnStack(g: Grammar, a: Automaton, stack: seq<Frame>, n: nat, r: nat, d: nat)
    requires ValidAutomaton(g, a) && GotoPath(g, a, stack) && n <= |stack|
    requires r < |g.rules| && d <= |g.rules[r].rhs|
    requires StateAt(a, stack, n) < |a.states| && Has(a.states[StateAt(a, stack, n)], r, d)
    ensures d <= n
    ensures forall j :: 0 <= j < d ==> Root(g, stack[n - d + j].val) == g.rules[r].rhs[j]
    ensures StateAt(a, stack, n - d) < |a.states| && Has(a.states[StateAt(a, stack, n - d)], r, 0)
    decreases d
  {
    if d > 0 {
      DotComesFromBelow(g, a, stack, n, r, d);
      DotIsOnStack(g, a, stack, n - 1, r, d - 1);
    }
  }

  lemma {:induction false} DotComesFromBelow(g: Grammar, a: Automaton, stack: seq<Frame>, n: nat, r: nat, d: nat)
    requires ValidAutomaton(g, a) && GotoPath(g, a, stack) && n <= |stack|
    requires r < |g.rules| && 0 < d <= |g.rules[r].rhs|
    requires StateAt(a, stack, n) < |a.states| && Has(a.states[StateAt(a, stack, n)], r, d)
    ensures 0 < n && Root(g, stack[n - 1].val) == g.rules[r].rhs[d - 1]
    ensures StateAt(a, stack, n - 1) < |a.states| && Has(a.states[StateAt(a, stack, n - 1)], r, d - 1)
  {
    var k := StateAt(a, stack, n);
    BottomDots(g, a, r, d);
    assert PathAt(g, a, stack, n - 1);
    var below, x := StateAt(a, stack, n - 1), Root(g, stack[n - 1].val);
    assert SoundState(g, a, below) && x < g.nsy;
    assert GotoExact(g, a, a.states[below], x);
    var i :| 0 <= i < |a.states[k].ts| && a.states[k].ts[i].rule == r && a.states[k].ts[i].dot == d;
    assert CameFrom(g, a.states[below], a.states[k].ts[i], x);
  }

  lemma {:induction false} VisibleAfterPop(g: Grammar, a: Automaton, k: nat, r: nat)
    requires ValidGrammar(g) && ValidAutomaton(g, a) && k < |a.states| && 0 < r < |g.rules| && Has(a.states[k], r, 0)
    ensures g.rules[r].lhs < g.nsy && |a.states[k].gtbl| == g.nsy && a.states[k].gtbl[g.rules[r].lhs].Some?
  {
    var q, x := a.states[k], g.rules[r].lhs;
    assert ValidRule(g, g.rules[r]) && SoundState(g, a, k);
    var i :| 0 <= i < |q.ts| && q.ts[i].rule == r && q.ts[i].dot == 0;
    assert Justified(g, a, k, q.ts[i]) && GotoExact(g, a, q, x);
  }

  /** The tables hold the goto over the left side of a rule that starts in state k. */
  lemma {:induction false} GotoReady(g: Grammar, p: Precedence, a: Automaton, t: Packed, k: nat, r: nat)
    requires Good(g, p, a, t) && k < |a.states| && 0 < r < |g.rules| && Has(a.states[k], r, 0)
    ensures g.rules[r].lhs < g.nsy && |a.states[k].gtbl| == g.nsy && t.r2[r] < |t.gdsp|
    ensures GotoLookup(t, t.r2[r], k) >= 0
    ensures a.states[k].gtbl[g.rules[r].lhs] == Some(GotoLookup(t, t.r2[r], k) as nat)
  {
    VisibleAfterPop(g, a, k, r);
    var h := t.r2[r];
    assert t.r2[r] + MAX_TK == g.rules[r].lhs;
    assert GotosAgree(g, p, a, t, h);
    assert Ready(g, p, a.states[k]);
    assert GotoColumn(g, p, a, h)[k] == GotoEntry(a.states[k], MAX_TK + h);
  }

  /** The right side popped is the rule's. */
  lemma {:induction false} PoppedIsRightSide(g: Grammar, a: Automaton, stack: seq<Frame>, r: nat)
    requires ValidAutomaton(g, a) && GotoPath(g, a, stack) && r < |g.rules|
    requires StateAt(a, stack, |stack|) < |a.states| && Has(a.states[StateAt(a, stack, |stack|)], r, |g.rules[r].rhs|)
    ensures var d := |g.rules[r].rhs|;
      && d <= |stack| && Roots(g, Vals(stack[|stack| - d..])) == g.rules[r].rhs
      && StateAt(a, stack, |stack| - d) < |a.states| && Has(a.states[StateAt(a, stack, |stack| - d)], r, 0)
  {
    var d := |g.rules[r].rhs|;
    DotIsOnStack(g, a, stack, |stack|, r, d);
    var popped, rhs := stack[|stack| - d..], g.rules[r].rhs;
    forall j | 0 <= j < d
      ensures Root(g, popped[j].val) == rhs[j]
    {
      assert popped[j] == stack[|stack| - d + j];
    }
    RootsAre(g, popped, rhs);
  }

  lemma {:induction false} RootsAre(g: Grammar, frames: seq<Frame>, a: seq<Sym>)
    requires |frames| == |a| && forall j :: 0 <= j < |a| ==> Root(g, frames[j].val) == a[j]
    ensures Roots(g, Vals(frames)) == a
  {
    var roots := Roots(g, Vals(frames));
    assert |roots| == |a|;
    forall j | 0 <= j < |a|
      ensures roots[j] == a[j]
    {
      assert roots[j] == Root(g, Vals(frames)[j]) == Root(g, frames[j].val);
    }
  }

  /** Everything a reduction needs: its right side is the top of the stack, and,
      unless it accepts, the goto from the state below is defined. */
  lemma {:induction false} ReduceReady(g: Grammar, p: Precedence, a: Automaton, t: Packed, stack: seq<Frame>, r: nat)
    requires Good(g, p, a, t) && GotoPath(g, a, stack)
    requires r < |g.rules| && Top(t, stack) < |a.states| && Has(a.states[Top(t, stack)], r, |g.rules[r].rhs|)
    ensures t.r1[r] == |g.rules[r].rhs| <= |stack|
    ensures Roots(g, Vals(stack[|stack| - t.r1[r]..])) == g.rules[r].rhs
    ensures r == 0 ==> |stack| == t.r1[0] == 2
    ensures t.r2[r] < |t.gdsp|
    ensures var base := stack[..|stack| - t.r1[r]];
      r > 0 ==>
        (&& Top(t, base) < |a.states| && |a.states[Top(t, base)].gtbl| == g.nsy && g.rules[r].lhs < g.nsy
         && GotoLookup(t, t.r2[r], Top(t, base)) >= 0
         && a.states[Top(t, base)].gtbl[g.rules[r].lhs] == Some(GotoLookup(t, t.r2[r], Top(t, base)) as nat))
  {
    var d := |g.rules[r].rhs|;
    TopIsState(g, a, t, stack);
    PoppedIsRightSide(g, a, stack, r);
    assert ValidRule(g, g.rules[r]);
    var base := stack[..|stack| - d];
    var k := StateAt(a, stack, |stack| - d);
    assert Top(t, base) == k;
    if r > 0 {
      GotoReady(g, p, a, t, k, r);
    } else {
      InitialOnlyAtBottom(g, a, stack, |stack| - d);
    }
  }

  /** The start term stands only in the initial state, which is only at the bottom. */
  lemma {:induction false} InitialOnlyAtBottom(g: Grammar, a: Automaton, stack: seq<Frame>, n: nat)
    requires ValidGrammar(g) && ValidAutomaton(g, a) && GotoPath(g, a, stack) && n <= |stack|
    requires StateAt(a, stack, n) < |a.states| && Has(a.states[StateAt(a, stack, n)], 0, 0)
    ensures n == 0
  {
    var k := StateAt(a, stack, n);
    assert SoundState(g, a, k);
    var i :| 0 <= i < |a.states[k].ts| && a.states[k].ts[i].rule == 0 && a.states[k].ts[i].dot == 0;
    assert Justified(g, a, k, a.states[k].ts[i]);
    if n > 0 {
      PushedIsNotInitial(g, a, stack, n);
    }
  }

  lemma {:induction false} PushedIsNotInitial(g: Grammar, a: Automaton, stack: seq<Frame>, n: nat)
    requires ValidAutomaton(g, a) && GotoPath(g, a, stack) && 0 < n <= |stack|
    ensures StateAt(a, stack, n) != a.ini
  {
    assert PathAt(g, a, stack, n - 1);
    assert SoundState(g, a, StateAt(a, stack, n - 1));
  }

  // ---------- One step ----------

  /** Everything the reduction will index is there. */
  predicate CanReduce(t: Packed, c: Config, r: nat) {
    && r < |t.r1| == |t.r2| && t.r1[r] <= |c.stack| && t.r2[r] < |t.gdsp| == |t.gdef|
    && |t.act| == |t.chk|
    && (r > 0 ==> GotoLookup(t, t.r2[r], Top(t, c.stack[..|c.stack| - t.r1[r]])) >= 0)
    && (r == 0 ==> t.r1[0] >= 1)
  }

  predicate CanAct(t: Packed, c: Config) {
    && Top(t, c.stack) < |t.adsp| == |t.adef| && |t.act| == |t.chk|
    && (Decide(t, c).Shift? ==> c.tk >= 0)
    && (Decide(t, c).ReduceBy? ==> CanReduce(t, c, Decide(t, c).rule))
  }

  /** Carry out the decision. */
  function Act(t: Packed, c: Config): Status
    requires CanAct(t, c)
  {
    match Decide(t, c)
    case Shift(n) => Push(c.stack, n, Leaf(c.tk), -1, c.pos)
    case ReduceBy(r) => Reduce(t, c, r)
    case ErrorMove => SyntaxError
    case NonassocMove => Nonassoc
  }

  /** No lookup of the parser leaves its tables. */
  lemma {:induction false} ActReady(g: Grammar, p: Precedence, a: Automaton, t: Packed, lex: nat -> Sym, c: Config)
    requires Good(g, p, a, t) && Inv(g, a, lex, c) && c.tk >= -1
    requires forall i: nat :: lex(i) < g.ntk
    ensures Top(t, c.stack) < |a.states| && Top(t, c.stack) < |t.adsp|
    ensures CanAct(t, Fetch(t, lex, c))
  {
    TopIsState(g, a, t, c.stack);
    var d := Fetch(t, lex, c);
    FetchReady(g, p, a, t, lex, c);
    MoveIsLegal(g, p, a, t, d);
    if Decide(t, d).ReduceBy? {
      ReduceReady(g, p, a, t, d.stack, Decide(t, d).rule);
    }
  }

  /** One trip round the parser's loop. */
  function Step(g: Grammar, p: Precedence, a: Automaton, t: Packed, lex: nat -> Sym, c: Config): (r: Status)
    requires Good(g, p, a, t) && Inv(g, a, lex, c) && c.tk >= -1
    requires forall i: nat :: lex(i) < g.ntk
  {
    ActReady(g, p, a, t, lex, c);
    Act(t, Fetch(t, lex, c))
  }

  lemma {:induction false} FetchKeepsInv(g: Grammar, a: Automaton, t: Packed, lex: nat -> Sym, c: Config)
    requires Inv(g, a, lex, c) && Top(t, c.stack) < |t.adsp| && c.tk >= -1
    requires forall i: nat :: lex(i) < g.ntk
    ensures Inv(g, a, lex, Fetch(t, lex, c)) && Fetch(t, lex, c).tk >= -1
  {
    assert Consumed(lex, Fetch(t, lex, c)) == Consumed(lex, c);
  }

  lemma {:induction false} PathPushed(g: Grammar, a: Automaton, stack: seq<Frame>, n: nat, f: Frame)
    requires GotoPath(g, a, stack) && n <= |stack|
    requires PathAt(g, a, stack[..n] + [f], n)
    ensures GotoPath(g, a, stack[..n] + [f])
  {
    var s := stack[..n] + [f];
    forall i | 0 <= i < |s|
      ensures PathAt(g, a, s, i)
    {
      if i < n {
        assert PathAt(g, a, stack, i);
      }
    }
  }

  lemma {:induction false} YieldSplit(stack: seq<Frame>, n: nat)
    requires n <= |stack|
    ensures YieldForest(Vals(stack)) == YieldForest(Vals(stack[..n])) + YieldForest(Vals(stack[n..]))
  {
    assert Vals(stack) == Vals(stack[..n]) + Vals(stack[n..]);
    YieldAppend(Vals(stack[..n]), Vals(stack[n..]));
  }

  lemma {:induction false} ShiftKeepsInv(g: Grammar, p: Precedence, a: Automaton, t: Packed, lex: nat -> Sym, c: Config, n: nat)
    requires Good(g, p, a, t) && Inv(g, a, lex, c) && c.tk >= 0
    requires Top(t, c.stack) < |a.states| && c.tk < |a.states[Top(t, c.stack)].gtbl|
    requires a.states[Top(t, c.stack)].gtbl[c.tk] == Some(n)
    ensures Inv(g, a, lex, Config(c.stack + [Frame(n, Leaf(c.tk))], -1, c.pos))
  {
    var f := Frame(n, Leaf(c.tk));
    var s := c.stack + [f];
    TopIsState(g, a, t, c.stack);
    assert SoundState(g, a, Top(t, c.stack));
    assert c.stack[..|c.stack|] == c.stack;
    assert StateAt(a, s, |c.stack|) == Top(t, c.stack);
    PathPushed(g, a, c.stack, |c.stack|, f);
    YieldSplit(s, |c.stack|);
    assert s[..|c.stack|] == c.stack && s[|c.stack|..] == [f];
    assert Vals([f]) == [f.val];
    assert YieldForest([f.val]) == [c.tk] + YieldForest([]);
    assert Consumed(lex, Config(s, -1, c.pos)) == Consumed(lex, c) + [c.tk];
  }

  /** Replacing the top n.. of the stack by one frame over their trees. */
  lemma {:induction false} FoldKeepsInv(g: Grammar, a: Automaton, lex: nat -> Sym, c: Config, n: nat, f: Frame)
    requires Inv(g, a, lex, c) && n <= |c.stack|
    requires PathAt(g, a, c.stack[..n] + [f], n)
    requires f.val.Node? && f.val.children == Vals(c.stack[n..])
    ensures Inv(g, a, lex, c.(stack := c.stack[..n] + [f]))
  {
    var s := c.stack[..n] + [f];
    PathPushed(g, a, c.stack, n, f);
    YieldSplit(c.stack, n);
    YieldSplit(s, n);
    assert s[..n] == c.stack[..n] && s[n..] == [f] && Vals([f]) == [f.val];
    assert YieldForest([f.val]) == Yield(f.val) + YieldForest([]);
  }

  lemma {:induction false} ReducedPath(g: Grammar, p: Precedence, a: Automaton, t: Packed, stack: seq<Frame>, r: nat, n: nat, f: Frame)
    requires Good(g, p, a, t) && GotoPath(g, a, stack) && 0 < r < |g.rules|
    requires n + |g.rules[r].rhs| == |stack| && Roots(g, Vals(stack[n..])) == g.rules[r].rhs
    requires Top(t, stack[..n]) < |a.states| && g.rules[r].lhs < |a.states[Top(t, stack[..n])].gtbl|
    requires a.states[Top(t, stack[..n])].gtbl[g.rules[r].lhs] == Some(f.state)
    requires f.val == Node(r, Vals(stack[n..]))
    ensures PathAt(g, a, stack[..n] + [f], n)
  {
    forall i | 0 <= i < |stack| - n
      ensures ValidTree(g, Vals(stack[n..])[i])
    {
      assert PathAt(g, a, stack, n + i);
      assert stack[n..][i] == stack[n + i];
    }
    var s := stack[..n] + [f];
    assert SoundState(g, a, Top(t, stack[..n]));
    assert StateAt(a, s, n) == Top(t, stack[..n]);
  }

  lemma {:induction false} ReduceKeepsInv(g: Grammar, p: Precedence, a: Automaton, t: Packed, lex: nat -> Sym, c: Config, r: nat)
    requires Good(g, p, a, t) && Inv(g, a, lex, c) && 0 < r < |g.rules|
    requires Top(t, c.stack) < |a.states| && Has(a.states[Top(t, c.stack)], r, |g.rules[r].rhs|)
    ensures |g.rules[r].rhs| <= |c.stack|
    ensures var base, popped := c.stack[..|c.stack| - |g.rules[r].rhs|], c.stack[|c.stack| - |g.rules[r].rhs|..];
      t.r2[r] < |t.gdsp| && GotoLookup(t, t.r2[r], Top(t, base)) >= 0
      && Inv(g, a, lex, c.(stack := base + [Frame(GotoLookup(t, t.r2[r], Top(t, base)), Node(r, Vals(popped)))]))
  {
    ReduceReady(g, p, a, t, c.stack, r);
    var n := |c.stack| - |g.rules[r].rhs|;
    var f := Frame(GotoLookup(t, t.r2[r], Top(t, c.stack[..n])), Node(r, Vals(c.stack[n..])));
    ReducedPath(g, p, a, t, c.stack, r, n, f);
    FoldKeepsInv(g, a, lex, c, n, f);
  }

  lemma {:induction false} ReducedKeepsInv(g: Grammar, p: Precedence, a: Automaton, t: Packed, lex: nat -> Sym, c: Config, r: nat)
    requires Good(g, p, a, t) && Inv(g, a, lex, c) && 0 < r < |g.rules|
    requires Top(t, c.stack) < |a.states| && Has(a.states[Top(t, c.stack)], r, |g.rules[r].rhs|)
    ensures |g.rules[r].rhs| <= |c.stack| && t.r1[r] == |g.rules[r].rhs| && t.r2[r] < |t.gdsp|
    ensures GotoLookup(t, t.r2[r], Top(t, c.stack[..|c.stack| - t.r1[r]])) >= 0
    ensures Reduce(t, c, r).Going? ==> Inv(g, a, lex, Reduce(t, c, r).config)
  {
    ReduceKeepsInv(g, p, a, t, lex, c, r);
  }

  /** Every step keeps the invariant. */
  lemma {:induction false} StepKeepsInv(g: Grammar, p: Precedence, a: Automaton, t: Packed, lex: nat -> Sym, c: Config)
    requires Good(g, p, a, t) && Inv(g, a, lex, c) && c.tk >= -1
    requires forall i: nat :: lex(i) < g.ntk
    ensures var r := Step(g, p, a, t, lex, c);
      r.Going? ==> Inv(g, a, lex, r.config) && r.config.tk >= -1
  {
    TopIsState(g, a, t, c.stack);
    var d := Fetch(t, lex, c);
    FetchKeepsInv(g, a, t, lex, c);
    FetchReady(g, p, a, t, lex, c);
    MoveIsLegal(g, p, a, t, d);
    MoveKeepsInv(g, p, a, t, lex, d);
  }

  lemma {:induction false} FetchReady(g: Grammar, p: Precedence, a: Automaton, t: Packed, lex: nat -> Sym, c: Config)
    requires Good(g, p, a, t) && Inv(g, a, lex, c) && c.tk >= -1 && Top(t, c.stack) < |a.states|
    requires forall i: nat :: lex(i) < g.ntk
    ensures var d := Fetch(t, lex, c);
      -1 <= d.tk < g.ntk && (d.tk == -1 ==> t.adsp[Top(t, d.stack)] + g.ntk <= 0)
  {
    assert ActionsAgree(g, p, a, t, Top(t, c.stack));
  }

  lemma {:induction false} MoveKeepsInv(g: Grammar, p: Precedence, a: Automaton, t: Packed, lex: nat -> Sym, d: Config)
    requires Good(g, p, a, t) && Inv(g, a, lex, d) && Top(t, d.stack) < |a.states| && d.tk >= -1
    requires Decide(t, d).Shift? ==>
      (&& d.tk >= 0 && d.tk < |a.states[Top(t, d.stack)].gtbl|
       && a.states[Top(t, d.stack)].gtbl[d.tk] == Some(Decide(t, d).state))
    requires Decide(t, d).ReduceBy? ==>
      (&& Decide(t, d).rule < |g.rules|
       && Has(a.states[Top(t, d.stack)], Decide(t, d).rule, |g.rules[Decide(t, d).rule].rhs|))
    ensures Decide(t, d).Shift? ==>
      Inv(g, a, lex, Config(d.stack + [Frame(Decide(t, d).state, Leaf(d.tk))], -1, d.pos))
    ensures Decide(t, d).ReduceBy? && Decide(t, d).rule > 0 ==>
      var r := Decide(t, d).rule;
      && |g.rules[r].rhs| <= |d.stack| && t.r1[r] == |g.rules[r].rhs| && t.r2[r] < |t.gdsp|
      && GotoLookup(t, t.r2[r], Top(t, d.stack[..|d.stack| - t.r1[r]])) >= 0
      && (Reduce(t, d, r).Going? ==> Inv(g, a, lex, Reduce(t, d, r).config))
  {
    match Decide(t, d)
    case Shift(n) => ShiftKeepsInv(g, p, a, t, lex, d, n);
    case ReduceBy(r) =>
      if r > 0 {
        ReducedKeepsInv(g, p, a, t, lex, d, r);
      }
    case _ =>
  }

  lemma {:induction false} NodesAreNonterminals(g: Grammar, t: Tree)
    requires ValidGrammar(g) && ValidTree(g, t)
    ensures t.Node? ==> Root(g, t) >= MAX_TK
  {
    if t.Node? {
      assert ValidRule(g, g.rules[t.rule]);
    }
  }

  /** With the start rule complete on top, the stack is the start symbol's tree
      and the end mark. */
  lemma {:induction false} AcceptingStack(g: Grammar, p: Precedence, a: Automaton, t: Packed, lex: nat -> Sym, d: Config)
    requires Good(g, p, a, t) && Inv(g, a, lex, d)
    requires Top(t, d.stack) < |a.states| && Has(a.states[Top(t, d.stack)], 0, |g.rules[0].rhs|)
    ensures |d.stack| == t.r1[0] == 2
    ensures ValidTree(g, d.stack[0].val) && Root(g, d.stack[0].val) == g.start
    ensures Consumed(lex, d) == Yield(d.stack[0].val) + [0]
  {
    ReduceReady(g, p, a, t, d.stack, 0);
    var s := d.stack;
    assert s[0..] == s;
    var v := Vals(s);
    assert Roots(g, v) == [g.start, 0];
    assert Root(g, v[0]) == Roots(g, v)[0] && Root(g, v[1]) == Roots(g, v)[1];
    assert PathAt(g, a, s, 0) && PathAt(g, a, s, 1);
    NodesAreNonterminals(g, v[1]);
    assert v[1] == Leaf(0);
    assert v[1..] == [v[1]] && v[1..][1..] == [];
    assert YieldForest(v[1..]) == Yield(v[1]) + YieldForest(v[1..][1..]);
  }

  /** Accepting: the consumed tokens are a sentence of the grammar and the end mark. */
  lemma {:induction false} AcceptIsSound(g: Grammar, p: Precedence, a: Automaton, t: Packed, lex: nat -> Sym, c: Config)
    requires Good(g, p, a, t) && Inv(g, a, lex, c) && c.tk >= -1
    requires forall i: nat :: lex(i) < g.ntk
    requires Step(g, p, a, t, lex, c).Accept?
    ensures var r := Step(g, p, a, t, lex, c);
      && (r.config.tk >= 0 ==> r.config.pos > 0)
      && ValidTree(g, r.val) && Root(g, r.val) == g.start
      && Consumed(lex, r.config) == Yield(r.val) + [0]
  {
    ActReady(g, p, a, t, lex, c);
    var d := Fetch(t, lex, c);
    assert Act(t, d).Accept? ==> Decide(t, d) == ReduceBy(0);
    FetchKeepsInv(g, a, t, lex, c);
    FetchReady(g, p, a, t, lex, c);
    MoveIsLegal(g, p, a, t, d);
    AcceptingStack(g, p, a, t, lex, d);
    AcceptedValue(t, d);
  }

  /** The token is the one at hand, or any, in a state that looks at none. */
  predicate AtHand(d: Config, s: Sym) { d.tk == -1 || d.tk == s }

  /** A syntax error is reported only where no term of the state acts on the token, and
      an error of associativity only where the row has that entry. */
  lemma {:induction false} RejectionMeans(g: Grammar, p: Precedence, a: Automaton, t: Packed, lex: nat -> Sym, c: Config)
    requires Good(g, p, a, t) && Inv(g, a, lex, c) && c.tk >= -1
    requires forall i: nat :: lex(i) < g.ntk
    ensures Top(t, c.stack) < |a.states| && Top(t, c.stack) < |t.adsp|
    ensures var r, d, q := Step(g, p, a, t, lex, c), Fetch(t, lex, c), a.states[Top(t, c.stack)];
      && (r.SyntaxError? ==> forall s :: 0 <= s < g.ntk && AtHand(d, s) ==> !Acts(g, q, s, |q.ts|))
      && (r.Nonassoc? ==> 0 <= d.tk < g.ntk && EntryRow(g, p, a, Top(t, c.stack))[d.tk] == -1)
  {
    ActReady(g, p, a, t, lex, c);
    FetchReady(g, p, a, t, lex, c);
    var k, d := Top(t, c.stack), Fetch(t, lex, c);
    assert ActionsAgree(g, p, a, t, k) && Ready(g, p, a.states[k]);
    forall s | 0 <= s < g.ntk && AtHand(d, s) && Decide(t, d) == ErrorMove
      ensures !Acts(g, a.states[k], s, |a.states[k].ts|)
    {
      assert ActionAgrees(t, k, s, EntryRow(g, p, a, k)[s]);
      EntryLegal(g, p, a.states[k], s, |a.states[k].ts|);
    }
    if Decide(t, d) == NonassocMove {
      assert ActionAgrees(t, k, d.tk, EntryRow(g, p, a, k)[d.tk]);
    }
  }

  lemma {:induction false} AcceptedValue(t: Packed, d: Config)
    requires CanAct(t, d) && Act(t, d).Accept? && |t.r1| > 0 && t.r1[0] == |d.stack|
    ensures Act(t, d) == Accept(d.stack[0].val, d)
  {
  }

  // ---------- Whole runs ----------

  const START: Config := Config([], -1, 0)

  /** At most n trips round the loop. */
  function Run(g: Grammar, p: Precedence, a: Automaton, t: Packed, lex: nat -> Sym, c: Config, n: nat): Status
    requires Good(g, p, a, t) && Inv(g, a, lex, c) && c.tk >= -1
    requires forall i: nat :: lex(i) < g.ntk
    decreases n
  {
    if n == 0 then Going(c)
    else
      var r := Step(g, p, a, t, lex, c);
      StepKeepsInv(g, p, a, t, lex, c);
      match r
      case Going(d) => Run(g, p, a, t, lex, d, n - 1)
      case _ => r
  }

  lemma {:induction false} StartInv(g: Grammar, a: Automaton, lex: nat -> Sym)
    ensures Inv(g, a, lex, START)
  {
    assert Consumed(lex, START) == [];
    assert Vals([]) == [];
  }

  /** However long the parser runs: if it accepts, the tokens it consumed are a
      sentence derivable from the start symbol, followed by the end mark, and the
      value it returns is a parse tree of that sentence. */
  lemma {:induction false} AcceptedIsDerivable(
    g: Grammar, p: Precedence, a: Automaton, t: Packed, lex: nat -> Sym, c: Config, n: nat)
    requires Good(g, p, a, t) && Inv(g, a, lex, c) && c.tk >= -1
    requires forall i: nat :: lex(i) < g.ntk
    ensures var r := Run(g, p, a, t, lex, c, n);
      r.Accept? ==>
        (&& ValidTree(g, r.val) && Root(g, r.val) == g.start
         && Derives(g, [g.start], Yield(r.val))
         && (r.config.tk >= 0 ==> r.config.pos > 0)
         && Consumed(lex, r.config) == Yield(r.val) + [0])
    decreases n
  {
    if n > 0 {
      var r := Step(g, p, a, t, lex, c);
      StepKeepsInv(g, p, a, t, lex, c);
      if r.Going? {
        AcceptedIsDerivable(g, p, a, t, lex, r.config, n - 1);
      } else if r.Accept? {
        AcceptIsSound(g, p, a, t, lex, c);
        TreeDerives(g, r.val);
      }
    }
  }

  /** The stack spells a goto path at every point of every run. */
  lemma {:induction false} RunKeepsInv(
    g: Grammar, p: Precedence, a: Automaton, t: Packed, lex: nat -> Sym, c: Config, n: nat)
    requires Good(g, p, a, t) && Inv(g, a, lex, c) && c.tk >= -1
    requires forall i: nat :: lex(i) < g.ntk
    ensures var r := Run(g, p, a, t, lex, c, n); r.Going? ==> Inv(g, a, lex, r.config) && r.config.tk >= -1
    decreases n
  {
    if n > 0 {
      var r := Step(g, p, a, t, lex, c);
      StepKeepsInv(g, p, a, t, lex, c);
      if r.Going? {
        RunKeepsInv(g, p, a, t, lex, r.config, n - 1);
        assert Run(g, p, a, t, lex, c, n) == Run(g, p, a, t, lex, r.config, n - 1);
      }
    }
  }

  /** What to do with the next token, as the tables say. */
  method Choose(t: Packed, c: Config) returns (move: Move)
    requires Top(t, c.stack) < |t.adsp| == |t.adef| && |t.act| == |t.chk|
    ensures move == Decide(t, c)
  {
    var s := Top(t, c.stack);
    var n := t.adsp[s] + c.tk;
    if n < 0 || n >= |t.act| || t.chk[n] != c.tk {
      return if t.adef[s] < 0 then ErrorMove else ReduceBy(t.adef[s]);
    }
    n := t.act[n];
    if n == -1 {
      return NonassocMove;
    }
    move := if n >= 0 then Shift(n) else ReduceBy(Red(n));
  }

  /** One trip round the parser's loop. */
  method Trip(t: Packed, lex: nat -> Sym, c: Config) returns (next: Status)
    requires Top(t, c.stack) < |t.adsp| && CanAct(t, Fetch(t, lex, c))
    ensures next == Act(t, Fetch(t, lex, c))
  {
    var tk, pos := c.tk, c.pos;
    if tk < 0 && t.adsp[Top(t, c.stack)] + t.ntoks > 0 {
      tk, pos := lex(pos), pos + 1;
    }
    assert Config(c.stack, tk, pos) == Fetch(t, lex, c);
    var move := Choose(t, Config(c.stack, tk, pos));
    match move {
      case ErrorMove => next := SyntaxError;
      case NonassocMove => next := Nonassoc;
      case Shift(n) => next := Push(c.stack, n, Leaf(tk), -1, pos);
      case ReduceBy(r) => next := Reduce(t, Config(c.stack, tk, pos), r);
    }
  }

  /** The run from the start goes on from c with so many trips left. */
  ghost predicate OnRun(
    g: Grammar, p: Precedence, a: Automaton, t: Packed, lex: nat -> Sym, limit: nat, c: Config, left: nat) {
    && Good(g, p, a, t) && (forall i: nat :: lex(i) < g.ntk)
    && Inv(g, a, lex, START) && Inv(g, a, lex, c) && c.tk >= -1
    && Run(g, p, a, t, lex, START, limit) == Run(g, p, a, t, lex, c, left)
  }

  lemma {:induction false} OneTrip(
    g: Grammar, p: Precedence, a: Automaton, t: Packed, lex: nat -> Sym, limit: nat, c: Config, left: nat)
    requires OnRun(g, p, a, t, lex, limit, c, left) && left > 0
    ensures Top(t, c.stack) < |t.adsp| && CanAct(t, Fetch(t, lex, c))
    ensures var next := Act(t, Fetch(t, lex, c));
      if next.Going? then OnRun(g, p, a, t, lex, limit, next.config, left - 1)
      else next == Run(g, p, a, t, lex, START, limit)
  {
    ActReady(g, p, a, t, lex, c);
    StepKeepsInv(g, p, a, t, lex, c);
  }

  /** The parser's loop, for at most `limit` trips. */
  method Parse(t: Packed, lex: nat -> Sym, limit: nat,
               ghost g: Grammar, ghost p: Precedence, ghost a: Automaton) returns (result: Status)
    requires Good(g, p, a, t)
    requires forall i: nat :: lex(i) < g.ntk
    ensures Inv(g, a, lex, START) && result == Run(g, p, a, t, lex, START, limit)
    ensures result.Accept? ==> Derives(g, [g.start], Yield(result.val))
  {
    StartInv(g, a, lex);
    AcceptedIsDerivable(g, p, a, t, lex, START, limit);
    var c := START;
    var left := limit;
    while left > 0
      invariant OnRun(g, p, a, t, lex, limit, c, left)
    {
      OneTrip(g, p, a, t, lex, limit, c, left);
      var next := Trip(t, lex, c);
      if !next.Going? {
        return next;
      }
      c, left := next.config, left - 1;
    }
    result := Going(c);
  }
}
