/**
  Context-free grammars as the parser generator holds them, their derivations,
  and parse trees.
*/
module Grammars {

  type Sym = nat

  const MAX_TK: nat := 500   // tokens are numbered below, nonterminals from here on
  const SYM0: Sym := MAX_TK  // the added start symbol

  datatype Rule = Rule(lhs: Sym, rhs: seq<Sym>)

  /** `nsy` bounds the symbol numbers; tokens are 0 (end of input) to ntk - 1. */
  datatype Grammar = Grammar(rules: seq<Rule>, ntk: nat, nsy: nat, start: Sym)

  predicate IsToken(g: Grammar, s: Sym) { s < g.ntk }
  predicate IsNonterminal(g: Grammar, s: Sym) { MAX_TK <= s < g.nsy }

  predicate ValidSym(g: Grammar, s: Sym) { IsToken(g, s) || IsNonterminal(g, s) }

  predicate ValidString(g: Grammar, a: seq<Sym>) {
    forall i :: 0 <= i < |a| ==> ValidSym(g, a[i])
  }

  /** What reading a grammar establishes: rules sorted by left side, the first one
      being `@start: start $`, whose left side appears nowhere else. */
  predicate ValidGrammar(g: Grammar) {
    && 0 < g.ntk <= MAX_TK < g.nsy
    && |g.rules| > 0
    && g.rules[0] == Rule(SYM0, [g.start, 0])
    && (forall r :: 0 <= r < |g.rules| ==> ValidRule(g, g.rules[r]))
    && (forall q, r :: 0 <= q < r < |g.rules| ==> g.rules[q].lhs <= g.rules[r].lhs)
    && (forall r :: 0 < r < |g.rules| ==> g.rules[r].lhs != SYM0)
  }

  predicate ValidRule(g: Grammar, r: Rule) {
    && IsNonterminal(g, r.lhs) && ValidString(g, r.rhs)
    && forall i :: 0 <= i < |r.rhs| ==> r.rhs[i] != SYM0
  }

  // ---------- Derivations ----------

  /** b is a with one nonterminal rewritten by a rule. */
  ghost predicate Step(g: Grammar, a: seq<Sym>, b: seq<Sym>) {
    exists i: nat, r: nat :: StepAt(g, a, b, i, r)
  }

  ghost predicate StepAt(g: Grammar, a: seq<Sym>, b: seq<Sym>, i: nat, r: nat) {
    i < |a| && r < |g.rules| && a[i] == g.rules[r].lhs && b == a[..i] + g.rules[r].rhs + a[i + 1..]
  }

  ghost predicate DerivesIn(g: Grammar, a: seq<Sym>, b: seq<Sym>, n: nat)
    decreases n
  {
    if n == 0 then a == b else exists c :: Step(g, a, c) && DerivesIn(g, c, b, n - 1)
  }

  ghost predicate Derives(g: Grammar, a: seq<Sym>, b: seq<Sym>) {
    exists n: nat :: DerivesIn(g, a, b, n)
  }

  lemma {:induction false} DerivesSelf(g: Grammar, a: seq<Sym>)
    ensures Derives(g, a, a)
  {
    assert DerivesIn(g, a, a, 0);
  }

  lemma {:induction false} DerivesInTransitive(g: Grammar, a: seq<Sym>, b: seq<Sym>, c: seq<Sym>, m: nat, n: nat)
    requires DerivesIn(g, a, b, m) && DerivesIn(g, b, c, n)
    ensures DerivesIn(g, a, c, m + n)
    decreases m
  {
    if m > 0 {
      var d :| Step(g, a, d) && DerivesIn(g, d, b, m - 1);
      DerivesInTransitive(g, d, b, c, m - 1, n);
      assert DerivesIn(g, d, c, m + n - 1);
    }
  }

  lemma {:induction false} DerivesTransitive(g: Grammar, a: seq<Sym>, b: seq<Sym>, c: seq<Sym>)
    requires Derives(g, a, b) && Derives(g, b, c)
    ensures Derives(g, a, c)
  {
    var m: nat :| DerivesIn(g, a, b, m);
    var n: nat :| DerivesIn(g, b, c, n);
    DerivesInTransitive(g, a, b, c, m, n);
  }

  lemma {:induction false} StepContext(g: Grammar, x: seq<Sym>, a: seq<Sym>, c: seq<Sym>, y: seq<Sym>)
    requires Step(g, a, c)
    ensures Step(g, x + a + y, x + c + y)
  {
    var i: nat, r: nat :| StepAt(g, a, c, i, r);
    var a', c', rhs := x + a + y, x + c + y, g.rules[r].rhs;
    assert a'[..|x| + i] == x + a[..i];
    assert a'[|x| + i + 1..] == a[i + 1..] + y;
    calc {
      c';
      x + (a[..i] + rhs + a[i + 1..]) + y;
      (x + a[..i]) + rhs + (a[i + 1..] + y);
    }
    assert StepAt(g, a', c', |x| + i, r);
  }

  lemma {:induction false} DerivesInContext(g: Grammar, x: seq<Sym>, a: seq<Sym>, b: seq<Sym>, y: seq<Sym>, n: nat)
    requires DerivesIn(g, a, b, n)
    ensures DerivesIn(g, x + a + y, x + b + y, n)
    decreases n
  {
    if n > 0 {
      var c :| Step(g, a, c) && DerivesIn(g, c, b, n - 1);
      StepContext(g, x, a, c, y);
      DerivesInContext(g, x, c, b, y, n - 1);
    }
  }

  lemma {:induction false} DerivesContext(g: Grammar, x: seq<Sym>, a: seq<Sym>, b: seq<Sym>, y: seq<Sym>)
    requires Derives(g, a, b)
    ensures Derives(g, x + a + y, x + b + y)
  {
    var n: nat :| DerivesIn(g, a, b, n);
    DerivesInContext(g, x, a, b, y, n);
  }

  lemma {:induction false} DerivesConcat(g: Grammar, a: seq<Sym>, b: seq<Sym>, c: seq<Sym>, d: seq<Sym>)
    requires Derives(g, a, b) && Derives(g, c, d)
    ensures Derives(g, a + c, b + d)
  {
    DerivesContext(g, [], a, b, c);
    DerivesContext(g, b, c, d, []);
    assert [] + a + c == a + c && [] + b + c == b + c == b + c + [] && b + d + [] == b + d;
    DerivesTransitive(g, a + c, b + c, b + d);
  }

  lemma {:induction false} DerivesRule(g: Grammar, r: nat, b: seq<Sym>)
    requires r < |g.rules| && Derives(g, g.rules[r].rhs, b)
    ensures Derives(g, [g.rules[r].lhs], b)
  {
    var a, c := [g.rules[r].lhs], g.rules[r].rhs;
    assert c == a[..0] + g.rules[r].rhs + a[1..];
    assert StepAt(g, a, c, 0, r) && Step(g, a, c);
    var n: nat :| DerivesIn(g, c, b, n);
    assert DerivesIn(g, a, b, n + 1);
  }

  // ---------- Parse trees ----------

  datatype Tree = Leaf(token: Sym) | Node(rule: nat, children: seq<Tree>)

  function Root(g: Grammar, t: Tree): Sym {
    match t
    case Leaf(s) => s
    case Node(r, _) => if r < |g.rules| then g.rules[r].lhs else SYM0
  }

  function Roots(g: Grammar, ts: seq<Tree>): (a: seq<Sym>)
    ensures |a| == |ts|
    ensures forall i :: 0 <= i < |ts| ==> a[i] == Root(g, ts[i])
  {
    seq(|ts|, i requires 0 <= i < |ts| => Root(g, ts[i]))
  }

  /** Every inner node is a rule whose right side its children spell. */
  predicate ValidTree(g: Grammar, t: Tree) {
    match t
    case Leaf(s) => s < g.ntk
    case Node(r, ts) => r < |g.rules| && Roots(g, ts) == g.rules[r].rhs && ValidForest(g, ts)
  }

  predicate ValidForest(g: Grammar, ts: seq<Tree>) {
    forall i :: 0 <= i < |ts| ==> ValidTree(g, ts[i])
  }

  function Yield(t: Tree): seq<Sym> {
    match t
    case Leaf(s) => [s]
    case Node(_, ts) => YieldForest(ts)
  }

  function YieldForest(ts: seq<Tree>): seq<Sym> {
    if ts == [] then [] else Yield(ts[0]) + YieldForest(ts[1..])
  }

  lemma {:induction false} YieldAppend(ts: seq<Tree>, us: seq<Tree>)
    ensures YieldForest(ts + us) == YieldForest(ts) + YieldForest(us)
  {
    if ts == [] {
      assert ts + us == us;
    } else {
      assert (ts + us)[1..] == ts[1..] + us;
      YieldAppend(ts[1..], us);
    }
  }

  /** A valid tree is a derivation of its yield from its root. */
  lemma {:induction false} TreeDerives(g: Grammar, t: Tree)
    requires ValidTree(g, t)
    ensures Derives(g, [Root(g, t)], Yield(t))
    decreases t, 1, 0
  {
    match t
    case Leaf(s) =>
      DerivesSelf(g, [s]);
    case Node(r, ts) =>
      ForestDerives(g, ts, t);
      DerivesRule(g, r, YieldForest(ts));
  }

  lemma {:induction false} ForestDerives(g: Grammar, ts: seq<Tree>, parent: Tree)
    requires ValidForest(g, ts) && forall i :: 0 <= i < |ts| ==> ts[i] < parent
    ensures Derives(g, Roots(g, ts), YieldForest(ts))
    decreases parent, 0, |ts|
  {
    if ts == [] {
      assert Roots(g, ts) == [];
      DerivesSelf(g, []);
    } else {
      TreeDerives(g, ts[0]);
      ForestDerives(g, ts[1..], parent);
      assert Roots(g, ts) == [Root(g, ts[0])] + Roots(g, ts[1..]);
      DerivesConcat(g, [Root(g, ts[0])], Yield(ts[0]), Roots(g, ts[1..]), YieldForest(ts[1..]));
    }
  }

  lemma {:induction false} TreeTokens(g: Grammar, t: Tree)
    requires ValidTree(g, t)
    ensures forall i :: 0 <= i < |Yield(t)| ==> Yield(t)[i] < g.ntk
    decreases t, 1, 0
  {
    match t
    case Leaf(_) =>
    case Node(_, ts) => YieldTokens(g, ts, t);
  }

  lemma {:induction false} YieldTokens(g: Grammar, ts: seq<Tree>, parent: Tree)
    requires ValidForest(g, ts) && forall i :: 0 <= i < |ts| ==> ts[i] < parent
    ensures forall i :: 0 <= i < |YieldForest(ts)| ==> YieldForest(ts)[i] < g.ntk
    decreases parent, 0, |ts|
  {
    if ts != [] {
      TreeTokens(g, ts[0]);
      YieldTokens(g, ts[1..], parent);
    }
  }

  // ---------- Derivable strings have trees ----------

  ghost predicate IsForest(g: Grammar, ts: seq<Tree>, a: seq<Sym>, w: seq<Sym>) {
    ValidForest(g, ts) && Roots(g, ts) == a && YieldForest(ts) == w
  }

  lemma {:induction false} LeafForest(g: Grammar, w: seq<Sym>) returns (ts: seq<Tree>)
    requires forall i :: 0 <= i < |w| ==> w[i] < g.ntk
    ensures IsForest(g, ts, w, w)
  {
    if w == [] {
      ts := [];
    } else {
      var us := LeafForest(g, w[1..]);
      ts := [Leaf(w[0])] + us;
      assert ts[1..] == us && Roots(g, ts) == [w[0]] + Roots(g, us);
    }
  }

  lemma {:induction false} JoinForests(
    g: Grammar, ts: seq<Tree>, a: seq<Sym>, v: seq<Sym>, us: seq<Tree>, b: seq<Sym>, w: seq<Sym>)
    requires IsForest(g, ts, a, v) && IsForest(g, us, b, w)
    ensures IsForest(g, ts + us, a + b, v + w)
  {
    YieldAppend(ts, us);
    assert Roots(g, ts + us) == a + b;
  }

  lemma {:induction false} SplitForest(g: Grammar, ts: seq<Tree>, a: seq<Sym>, b: seq<Sym>, w: seq<Sym>)
    returns (us: seq<Tree>, vs: seq<Tree>)
    requires IsForest(g, ts, a + b, w)
    ensures IsForest(g, us, a, YieldForest(us)) && IsForest(g, vs, b, YieldForest(vs))
    ensures w == YieldForest(us) + YieldForest(vs)
  {
    us, vs := ts[..|a|], ts[|a|..];
    assert ts == us + vs && |ts| == |Roots(g, ts)|;
    YieldAppend(us, vs);
    assert Roots(g, us) == a && Roots(g, vs) == b;
  }

  /** The trees of a rule's right side are the children of a tree of its left side. */
  lemma {:induction false} NodeForest(g: Grammar, r: nat, ts: seq<Tree>, w: seq<Sym>)
    requires r < |g.rules| && IsForest(g, ts, g.rules[r].rhs, w)
    ensures IsForest(g, [Node(r, ts)], [g.rules[r].lhs], w)
  {
    assert YieldForest([Node(r, ts)]) == Yield(Node(r, ts)) + YieldForest([Node(r, ts)][1..]);
  }

  lemma {:induction false} FoldForest(
    g: Grammar, us: seq<Tree>, a: seq<Sym>, c: seq<Sym>, i: nat, r: nat, w: seq<Sym>) returns (ts: seq<Tree>)
    requires IsForest(g, us, c, w) && StepAt(g, a, c, i, r)
    ensures IsForest(g, ts, a, w)
  {
    var rule := g.rules[r];
    assert c == a[..i] + (rule.rhs + a[i + 1..]) && a == a[..i] + ([rule.lhs] + a[i + 1..]);
    var us0, vs := SplitForest(g, us, a[..i], rule.rhs + a[i + 1..], w);
    var us1, us2 := SplitForest(g, vs, rule.rhs, a[i + 1..], YieldForest(vs));
    NodeForest(g, r, us1, YieldForest(us1));
    var node := [Node(r, us1)];
    JoinForests(g, node, [rule.lhs], YieldForest(us1), us2, a[i + 1..], YieldForest(us2));
    JoinForests(g, us0, a[..i], YieldForest(us0), node + us2, [rule.lhs] + a[i + 1..], YieldForest(vs));
    ts := us0 + (node + us2);
  }

  lemma {:induction false} DerivedHasForest(g: Grammar, a: seq<Sym>, w: seq<Sym>, n: nat) returns (ts: seq<Tree>)
    requires DerivesIn(g, a, w, n) && forall i :: 0 <= i < |w| ==> w[i] < g.ntk
    ensures IsForest(g, ts, a, w)
    decreases n
  {
    if n == 0 {
      ts := LeafForest(g, w);
    } else {
      var c :| Step(g, a, c) && DerivesIn(g, c, w, n - 1);
      var i: nat, r: nat :| StepAt(g, a, c, i, r);
      var us := DerivedHasForest(g, c, w, n - 1);
      ts := FoldForest(g, us, a, c, i, r, w);
    }
  }

  /** A parse tree of the sentence w. */
  ghost predicate IsParse(g: Grammar, tree: Tree, w: seq<Sym>) {
    ValidTree(g, tree) && Root(g, tree) == g.start && Yield(tree) == w
  }

  /** The sentences of the grammar are the strings with parse trees. */
  lemma {:induction false} SentenceIffParse(g: Grammar, w: seq<Sym>)
    requires forall i :: 0 <= i < |w| ==> w[i] < g.ntk
    ensures Derives(g, [g.start], w) <==> exists tree :: IsParse(g, tree, w)
  {
    if Derives(g, [g.start], w) {
      var n: nat :| DerivesIn(g, [g.start], w, n);
      var ts := DerivedHasForest(g, [g.start], w, n);
      assert |Roots(g, ts)| == 1 && Roots(g, ts)[0] == g.start;
      assert ts == [ts[0]] && ts[1..] == [] && YieldForest(ts) == Yield(ts[0]) + YieldForest(ts[1..]);
      assert IsParse(g, ts[0], w);
    }
    if tree :| IsParse(g, tree, w) {
      TreeDerives(g, tree);
    }
  }
}
