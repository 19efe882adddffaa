/**
  Item sets: the order on kernels by which states are told apart, the goto of an
  item set, and its LR(1) closure with merged lookaheads.
*/
module LalrItems {
  import opened Grammars
  import opened FirstSets
  import opened Automata

  // ---------- Kernels and their order ----------

  type Core = (nat, nat)   // rule and dot

  function CoreOf(t: Term): Core { (t.rule, t.dot) }

  predicate CoreLess(a: Core, b: Core) { a.0 < b.0 || (a.0 == b.0 && a.1 < b.1) }

  /** Order of two terms: by rule, then by dot. */
  function Tcmp(a: Term, b: Term): int {
    if a.rule != b.rule then a.rule - b.rule else a.dot - b.dot
  }

  /** The terms in front, up to the first whose dot is leftmost. */
  function Kernel(ts: seq<Term>): seq<Core> {
    if ts == [] || ts[0].dot == 0 then [] else [CoreOf(ts[0])] + Kernel(ts[1..])
  }

  predicate KernelLess(a: seq<Core>, b: seq<Core>) {
    if b == [] then false
    else if a == [] then true
    else CoreLess(a[0], b[0]) || (a[0] == b[0] && KernelLess(a[1..], b[1..]))
  }

  lemma {:induction false} KernelLessTransitive(a: seq<Core>, b: seq<Core>, c: seq<Core>)
    requires KernelLess(a, b) && KernelLess(b, c)
    ensures KernelLess(a, c)
  {
    if a != [] && a[0] == b[0] == c[0] {
      KernelLessTransitive(a[1..], b[1..], c[1..]);
    }
  }

  lemma {:induction false} KernelLessTotal(a: seq<Core>, b: seq<Core>)
    ensures KernelLess(a, b) || a == b || KernelLess(b, a)
    ensures !(KernelLess(a, b) && KernelLess(b, a))
    ensures KernelLess(a, b) ==> a != b
  {
    if a != [] && b != [] && a[0] == b[0] {
      KernelLessTotal(a[1..], b[1..]);
      assert a == [a[0]] + a[1..] && b == [b[0]] + b[1..];
    }
  }

  /** The generator's comparison of two item sets orders them by kernel. */
  method Icmp(a: seq<Term>, b: seq<Term>) returns (c: int)
    ensures c < 0 <==> KernelLess(Kernel(a), Kernel(b))
    ensures c == 0 <==> Kernel(a) == Kernel(b)
    ensures c > 0 <==> KernelLess(Kernel(b), Kernel(a))
  {
    KernelLessTotal(Kernel(a), Kernel(b));
    var i := 0;
    while true
      invariant 0 <= i <= |a| && i <= |b|
      invariant KernelLess(Kernel(a), Kernel(b)) <==> KernelLess(Kernel(a[i..]), Kernel(b[i..]))
      invariant KernelLess(Kernel(b), Kernel(a)) <==> KernelLess(Kernel(b[i..]), Kernel(a[i..]))
      invariant Kernel(a) == Kernel(b) <==> Kernel(a[i..]) == Kernel(b[i..])
      decreases |a| - i
    {
      if i == |a| || a[i].dot == 0 {
        return if i < |b| && b[i].dot != 0 then -1 else 0;
      }
      if i == |b| || b[i].dot == 0 {
        return 1;
      }
      assert a[i..][1..] == a[i + 1..] && b[i..][1..] == b[i + 1..];
      var d := Tcmp(a[i], b[i]);
      if d != 0 {
        assert CoreOf(a[i]) != CoreOf(b[i]);
        return d;
      }
      KernelStep(a, b, i);
      i := i + 1;
    }
  }

  lemma {:induction false} KernelStep(a: seq<Term>, b: seq<Term>, i: nat)
    requires i < |a| && i < |b| && a[i].dot != 0 && b[i].dot != 0 && CoreOf(a[i]) == CoreOf(b[i])
    ensures Kernel(a[i..]) == [CoreOf(a[i])] + Kernel(a[i + 1..])
    ensures Kernel(b[i..]) == [CoreOf(b[i])] + Kernel(b[i + 1..])
    ensures Kernel(a[i..]) == Kernel(b[i..]) <==> Kernel(a[i + 1..]) == Kernel(b[i + 1..])
    ensures KernelLess(Kernel(a[i..]), Kernel(b[i..])) <==> KernelLess(Kernel(a[i + 1..]), Kernel(b[i + 1..]))
    ensures KernelLess(Kernel(b[i..]), Kernel(a[i..])) <==> KernelLess(Kernel(b[i + 1..]), Kernel(a[i + 1..]))
  {
    assert a[i..][1..] == a[i + 1..] && b[i..][1..] == b[i + 1..];
    var x, y := Kernel(a[i..]), Kernel(b[i..]);
    assert x[1..] == Kernel(a[i + 1..]) && y[1..] == Kernel(b[i + 1..]);
  }

  // ---------- The shape of item sets ----------

  predicate Sorted(ts: seq<Term>) {
    forall i, j :: 0 <= i < j < |ts| ==> CoreLess(CoreOf(ts[i]), CoreOf(ts[j]))
  }

  predicate DistinctCores(ts: seq<Term>) {
    forall i, j :: 0 <= i < j < |ts| ==> CoreOf(ts[i]) != CoreOf(ts[j])
  }

  predicate ValidTerms(g: Grammar, ts: seq<Term>) {
    forall i :: 0 <= i < |ts| ==> ValidTerm(g, ts[i])
  }

  /** Terms with leftmost dot (the first one apart) come in whole blocks, one for
      each nonterminal: the nonterminal's rules side by side in order. */
  predicate InBlocks(g: Grammar, ts: seq<Term>)
    requires ValidTerms(g, ts)
  {
    forall i {:trigger HasNeighbours(g, ts, i)} :: 1 <= i < |ts| && ts[i].dot == 0 ==> HasNeighbours(g, ts, i)
  }

  predicate HasNeighbours(g: Grammar, ts: seq<Term>, i: nat)
    requires ValidTerms(g, ts) && 1 <= i < |ts|
  {
    var r := ts[i].rule;
    && (r > 0 && g.rules[r - 1].lhs == g.rules[r].lhs ==> CoreOf(ts[i - 1]) == (r - 1, 0))
    && (r + 1 < |g.rules| && g.rules[r + 1].lhs == g.rules[r].lhs ==> i + 1 < |ts| && CoreOf(ts[i + 1]) == (r + 1, 0))
  }

  /** k kernel terms, sorted; then terms with leftmost dot. */
  predicate KernelFirst(ts: seq<Term>, k: nat) {
    && k <= |ts|
    && (forall i :: 0 <= i < k ==> ts[i].dot > 0)
    && (forall i :: k <= i < |ts| ==> ts[i].dot == 0)
    && Sorted(ts[..k])
  }

  /** The start rule with its dot in front can only be the first term. */
  predicate StartFirst(ts: seq<Term>) {
    forall i :: 1 <= i < |ts| ==> CoreOf(ts[i]) != (0, 0)
  }

  ghost predicate JustifiedTerms(g: Grammar, ts: seq<Term>)
    requires ValidTerms(g, ts)
  {
    forall i :: 1 <= i < |ts| && ts[i].dot == 0 ==> SomeExpects(g, ts, g.rules[ts[i].rule].lhs)
  }

  ghost predicate SomeExpects(g: Grammar, ts: seq<Term>, x: Sym) {
    exists i :: 0 <= i < |ts| && Expects(g, ts[i], x)
  }

  /** What the block structure needs of an item set. */
  predicate Blocked(g: Grammar, ts: seq<Term>) {
    && ValidGrammar(g) && ValidTerms(g, ts) && InBlocks(g, ts)
    && (|ts| > 0 && ts[0].dot == 0 ==> CoreOf(ts[0]) == (0, 0))
  }

  ghost predicate KernelShape(ts: seq<Term>) { exists k: nat :: KernelFirst(ts, k) }

  /** An item set: sorted kernel, then justified blocks of closure terms. */
  ghost predicate ItemSet(g: Grammar, ts: seq<Term>) {
    && |ts| > 0 && Blocked(g, ts) && DistinctCores(ts) && KernelShape(ts) && StartFirst(ts) && JustifiedTerms(g, ts)
  }

  // ---------- Closure ----------

  /** The symbols after the one behind the dot. */
  function Rest(g: Grammar, t: Term): seq<Sym>
    requires t.rule < |g.rules| && t.dot < |g.rules[t.rule].rhs|
  {
    g.rules[t.rule].rhs[t.dot + 1..]
  }

  /** Lookaheads that term t hands to the rules of the nonterminal it expects. */
  function Handed(g: Grammar, info: Info, t: Term): set<Sym>
    requires ValidGrammar(g) && ValidInfo(g, info) && ValidTerm(g, t) && t.dot < |g.rules[t.rule].rhs|
  {
    assert ValidRule(g, g.rules[t.rule]);
    First(g, info, Rest(g, t), t.lk)
  }

  /** The lookaheads handed on are exactly the tokens that can come after the nonterminal:
      those that can begin what follows it, and, if all of that can vanish, the term's own. */
  lemma {:induction false} HandedIff(g: Grammar, info: Info, t: Term, s: Sym)
    requires ValidGrammar(g) && ValidInfo(g, info) && ExactInfo(g, info)
    requires ValidTerm(g, t) && t.dot < |g.rules[t.rule].rhs| && s < g.ntk
    ensures var rest := g.rules[t.rule].rhs[t.dot + 1..];
      s in Handed(g, info, t) <==> CanBegin(g, rest, s) || (s in t.lk && CanVanish(g, rest))
  {
    assert ValidRule(g, g.rules[t.rule]);
    FirstExact(g, info, Rest(g, t), t.lk, s);
  }

  /** Some term is rule r with its dot in front and at least these lookaheads. */
  ghost predicate Covers(ts: seq<Term>, r: nat, lk: set<Sym>) {
    exists m :: 0 <= m < |ts| && CoreOf(ts[m]) == (r, 0) && lk <= ts[m].lk
  }

  ghost predicate ClosedFor(g: Grammar, info: Info, ts: seq<Term>, t: Term)
    requires ValidGrammar(g) && ValidInfo(g, info) && ValidTerm(g, t)
  {
    t.dot < |g.rules[t.rule].rhs| ==>
      forall r :: 0 <= r < |g.rules| && g.rules[r].lhs == g.rules[t.rule].rhs[t.dot] ==>
        Covers(ts, r, Handed(g, info, t))
  }

  ghost predicate Closed(g: Grammar, info: Info, ts: seq<Term>)
    requires ValidGrammar(g) && ValidInfo(g, info) && ValidTerms(g, ts)
  {
    forall n :: 0 <= n < |ts| ==> ClosedFor(g, info, ts, ts[n])
  }

  /** Every term of ts is in us with at least its lookaheads. */
  ghost predicate Below(ts: seq<Term>, us: seq<Term>) {
    forall i :: 0 <= i < |ts| ==> TermBelow(ts[i], us)
  }

  ghost predicate TermBelow(t: Term, us: seq<Term>) {
    exists j :: 0 <= j < |us| && CoreOf(us[j]) == CoreOf(t) && t.lk <= us[j].lk
  }

  /** us is ts with larger lookaheads and more terms with leftmost dot. */
  predicate Grown(ts: seq<Term>, us: seq<Term>) {
    && |ts| <= |us|
    && (forall i :: 0 <= i < |ts| ==> CoreOf(us[i]) == CoreOf(ts[i]) && ts[i].lk <= us[i].lk)
    && (forall i :: |ts| <= i < |us| ==> us[i].dot == 0)
  }

  lemma {:induction false} KernelGrown(ts: seq<Term>, us: seq<Term>)
    requires Grown(ts, us)
    ensures Kernel(us) == Kernel(ts)
  {
    if ts != [] && ts[0].dot != 0 {
      KernelGrown(ts[1..], us[1..]);
    }
  }

  lemma {:induction false} GrownTransitive(ts: seq<Term>, us: seq<Term>, vs: seq<Term>)
    requires Grown(ts, us) && Grown(us, vs)
    ensures Grown(ts, vs)
  {
  }
}
