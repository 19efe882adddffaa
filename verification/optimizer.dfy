/**
  The optimizer itself: it lists and numbers what a function uses, forwards
  jumps, and repeats liveness analysis, dead store elimination and merging
  until nothing changes.
*/
module Optimizing {
  import opened Options
  import opened Ir
  import opened IrSemantics
  import opened Liveness
  import opened Transform
  import opened FlowGraph
  import opened Dataflow
  import opened LivePaths
  import opened Passes

  // ---------- Reachability ----------

  predicate Edge(g: Graph, a: nat, b: nat) {
    a < |g| && (g[a].jump0 == Some(b) || (g[a].jump0.Some? && g[a].jump1 == Some(b)))
  }

  ghost predicate IsPath(g: Graph, a: nat, z: nat, path: seq<nat>)
    decreases |path|
  {
    if path == [] then a == z else Edge(g, a, path[0]) && IsPath(g, path[0], z, path[1..])
  }

  ghost predicate Reaches(g: Graph, a: nat, z: nat) {
    exists path :: IsPath(g, a, z, path)
  }

  lemma {:induction false} ReachesSelf(g: Graph, a: nat)
    ensures Reaches(g, a, a)
  {
    assert IsPath(g, a, a, []);
  }

  lemma {:induction false} ReachesVia(g: Graph, a: nat, b: nat, z: nat)
    requires Edge(g, a, b) && Reaches(g, b, z)
    ensures Reaches(g, a, z)
  {
    var path :| IsPath(g, b, z, path);
    assert ([b] + path)[1..] == path;
    assert IsPath(g, a, z, [b] + path);
  }

  lemma {:induction false} ClosedHasPath(g: Graph, list: seq<nat>, a: nat, z: nat, path: seq<nat>)
    requires ValidGraph(g) && Closed(g, list) && a in list && IsPath(g, a, z, path)
    ensures z in list
    decreases |path|
  {
    if path != [] {
      assert ClosedAt(g, list, a);
      ClosedHasPath(g, list, path[0], z, path[1..]);
    }
  }

  /** No cycle of empty blocks can be reached. */
  ghost predicate NoEmptyCycleFrom(g: Graph, entry: nat)
    requires ValidGraph(g)
  {
    forall b: nat :: b < |g| && Reaches(g, entry, b) ==> !OnEmptyCycle(g, b)
  }

  /** All code that can be reached passes the test that needs no analysis. */
  ghost predicate OptimizableFrom(syms: seq<Symbol>, g: Graph, entry: nat) {
    forall b: nat :: b < |g| && Reaches(g, entry, b) ==> Optimizable(syms, g[b].code)
  }

  predicate SameButColors(g: Graph, h: Graph) {
    |g| == |h| && forall b :: 0 <= b < |g| ==> h[b] == g[b].(color := h[b].color)
  }

  lemma {:induction false} PathsSame(g: Graph, h: Graph, a: nat, z: nat, path: seq<nat>)
    requires SameButColors(g, h)
    ensures IsPath(g, a, z, path) <==> IsPath(h, a, z, path)
    decreases |path|
  {
    if path != [] {
      PathsSame(g, h, path[0], z, path[1..]);
    }
  }

  lemma {:induction false} ReachesSame(g: Graph, h: Graph, a: nat, z: nat)
    requires SameButColors(g, h) && Reaches(h, a, z)
    ensures Reaches(g, a, z)
  {
    var path :| IsPath(h, a, z, path);
    PathsSame(g, h, a, z, path);
  }

  lemma {:induction false} ColorsKeepValid(g: Graph, h: Graph)
    requires ValidGraph(g) && SameButColors(g, h)
    ensures ValidGraph(h)
  {
    forall b | 0 <= b < |h|
      ensures ValidJumps(h[b], |h|)
    {
      assert ValidJumps(g[b], |g|);
    }
  }

  /** Exactly the listed blocks are marked, each listed once. */
  predicate Marked(g: Graph, list: seq<nat>) {
    && Distinct(list)
    && (forall i :: 0 <= i < |list| ==> list[i] < |g|)
    && (forall b :: 0 <= b < |g| ==> (g[b].color == Black <==> b in list))
  }

  function Unmarked(g: Graph): set<nat> {
    set b: nat | b < |g| && g[b].color == White
  }

  /** The list from position n on: reachable from b, with successors listed. */
  ghost predicate NewlyListed(g: Graph, b: nat, h: Graph, list: seq<nat>, n: nat) {
    forall i :: n <= i < |list| ==> ListedFrom(g, b, h, list, list[i])
  }

  ghost predicate ListedFrom(g: Graph, b: nat, h: Graph, list: seq<nat>, x: nat) {
    x < |h| && ClosedAt(h, list, x) && Reaches(g, b, x)
  }

  lemma {:induction false} ChildListed(g: Graph, b: nat, g1: Graph, child: nat, h: Graph, list: seq<nat>, n: nat)
    requires SameButColors(g, g1) && Edge(g, b, child)
    requires NewlyListed(g1, child, h, list, n)
    ensures NewlyListed(g, b, h, list, n)
  {
    forall i | n <= i < |list|
      ensures ListedFrom(g, b, h, list, list[i])
    {
      assert ListedFrom(g1, child, h, list, list[i]);
      ReachesSame(g, g1, child, list[i]);
      ReachesVia(g, b, child, list[i]);
    }
  }

  lemma {:induction false} ListedStays(g: Graph, b: nat, h: Graph, list: seq<nat>, h': Graph, list': seq<nat>, n: nat)
    requires SameButColors(h, h') && list <= list'
    requires NewlyListed(g, b, h, list, n) && NewlyListed(g, b, h', list', |list|)
    ensures NewlyListed(g, b, h', list', n)
  {
    assert forall x :: x in list ==> x in list';
    forall i | n <= i < |list'|
      ensures ListedFrom(g, b, h', list', list'[i])
    {
      if i < |list| {
        assert ListedFrom(g, b, h, list, list[i]);
      } else {
        assert ListedFrom(g, b, h', list', list'[i]);
      }
    }
  }

  lemma {:induction false} FirstListed(g: Graph, b: nat, h: Graph, list: seq<nat>, list': seq<nat>)
    requires SameButColors(g, h) && b < |g| && list + [b] <= list' && ClosedAt(h, list', b)
    requires NewlyListed(g, b, h, list', |list| + 1)
    ensures NewlyListed(g, b, h, list', |list|)
  {
    ReachesSelf(g, b);
    assert list'[|list|] == b;
    forall i | |list| <= i < |list'|
      ensures ListedFrom(g, b, h, list', list'[i])
    {
    }
  }

  lemma {:induction false} Painted(g: Graph, list: seq<nat>, b: nat, h: Graph, list': seq<nat>)
    requires ValidGraph(g) && Marked(g, list) && b < |g| && g[b].color == White
    requires h == g[b := g[b].(color := Black)] && list' == list + [b]
    ensures SameButColors(g, h) && ValidGraph(h) && Marked(h, list')
    ensures Unmarked(h) < Unmarked(g)
    ensures ValidJumps(h[b], |h|)
  {
    ColorsKeepValid(g, h);
    assert b in Unmarked(g) && b !in Unmarked(h);
  }

  lemma {:induction false} SameButColorsTransitive(f: Graph, g: Graph, h: Graph)
    requires SameButColors(f, g) && SameButColors(g, h)
    ensures SameButColors(f, h)
  {
  }

  lemma {:induction false} MarkedLess(g: Graph, list: seq<nat>, h: Graph, list': seq<nat>)
    requires Marked(g, list) && Marked(h, list') && |g| == |h| && list <= list'
    ensures Unmarked(h) <= Unmarked(g)
  {
    assert forall x :: x in list ==> x in list';
  }

  // ---------- Numbering ----------

  predicate Numbering(syms: seq<Symbol>, idx: Index, symbols: seq<nat>) {
    && |idx| == |syms| && |symbols| <= 64
    && (forall i :: 0 <= i < |symbols| ==>
          symbols[i] < |syms| && IsObject(syms[symbols[i]].ty) && idx[symbols[i]] == i + 1)
    && (forall x :: 0 <= x < |idx| && idx[x] != 0 ==>
          idx[x] <= |symbols| && symbols[idx[x] - 1] == x)
  }

  predicate MentionsExpr(e: Expr, x: nat) {
    e.l.symbol == Some(x) || (!IsUnary(e.op) && e.r.symbol == Some(x))
  }

  predicate MentionsStatement(s: Statement, x: nat) {
    MentionsExpr(s.expr, x) || (s.st == Assign && s.t.symbol == Some(x))
  }

  predicate MentionsBlock(b: Block, x: nat) {
    || (exists i :: 0 <= i < |b.code| && MentionsStatement(b.code[i], x))
    || (UsesExpr(b) && MentionsExpr(b.expr, x))
  }

  /** One of the listed blocks mentions the symbol. */
  predicate Mentioned(g: Graph, list: seq<nat>, x: nat) {
    exists i :: 0 <= i < |list| && list[i] < |g| && MentionsBlock(g[list[i]], x)
  }

  /** Numbers already given stay. */
  predicate Extends(idx: Index, jdx: Index) {
    |idx| == |jdx| && forall x :: 0 <= x < |idx| && idx[x] != 0 ==> jdx[x] == idx[x]
  }

  lemma {:induction false} ReadyLonger(syms: seq<Symbol>, idx: Index, jdx: Index, c: seq<Statement>, n: nat)
    requires |idx| == |syms| && Extends(idx, jdx) && n < |c|
    requires ReadyCode(syms, idx, c[..n]) && Ready(syms, jdx, c[n])
    ensures ReadyCode(syms, jdx, c[..n + 1])
  {
    forall i | 0 <= i <= n
      ensures Ready(syms, jdx, c[i])
    {
      assert i == n || Ready(syms, idx, c[..n][i]);
    }
  }

  lemma {:induction false} ExtendsReady(syms: seq<Symbol>, idx: Index, jdx: Index, b: Block)
    requires |idx| == |syms| && Extends(idx, jdx) && ReadyBlock(syms, idx, b)
    ensures ReadyBlock(syms, jdx, b)
  {
    forall i | 0 <= i < |b.code|
      ensures Ready(syms, jdx, b.code[i])
    {
      assert Ready(syms, idx, b.code[i]);
    }
  }

  lemma {:induction false} StillSolvedList(syms: seq<Symbol>, idx: Index, g: Graph, list: seq<nat>, n: nat, h: Graph)
    requires ValidGraph(g) && |idx| == |syms| && ReadyList(syms, idx, g, list) && Closed(g, list) && n < |list|
    requires h == g[list[n] := Analysed(syms, idx, g, list[n])] && h[list[n]].liveIn == g[list[n]].liveIn
    requires ValidGraph(h) && ReadyList(syms, idx, h, list)
    requires SolvedList(syms, idx, g, list, n)
    ensures SolvedList(syms, idx, h, list, n + 1)
  {
    forall i | 0 <= i < n + 1
      ensures Solved(syms, idx, h, list[i])
    {
      StillSolved(syms, idx, g, list, list[n], list[i], h);
    }
  }

  lemma {:induction false} AnnotateStep(syms: seq<Symbol>, idx: Index, c: seq<Statement>, end: Bits, i: nat)
    requires |idx| == |syms| && ReadyCode(syms, idx, c) && i < |c|
    ensures Annotate(syms, idx, c[i..], end)
         == [c[i].(out := Backward(syms, idx, c[i + 1..], end))] + Annotate(syms, idx, c[i + 1..], end)
    ensures Backward(syms, idx, c[i..], end) == Transfer(syms, idx, c[i], Backward(syms, idx, c[i + 1..], end))
  {
    assert c[i..][1..] == c[i + 1..];
  }

  /** The first annotated statement hands its own in set on. */
  lemma {:induction false} AnnotatedHead(syms: seq<Symbol>, idx: Index, c: seq<Statement>, end: Bits, i: nat, d: seq<Statement>)
    requires |idx| == |syms| && ReadyCode(syms, idx, c) && i < |c| == |d|
    requires d[i..] == Annotate(syms, idx, c[i..], end)
    ensures Ready(syms, idx, d[i])
    ensures Transfer(syms, idx, d[i], d[i].out) == Backward(syms, idx, c[i..], end)
  {
    AnnotateStep(syms, idx, c, end, i);
    assert d[i] == d[i..][0];
    assert Ready(syms, idx, c[i]);
  }

  /** The code from statement i on has its final sets; the code before it is untouched. */
  predicate SolvedFrom(syms: seq<Symbol>, idx: Index, c: seq<Statement>, end: Bits, i: nat, d: seq<Statement>) {
    && |idx| == |syms| && ReadyCode(syms, idx, c) && i < |c| == |d|
    && d[..i] == c[..i] && d[i..] == Annotate(syms, idx, c[i..], end)
  }

  lemma {:induction false} ReplacedBefore<T>(c: seq<T>, d: seq<T>, i: nat, x: T)
    requires 0 < i < |c| == |d| && d[..i] == c[..i]
    ensures d[i - 1] == c[i - 1]
    ensures var e := d[i - 1 := x]; e[..i - 1] == c[..i - 1] && e[i - 1..] == [x] + d[i..]
  {
    assert c[i - 1] == c[..i][i - 1] == d[..i][i - 1];
    assert d[i - 1 := x][..i - 1] == d[..i][..i - 1] == c[..i][..i - 1];
  }

  lemma {:induction false} SolvedFurther(syms: seq<Symbol>, idx: Index, c: seq<Statement>, end: Bits, i: nat, d: seq<Statement>)
    requires 0 < i && SolvedFrom(syms, idx, c, end, i, d)
    ensures ValidStatement(d[i], syms)
    ensures SolvedFrom(syms, idx, c, end, i - 1, d[i - 1 := d[i - 1].(out := Transfer(syms, idx, d[i], d[i].out))])
  {
    AnnotatedHead(syms, idx, c, end, i, d);
    AnnotateStep(syms, idx, c, end, i - 1);
    ReplacedBefore(c, d, i, d[i - 1].(out := Transfer(syms, idx, d[i], d[i].out)));
  }

  /** The last statement's set is what is live at the end. */
  lemma {:induction false} SolvedLast(syms: seq<Symbol>, idx: Index, c: seq<Statement>, end: Bits)
    requires |idx| == |syms| && ReadyCode(syms, idx, c) && c != []
    ensures var i := |c| - 1; SolvedFrom(syms, idx, c, end, i, c[i := c[i].(out := end)])
  {
    AnnotateStep(syms, idx, c, end, |c| - 1);
  }

  lemma {:induction false} SolvedFirst(syms: seq<Symbol>, idx: Index, c: seq<Statement>, end: Bits, d: seq<Statement>)
    requires c != [] && SolvedFrom(syms, idx, c, end, 0, d)
    ensures ValidStatement(d[0], syms) && d == Annotate(syms, idx, c, end)
    ensures Transfer(syms, idx, d[0], d[0].out) == Backward(syms, idx, c, end)
  {
    AnnotatedHead(syms, idx, c, end, 0, d);
    assert c[0..] == c && d[0..] == d;
  }

  /** Merging stands at s1 = code[i - 1]: the code before it is final, and merging
      what follows into it gives the whole result. */
  predicate MergedUpTo(syms: seq<Symbol>, idx: Index, start: seq<Statement>, code: seq<Statement>, i: nat, s1: Statement) {
    && |idx| == |syms| && ReadyCode(syms, idx, start) && 1 <= i <= |code| && s1 == code[i - 1]
    && Ready(syms, idx, s1) && ReadyCode(syms, idx, code[i..])
    && code[..i - 1] + MergeFrom(syms, idx, s1, code[i..]) == MergeCode(syms, idx, start)
  }

  lemma {:induction false} MergedFurther(
    syms: seq<Symbol>, idx: Index, start: seq<Statement>, code: seq<Statement>, i: nat, s1: Statement)
    requires MergedUpTo(syms, idx, start, code, i, s1) && i < |code|
    ensures Ready(syms, idx, code[i])
    ensures if CanMerge(syms, idx, s1, code[i]) then
      var t1 := s1.(t := code[i].t);
      MergedUpTo(syms, idx, start, code[i - 1 := t1][..i] + code[i - 1 := t1][i + 1..], i, t1)
    else
      MergedUpTo(syms, idx, start, code, i + 1, code[i])
  {
    var s2 := code[i];
    assert s2 == code[i..][0] && code[i..][1..] == code[i + 1..];
    if CanMerge(syms, idx, s1, s2) {
      var t1 := s1.(t := s2.t);
      var after := code[i - 1 := t1][..i] + code[i - 1 := t1][i + 1..];
      assert after[i..] == code[i + 1..] && after[..i - 1] == code[..i - 1];
    } else {
      assert code[..i] == code[..i - 1] + [s1];
    }
  }

  lemma {:induction false} ErasedFurther(syms: seq<Symbol>, idx: Index, done: seq<Statement>, rest: seq<Statement>)
    requires |idx| == |syms| && ReadyCode(syms, idx, rest) && rest != []
    ensures done + Dse(syms, idx, rest)
         == (done + DseStatement(syms, idx, rest[0])) + Dse(syms, idx, rest[1..])
  {
  }

  /** Blocks outside the list are as they were. */
  predicate Untouched(g: Graph, h: Graph, list: seq<nat>) {
    |g| == |h| && forall b :: 0 <= b < |g| && b !in list ==> h[b] == g[b]
  }

  // ---------- Steps of the optimizer's proof ----------

  /** No jump of the block leads to an empty block that only jumps on. */
  predicate JumpsToWork(g: Graph, b: nat)
    requires ValidGraph(g) && b < |g|
  {
    assert ValidJumps(g[b], |g|);
    && (g[b].jump0.Some? ==> !Forwards(g[g[b].jump0.value]))
    && (g[b].jump1.Some? ==> !Forwards(g[g[b].jump1.value]))
  }

  lemma {:induction false} ForwardedReflexive(g: Graph)
    requires ValidGraph(g)
    ensures Forwarded(g, g)
  {
    forall b | 0 <= b < |g|
      ensures ForwardedAt(g, g, b)
    {
      assert ValidJumps(g[b], |g|);
      if g[b].jump0.Some? {
        assert Follow(g, g[b].jump0.value, 0) == g[b].jump0.value;
      }
      if g[b].jump1.Some? {
        assert Follow(g, g[b].jump1.value, 0) == g[b].jump1.value;
      }
    }
  }

  /** h is g with jumps forwarded, of listed blocks for which the search ends. */
  ghost predicate Forwarding(g: Graph, h: Graph, list: seq<nat>, rank: seq<nat>) {
    ValidGraph(g) && ValidGraph(h) && Forwarded(g, h) && Closed(h, list) && Ranked(h, list, rank)
  }

  lemma {:induction false} JumpsListed(g: Graph, h: Graph, list: seq<nat>, rank: seq<nat>, b: nat)
    requires Forwarding(g, h, list, rank) && b in list && b < |h|
    ensures ValidJumps(h[b], |h|) && ValidJumps(g[b], |g|) && ForwardedAt(g, h, b) && ClosedAt(h, list, b)
  {
    assert ForwardedAt(g, h, b);
  }

  /** No jump of the first n listed blocks does. */
  predicate WorkUpTo(g: Graph, list: seq<nat>, n: nat)
    requires ValidGraph(g)
  {
    n <= |list| && forall i :: 0 <= i < n ==> list[i] < |g| && JumpsToWork(g, list[i])
  }

  lemma {:induction false} WorkFurther(g: Graph, h: Graph, k: Graph, list: seq<nat>, n: nat)
    requires ValidGraph(g) && ValidGraph(h) && ValidGraph(k) && Forwarded(g, h) && Forwarded(g, k)
    requires n < |list| && WorkUpTo(h, list, n) && list[n] < |k| && JumpsToWork(k, list[n])
    requires forall b :: 0 <= b < |k| && b != list[n] ==> k[b] == h[b]
    ensures WorkUpTo(k, list, n + 1)
  {
    SameForwards(g, h);
    SameForwards(g, k);
    forall i | 0 <= i < n + 1
      ensures list[i] < |k| && JumpsToWork(k, list[i])
    {
      if i < n {
        assert JumpsToWork(h, list[i]) && ValidJumps(k[list[i]], |k|);
      }
    }
  }

  lemma {:induction false} SameForwards(g: Graph, h: Graph)
    requires ValidGraph(g) && Forwarded(g, h)
    ensures forall b :: 0 <= b < |g| ==> Forwards(g[b]) == Forwards(h[b])
  {
    forall b | 0 <= b < |g|
      ensures Forwards(g[b]) == Forwards(h[b])
    {
      assert ForwardedAt(g, h, b);
    }
  }

  lemma {:induction false} SolvedSound(syms: seq<Symbol>, idx: Index, g: Graph, list: seq<nat>)
    requires ValidGraph(g) && |idx| == |syms| && ReadyList(syms, idx, g, list)
    requires SolvedList(syms, idx, g, list, |list|)
    ensures SoundList(syms, idx, g, list)
  {
    forall i | 0 <= i < |list|
      ensures Sound(syms, idx, g, list[i])
    {
      SolvedIsSound(syms, idx, g, list[i]);
    }
  }

  lemma {:induction false} ColorsSameProgram(g: Graph, h: Graph)
    requires SameButColors(g, h)
    ensures SameProgram(g, h)
  {
    forall b | 0 <= b < |g|
      ensures SameButSets(g[b], h[b])
    {
    }
  }

  /** What was listed from the entry block on is exactly what it reaches. */
  lemma {:induction false} ListClosed(g: Graph, entry: nat, h: Graph, list: seq<nat>)
    requires ValidGraph(g) && ValidGraph(h) && SameButColors(g, h)
    requires NewlyListed(g, entry, h, list, 0) && entry in list
    ensures Closed(h, list)
    ensures forall x :: x in list <==> Reaches(g, entry, x)
  {
    forall i | 0 <= i < |list|
      ensures list[i] < |h| && ClosedAt(h, list, list[i]) && Reaches(g, entry, list[i])
    {
      assert ListedFrom(g, entry, h, list, list[i]);
    }
    forall x | Reaches(g, entry, x)
      ensures x in list
    {
      var path :| IsPath(g, entry, x, path);
      PathsSame(g, h, entry, x, path);
      ClosedHasPath(h, list, entry, x, path);
    }
  }

  lemma {:induction false} ColorsRanked(g: Graph, h: Graph, list: seq<nat>, rank: seq<nat>)
    requires ValidGraph(g) && ValidGraph(h) && SameButColors(g, h) && Ranked(g, list, rank)
    ensures Ranked(h, list, rank)
  {
    forall b | b in list && b < |h| && Forwards(h[b])
      ensures RankFalls(h, rank, b)
    {
      assert RankFalls(g, rank, b);
    }
  }

  lemma {:induction false} ForwardedKeepsCode(syms: seq<Symbol>, f: Graph, g: Graph, h: Graph)
    requires ValidProgram(f, syms) && SameButColors(f, g) && ValidGraph(g) && Forwarded(g, h)
    ensures forall b :: 0 <= b < |h| ==> ValidBlock(h[b], syms) && h[b].code == f[b].code
  {
    forall b | 0 <= b < |h|
      ensures ValidBlock(h[b], syms) && h[b].code == f[b].code
    {
      assert ValidBlock(f[b], syms) && ForwardedAt(g, h, b);
    }
  }

  lemma {:induction false} ForwardedMarked(g: Graph, h: Graph, list: seq<nat>)
    requires ValidGraph(g) && Forwarded(g, h) && Marked(g, list)
    ensures Marked(h, list)
  {
    forall b | 0 <= b < |h|
      ensures h[b].color == g[b].color
    {
      assert ForwardedAt(g, h, b);
    }
  }

  /** Empty sets settle. */
  lemma {:induction false} ZeroSettles(syms: seq<Symbol>, idx: Index, g: Graph, list: seq<nat>)
    requires ValidGraph(g) && |idx| == |syms| && ReadyList(syms, idx, g, list) && Closed(g, list)
    requires forall i :: 0 <= i < |list| ==> g[list[i]].liveIn == {}
    ensures Settles(syms, idx, g, list)
  {
    forall i | 0 <= i < |list|
      ensures SettlesAt(syms, idx, g, list[i])
    {
      assert ClosedAt(g, list, list[i]) && ValidJumps(g[list[i]], |g|);
      assert OutOf(g, list[i]) == {};
    }
  }

  lemma {:induction false} NumberingValid(syms: seq<Symbol>, idx: Index, symbols: seq<nat>)
    requires Numbering(syms, idx, symbols)
    ensures ValidIndex(idx, syms)
  {
  }

  /** One sweep of the analysis, started from g with parts p, has got from block to
      block as far as the nth: h and q are what it has made of them. */
  ghost predicate SolvingUpTo(
    syms: seq<Symbol>, idx: Index, g: Graph, list: seq<nat>, p: Parts, h: Graph, q: Parts, n: nat, changes: bool)
    requires ValidGraph(g) && |idx| == |syms| && ReadyList(syms, idx, g, list) && Split(syms, idx, g, list, p)
  {
    && ValidGraph(h) && SameProgram(g, h) && Untouched(g, h, list) && n <= |list|
    && ReadyList(syms, idx, h, list) && Closed(h, list) && Split(syms, idx, h, list, q)
    && TotalRoom(q, list) <= TotalRoom(p, list)
    && (if changes then TotalRoom(q, list) < TotalRoom(p, list) else SolvedList(syms, idx, h, list, n))
  }

  lemma {:induction false} SolvingFurther(
    syms: seq<Symbol>, idx: Index, g: Graph, list: seq<nat>, p: Parts, h: Graph, q: Parts, n: nat, changes: bool, k: Graph)
    requires ValidIndex(idx, syms) && ValidGraph(g) && ReadyList(syms, idx, g, list) && Split(syms, idx, g, list, p)
    requires SolvingUpTo(syms, idx, g, list, p, h, q, n, changes) && n < |list|
    requires k == h[list[n] := Analysed(syms, idx, h, list[n])]
    ensures SolvingUpTo(syms, idx, g, list, p, k, Advanced(syms, idx, h, q, list[n]), n + 1,
      changes || k[list[n]].liveIn != h[list[n]].liveIn)
  {
    SolvingMoves(syms, idx, h, list, list[n], q, k);
    SameProgramTransitive(g, h, k);
    if !changes && k[list[n]].liveIn == h[list[n]].liveIn {
      StillSolvedList(syms, idx, h, list, n, k);
    }
  }

  /** The first n listed blocks have lost their dead stores, and no other block has changed. */
  predicate ErasedUpTo(syms: seq<Symbol>, idx: Index, g: Graph, h: Graph, list: seq<nat>, n: nat) {
    && |idx| == |syms| && ReadyList(syms, idx, g, list) && |h| == |g| && n <= |list|
    && (forall k :: 0 <= k < n ==> h[list[k]] == DseBlock(syms, idx, g[list[k]]))
    && (forall k :: n <= k < |list| ==> h[list[k]] == g[list[k]])
    && (forall b :: 0 <= b < |g| && b !in list ==> h[b] == g[b])
  }

  lemma {:induction false} ErasedNext(
    syms: seq<Symbol>, idx: Index, g: Graph, h: Graph, list: seq<nat>, n: nat, k: Graph)
    requires ErasedUpTo(syms, idx, g, h, list, n) && n < |list| && Distinct(list)
    requires k == h[list[n] := DseBlock(syms, idx, g[list[n]])]
    ensures ErasedUpTo(syms, idx, g, k, list, n + 1)
  {
  }

  /** If the sets had only what may be read, they still have. */
  ghost predicate WitnessedIf(syms: seq<Symbol>, idx: Index, g: Graph, h: Graph, list: seq<nat>) {
    && ValidGraph(g) && Closed(g, list) && ValidGraph(h) && Closed(h, list)
    && (AllWitnessed(syms, idx, g, list) ==> AllWitnessed(syms, idx, h, list))
  }

  lemma {:induction false} WitnessedFurther(
    syms: seq<Symbol>, idx: Index, g: Graph, list: seq<nat>, h: Graph, b: nat, k: Graph)
    requires ValidIndex(idx, syms) && WitnessedIf(syms, idx, g, h, list) && ReadyList(syms, idx, h, list)
    requires b in list && b < |h| && k == h[b := Analysed(syms, idx, h, b)]
    ensures WitnessedIf(syms, idx, g, k, list)
  {
    SameProgramReady(syms, idx, h, k, list);
    if AllWitnessed(syms, idx, h, list) {
      SolvingWitnessed(syms, idx, h, list, b, k);
    }
  }

  /** The iteration from g has come to h. */
  ghost predicate Iterating(
    syms: seq<Symbol>, idx: Index, g: Graph, h: Graph, list: seq<nat>, p: Parts, changes: bool) {
    && ValidGraph(h) && SameProgram(g, h) && Untouched(g, h, list) && |idx| == |syms|
    && ReadyList(syms, idx, h, list) && Closed(h, list)
    && Split(syms, idx, h, list, p) && WitnessedIf(syms, idx, g, h, list)
    && (!changes ==> SolvedList(syms, idx, h, list, |list|))
  }

  lemma {:induction false} IteratingOn(
    syms: seq<Symbol>, idx: Index, g: Graph, h: Graph, list: seq<nat>, p: Parts, k: Graph, q: Parts, changes: bool)
    requires ValidIndex(idx, syms) && Iterating(syms, idx, g, h, list, p, true)
    requires SolvingUpTo(syms, idx, h, list, p, k, q, |list|, changes) && WitnessedIf(syms, idx, h, k, list)
    ensures Iterating(syms, idx, g, k, list, q, changes) && TotalRoom(q, list) <= TotalRoom(p, list)
    ensures changes ==> TotalRoom(q, list) < TotalRoom(p, list)
  {
    SameProgramTransitive(g, h, k);
  }

  lemma {:induction false} ExactIfWitnessed(syms: seq<Symbol>, idx: Index, g: Graph, h: Graph, list: seq<nat>)
    requires ValidIndex(idx, syms) && WitnessedIf(syms, idx, g, h, list)
    requires ReadyList(syms, idx, h, list) && SolvedList(syms, idx, h, list, |list|)
    ensures AllWitnessed(syms, idx, g, list) ==> ExactlyLive(syms, idx, h, list)
  {
    if AllWitnessed(syms, idx, g, list) {
      SolvedIsExact(syms, idx, h, list);
    }
  }

  /** Empty sets have nothing that may not be read. */
  lemma {:induction false} EmptyWitnessed(syms: seq<Symbol>, idx: Index, g: Graph, list: seq<nat>)
    requires ValidGraph(g) && Closed(g, list) && forall i :: 0 <= i < |list| ==> g[list[i]].liveIn == {}
    ensures AllWitnessed(syms, idx, g, list)
  {
  }

  lemma {:induction false} SplitInRange(syms: seq<Symbol>, idx: Index, g: Graph, list: seq<nat>, p: Parts)
    requires ValidGraph(g) && |idx| == |syms| && ReadyList(syms, idx, g, list) && Split(syms, idx, g, list, p)
    ensures forall i :: 0 <= i < |list| ==> g[list[i]].liveIn <= ALL_BITS
  {
    forall i | 0 <= i < |list|
      ensures g[list[i]].liveIn <= ALL_BITS
    {
      assert SplitAt(syms, idx, g, p, list[i]);
    }
  }

  /** The three parts of a round: solving the sets changes nothing else ... */
  lemma {:induction false} RoundSolved(syms: seq<Symbol>, idx: Index, g: Graph, h: Graph, list: seq<nat>, entry: nat)
    requires ValidGraph(g) && ValidGraph(h) && SameProgram(g, h) && entry < |g| && |idx| == |syms|
    requires ReadyList(syms, idx, g, list) && ReadyList(syms, idx, h, list)
    requires SolvedList(syms, idx, h, list, |list|)
    ensures Equivalent(syms, g, h, entry) && SoundList(syms, idx, h, list)
    ensures TotalAssignments(h, list) == TotalAssignments(g, list)
  {
    SetsInvisible(syms, g, h, entry);
    SameProgramAssignments(g, h, list);
    SolvedSound(syms, idx, h, list);
  }

  /** ... erasing keeps the sets' soundness, and the behaviour, if the analysis was right ... */
  lemma {:induction false} RoundErased(syms: seq<Symbol>, idx: Index, g: Graph, h: Graph, list: seq<nat>, entry: nat)
    requires ValidIndex(idx, syms) && ValidGraph(g) && ReadyList(syms, idx, g, list) && Closed(g, list)
    requires SoundList(syms, idx, g, list) && forall i :: 0 <= i < |list| ==> g[list[i]].liveIn <= ALL_BITS
    requires IsDseGraph(syms, idx, g, h, list) && entry in list && entry < |g|
    ensures ValidGraph(h) && ReadyList(syms, idx, h, list) && Closed(h, list) && SoundList(syms, idx, h, list)
    ensures (forall i :: 0 <= i < |list| ==> PlainCode(syms, idx, g[list[i]].code)) ==>
      && Equivalent(syms, g, h, entry)
      && forall i :: 0 <= i < |list| ==> PlainCode(syms, idx, h[list[i]].code)
    ensures forall i :: 0 <= i < |list| ==> h[list[i]].liveIn <= ALL_BITS
  {
    DseReady(syms, idx, g, h, list);
    if forall i :: 0 <= i < |list| ==> PlainCode(syms, idx, g[list[i]].code) {
      DseEquivalent(syms, idx, g, h, list, entry);
      forall i | 0 <= i < |list|
        ensures PlainCode(syms, idx, h[list[i]].code)
      {
        assert h[list[i]] == DseBlock(syms, idx, g[list[i]]);
        DsePlain(syms, idx, g[list[i]].code);
      }
    }
  }

  /** ... and merging keeps the behaviour, if the pairs are harmless, and the next
      iteration ends in any case. */
  lemma {:induction false} RoundMerged(syms: seq<Symbol>, idx: Index, g: Graph, h: Graph, list: seq<nat>, entry: nat)
    requires ValidIndex(idx, syms) && ValidGraph(g) && ReadyList(syms, idx, g, list) && Closed(g, list)
    requires SoundList(syms, idx, g, list)
    requires forall i :: 0 <= i < |list| ==> g[list[i]].liveIn <= ALL_BITS
    requires IsMergeGraph(syms, idx, g, h, list) && entry in list && entry < |g|
    ensures ValidGraph(h) && ReadyList(syms, idx, h, list) && Closed(h, list) && Settles(syms, idx, h, list)
    ensures (forall i :: 0 <= i < |list| ==>
        PlainCode(syms, idx, g[list[i]].code) && CodeMergesKeep(syms, idx, g[list[i]].code)) ==>
      Equivalent(syms, g, h, entry)
  {
    MergeReady(syms, idx, g, h, list);
    MergeSettles(syms, idx, g, h, list);
    if forall i :: 0 <= i < |list| ==>
        PlainCode(syms, idx, g[list[i]].code) && CodeMergesKeep(syms, idx, g[list[i]].code) {
      MergeEquivalent(syms, idx, g, h, list, entry);
    }
  }

  /** The parts together: a round, and what it keeps if it is safe. */
  lemma {:induction false} RoundDone(
    syms: seq<Symbol>, idx: Index, g: Graph, a: Graph, e: Graph, h: Graph, list: seq<nat>, entry: nat)
    requires ValidIndex(idx, syms) && ValidGraph(g) && ReadyList(syms, idx, g, list)
    requires ValidGraph(a) && ReadyList(syms, idx, a, list) && Closed(a, list) && SameProgram(g, a)
    requires SolvedList(syms, idx, a, list, |list|) && forall i :: 0 <= i < |list| ==> a[list[i]].liveIn <= ALL_BITS
    requires IsDseGraph(syms, idx, a, e, list)
    requires ReadyList(syms, idx, e, list) && IsMergeGraph(syms, idx, e, h, list)
    requires entry in list && entry < |g|
    ensures ValidGraph(h) && ReadyList(syms, idx, h, list) && Closed(h, list) && Settles(syms, idx, h, list)
    ensures IsRound(syms, idx, g, Round(a, h), list)
    ensures RoundIsSafe(syms, idx, Round(a, h), list) ==> Equivalent(syms, g, h, entry)
    ensures TotalAssignments(h, list) + TotalDeadStores(syms, idx, a, list) <= TotalAssignments(g, list)
  {
    RoundSolved(syms, idx, g, a, list, entry);
    RoundErased(syms, idx, a, e, list, entry);
    RoundMerged(syms, idx, e, h, list, entry);
    RoundAssignments(syms, idx, a, e, h, list);
    RoundIsRound(syms, idx, g, a, e, h, list);
    if RoundIsSafe(syms, idx, Round(a, h), list) {
      forall i | 0 <= i < |list|
        ensures PlainCode(syms, idx, a[list[i]].code) && CodeMergesKeep(syms, idx, e[list[i]].code)
      {
        assert RoundKeeps(syms, idx, a[list[i]].code) && e[list[i]] == DseBlock(syms, idx, a[list[i]]);
      }
      EquivalentTransitive(syms, g, a, e, entry);
      EquivalentTransitive(syms, g, e, h, entry);
    }
  }

  lemma {:induction false} RoundIsRound(
    syms: seq<Symbol>, idx: Index, g: Graph, a: Graph, e: Graph, h: Graph, list: seq<nat>)
    requires |idx| == |syms| && SameProgram(g, a) && ValidGraph(a) && ReadyList(syms, idx, a, list)
    requires SolvedList(syms, idx, a, list, |list|)
    requires IsDseGraph(syms, idx, a, e, list) && ReadyList(syms, idx, e, list) && IsMergeGraph(syms, idx, e, h, list)
    ensures IsRound(syms, idx, g, Round(a, h), list)
  {
    forall i | 0 <= i < |list|
      ensures h[list[i]] == RoundBlock(syms, idx, a[list[i]])
    {
      assert e[list[i]] == DseBlock(syms, idx, a[list[i]]) && h[list[i]] == MergeBlock(syms, idx, e[list[i]]);
    }
  }

  /** How a run of the optimizer went: the graph after its jumps were forwarded, the
      symbols' numbers, the symbols by number, and the rounds. */
  datatype Log = Log(start: Graph, idx: Index, symbols: seq<nat>, rounds: seq<Round>)

  /** There is a first round, and its sets say exactly what may be read. */
  ghost predicate FirstIsExact(syms: seq<Symbol>, idx: Index, rounds: seq<Round>, list: seq<nat>) {
    rounds != [] && ValidGraph(rounds[0].solved) && ExactlyLive(syms, idx, rounds[0].solved, list)
  }

  /** Before the first round the sets have only what may be read. */
  ghost predicate ExactAtFirst(syms: seq<Symbol>, idx: Index, g: Graph, rounds: seq<Round>, list: seq<nat>) {
    && ValidGraph(g) && Closed(g, list)
    && if rounds == [] then AllWitnessed(syms, idx, g, list) else FirstIsExact(syms, idx, rounds, list)
  }

  lemma {:induction false} ExactStays(
    syms: seq<Symbol>, idx: Index, g: Graph, before: seq<Round>, r: Round, h: Graph, list: seq<nat>)
    requires ExactAtFirst(syms, idx, g, before, list) && ValidGraph(r.solved) && ValidGraph(h) && Closed(h, list)
    requires AllWitnessed(syms, idx, g, list) ==> ExactlyLive(syms, idx, r.solved, list)
    ensures ExactAtFirst(syms, idx, h, before + [r], list)
  {
    assert before != [] ==> (before + [r])[0] == before[0];
  }

  /** The symbols numbered are objects that the listed blocks mention.  Unless there are
      64 of them, these are all, and rounds were made. */
  ghost predicate Worked(syms: seq<Symbol>, log: Log, list: seq<nat>) {
    && Numbering(syms, log.idx, log.symbols)
    && (forall k :: 0 <= k < |log.symbols| ==> Mentioned(log.start, list, log.symbols[k]))
    && if |log.symbols| < 64
       then ValidIndex(log.idx, syms) && ReadyList(syms, log.idx, log.start, list) && FirstIsExact(syms, log.idx, log.rounds, list)
       else log.rounds == []
  }

  /** The log tells how h came of g: its rounds are those of the listed blocks, one
      after another, until one erased nothing. */
  ghost predicate IsRun(syms: seq<Symbol>, g: Graph, log: Log, h: Graph, list: seq<nat>) {
    && |log.start| == |g| && (forall b :: 0 <= b < |g| ==> log.start[b].code == g[b].code)
    && IsHistory(syms, log.idx, log.start, log.rounds, list)
    && SameButColors(Final(log.start, log.rounds), h)
    && ErasesNothing(syms, log.idx, log.rounds, list)
  }

  /** h is g with all blocks listed that can be reached, and their jumps forwarded. */
  ghost predicate Prepared(syms: seq<Symbol>, g: Graph, entry: nat, h: Graph, list: seq<nat>) {
    && ValidGraph(g) && ValidGraph(h) && |g| == |h| && entry < |g| && Equivalent(syms, g, h, entry)
    && Marked(h, list) && entry in list && Closed(h, list)
    && (forall x :: x in list <==> Reaches(g, entry, x))
    && (forall b :: 0 <= b < |h| ==> ValidBlock(h[b], syms) && h[b].code == g[b].code)
  }

  /** The rounds lead to h, and if all are safe, h shows what the start showed. */
  ghost predicate Iterated(syms: seq<Symbol>, entry: nat, log: Log, h: Graph, list: seq<nat>) {
    && ValidGraph(log.start) && ValidGraph(h) && entry < |log.start| && Untouched(log.start, h, list)
    && IsHistory(syms, log.idx, log.start, log.rounds, list) && h == Final(log.start, log.rounds)
    && ErasesNothing(syms, log.idx, log.rounds, list)
    && (AllSafe(syms, log.idx, log.start, log.rounds, list) ==> Equivalent(syms, log.start, h, entry))
  }

  /** What optimizing g into h achieves: if the analysis was right about all statements,
      and all pairs that were merged were harmless, then h shows what g showed, whatever
      the machine and the start state; and so it does if the code passes the test that
      needs no analysis. */
  ghost predicate Optimized(syms: seq<Symbol>, g: Graph, entry: nat, log: Log, h: Graph, list: seq<nat>) {
    && ValidGraph(g) && ValidGraph(h) && |g| == |h| && entry < |g|
    && IsRun(syms, g, log, h, list)
    && (AllSafe(syms, log.idx, log.start, log.rounds, list) ==> Equivalent(syms, g, h, entry))
    && (OptimizableFrom(syms, g, entry) ==> Equivalent(syms, g, h, entry))
  }

  ghost predicate ErasesNothing(syms: seq<Symbol>, idx: Index, rounds: seq<Round>, list: seq<nat>) {
    rounds == [] ||
    var r := rounds[|rounds| - 1];
    |idx| == |syms| && ReadyList(syms, idx, r.solved, list) && TotalDeadStores(syms, idx, r.solved, list) == 0
  }

  class Optimizer {
    const level: int
    const syms: seq<Symbol>
    var blocks: Graph
    var index: Index
    var blocklist: seq<nat>
    var symbols: seq<nat>

    constructor (level: int, syms: seq<Symbol>, blocks: Graph)
      ensures this.level == level && this.syms == syms && this.blocks == blocks
      ensures index == seq(|syms|, x => 0)
      ensures blocklist == [] && symbols == []
    {
      this.level, this.syms, this.blocks := level, syms, blocks;
      index := seq(|syms|, x => 0);
      blocklist, symbols := [], [];
    }

    /** List every block reachable from b that is not listed yet. */
    method SerializeBasicBlocks(b: nat)
      requires ValidGraph(blocks) && b < |blocks| && Marked(blocks, blocklist)
      modifies this`blocks, this`blocklist
      ensures SameButColors(old(blocks), blocks) && ValidGraph(blocks)
      ensures Marked(blocks, blocklist) && old(blocklist) <= blocklist && b in blocklist
      ensures NewlyListed(old(blocks), b, blocks, blocklist, |old(blocklist)|)
      decreases Unmarked(blocks)
    {
      if blocks[b].color == Black {
        return;
      }
      ghost var g, l := blocks, blocklist;
      blocks := blocks[b := blocks[b].(color := Black)];
      blocklist := blocklist + [b];
      ghost var g1, l1 := blocks, blocklist;
      Painted(g, l, b, g1, l1);
      if blocks[b].jump0.Some? {
        SerializeBasicBlocks(blocks[b].jump0.value);
        ghost var g2, l2 := blocks, blocklist;
        SameButColorsTransitive(g, g1, g2);
        ChildListed(g, b, g1, g[b].jump0.value, g2, l2, |l1|);
        if blocks[b].jump1.Some? {
          MarkedLess(g1, l1, g2, l2);
          SerializeBasicBlocks(blocks[b].jump1.value);
          SameButColorsTransitive(g, g2, blocks);
          ChildListed(g, b, g2, g[b].jump1.value, blocks, blocklist, |l2|);
          ListedStays(g, b, g2, l2, blocks, blocklist, |l1|);
        }
      }
      FirstListed(g, b, blocks, l, blocklist);
    }

    /** Forward one jump through empty blocks; the rank says why this ends. */
    method ForwardTarget(start: nat, ghost g: Graph, ghost from: nat, ghost rank: seq<nat>) returns (next: nat)
      requires Forwarding(g, blocks, blocklist, rank) && start in blocklist && start < |blocks|
      requires from < |g| && Skips(g, from, start)
      ensures next in blocklist && next < |blocks| && Skips(g, from, next) && !Forwards(blocks[next])
      ensures next == start || rank[next] < rank[start]
    {
      next := start;
      while Forwards(blocks[next])
        invariant next in blocklist && next < |blocks| && Skips(g, from, next)
        invariant next == start || rank[next] < rank[start]
        decreases rank[next]
      {
        assert ValidJumps(blocks[next], |blocks|) && ClosedAt(blocks, blocklist, next) && RankFalls(blocks, rank, next);
        ghost var before := next;
        next := blocks[next].jump0.value;
        assert ForwardedAt(g, blocks, before) && ValidJumps(g[before], |g|);
        ghost var k: nat :| Follow(g, from, k) == before;
        FollowFurther(g, from, k);
        ghost var j: nat :| Follow(g, from, j) == g[before].jump0.value;
        FollowTransitive(g, from, g[before].jump0.value, next, j);
      }
    }

    /** Forward the block's jumps past empty blocks. */
    method SkipEmptyBlocks(b: nat, ghost g: Graph, ghost rank: seq<nat>)
      requires Forwarding(g, blocks, blocklist, rank) && b in blocklist && b < |blocks|
      modifies this`blocks
      ensures Forwarding(g, blocks, blocklist, rank) && |blocks| == |old(blocks)|
      ensures forall c :: 0 <= c < |blocks| && c != b ==> blocks[c] == old(blocks)[c]
      ensures blocks[b].jump0.Some? ==> !Forwards(blocks[blocks[b].jump0.value])
      ensures blocks[b].jump1.Some? ==> !Forwards(blocks[blocks[b].jump1.value])
    {
      JumpsListed(g, blocks, blocklist, rank, b);
      if blocks[b].jump0.Some? {
        var next := ForwardTarget(blocks[b].jump0.value, g, g[b].jump0.value, rank);
        ghost var h := blocks;
        blocks := blocks[b := blocks[b].(jump0 := Some(next))];
        JumpReplaced(g, h, blocks, b, blocklist, rank);
        JumpsListed(g, blocks, blocklist, rank, b);
        if blocks[b].jump1.Some? {
          next := ForwardTarget(blocks[b].jump1.value, g, g[b].jump1.value, rank);
          h := blocks;
          blocks := blocks[b := blocks[b].(jump1 := Some(next))];
          JumpReplaced(g, h, blocks, b, blocklist, rank);
        }
      }
    }

    /** Number the symbol if it is an object without a number and there is room. */
    method CountSymbol(x: Option<nat>) returns (n: nat)
      requires Numbering(syms, index, symbols) && (x.Some? ==> x.value < |syms|)
      modifies this`index, this`symbols
      ensures Numbering(syms, index, symbols) && Extends(old(index), index)
      ensures |symbols| == |old(symbols)| + n && old(symbols) <= symbols
      ensures forall k :: |old(symbols)| <= k < |symbols| ==> x == Some(symbols[k])
      ensures |symbols| < 64 && x.Some? && IsObject(syms[x.value].ty) ==> index[x.value] != 0
    {
      n := 0;
      if x.Some? && IsObject(syms[x.value].ty) && index[x.value] == 0 {
        var len := |symbols|;
        if len < 64 {
          symbols := symbols + [x.value];
          index := index[x.value := len + 1];
          n := 1;
        }
      }
    }

    method CountExpr(e: Expr) returns (n: nat)
      requires Numbering(syms, index, symbols) && ValidExpr(e, syms)
      modifies this`index, this`symbols
      ensures Numbering(syms, index, symbols) && Extends(old(index), index)
      ensures |symbols| == |old(symbols)| + n && old(symbols) <= symbols
      ensures forall k :: |old(symbols)| <= k < |symbols| ==> MentionsExpr(e, symbols[k])
      ensures |symbols| < 64 ==> NumberedExpr(syms, index, e)
    {
      n := 0;
      if !IsUnary(e.op) {
        n := CountSymbol(e.r.symbol);
      }
      var k := CountSymbol(e.l.symbol);
      n := n + k;
    }

    /** Number every object the block mentions, and no other. */
    method EnumerateUsedSymbols(b: nat) returns (n: nat)
      requires Numbering(syms, index, symbols) && b < |blocks| && ValidBlock(blocks[b], syms)
      modifies this`index, this`symbols
      ensures Numbering(syms, index, symbols) && Extends(old(index), index)
      ensures |symbols| == |old(symbols)| + n && old(symbols) <= symbols
      ensures forall k :: |old(symbols)| <= k < |symbols| ==> MentionsBlock(blocks[b], symbols[k])
      ensures |symbols| < 64 ==> ReadyBlock(syms, index, blocks[b])
    {
      n := 0;
      var code := blocks[b].code;
      var i := 0;
      while i < |code|
        invariant 0 <= i <= |code|
        invariant Numbering(syms, index, symbols) && Extends(old(index), index)
        invariant |symbols| == |old(symbols)| + n && old(symbols) <= symbols
        invariant forall k :: |old(symbols)| <= k < |symbols| ==> MentionsBlock(blocks[b], symbols[k])
        invariant |symbols| < 64 ==> ReadyCode(syms, index, code[..i])
      {
        assert ValidStatement(code[i], syms);
        ghost var before := index;
        var k := CountExpr(code[i].expr);
        n := n + k;
        if code[i].st == Assign {
          k := CountSymbol(code[i].t.symbol);
          n := n + k;
        }
        assert forall x :: MentionsStatement(code[i], x) ==> MentionsBlock(blocks[b], x);
        if |symbols| < 64 {
          ReadyLonger(syms, before, index, code, i);
        }
        i := i + 1;
      }
      assert code[..i] == code;
      if UsesExpr(blocks[b]) {
        ghost var before := index;
        var k := CountExpr(blocks[b].expr);
        n := n + k;
        if |symbols| < 64 {
          forall j | 0 <= j < |code|
            ensures Ready(syms, index, code[j])
          {
            assert Ready(syms, before, code[j]);
          }
        }
      }
    }

    // ---------- Analysis ----------

    /** Forget all recorded sets of the listed blocks. */
    method InitializeDataflow()
      requires ValidGraph(blocks) && |index| == |syms| && ReadyList(syms, index, blocks, blocklist)
      requires Closed(blocks, blocklist)
      modifies this`blocks
      ensures SameProgram(old(blocks), blocks) && Untouched(old(blocks), blocks, blocklist)
      ensures ValidGraph(blocks) && ReadyList(syms, index, blocks, blocklist) && Closed(blocks, blocklist)
      ensures forall i :: 0 <= i < |blocklist| ==> blocks[blocklist[i]].liveIn == {}
    {
      ghost var g := blocks;
      var i := 0;
      while i < |blocklist|
        invariant 0 <= i <= |blocklist|
        invariant SameProgram(g, blocks) && Untouched(g, blocks, blocklist)
        invariant forall k :: 0 <= k < i ==> blocks[blocklist[k]].liveIn == {}
      {
        var b := blocks[blocklist[i]];
        var code := b.code;
        var j := 0;
        while j < |code|
          invariant 0 <= j <= |code| == |b.code|
          invariant forall k :: 0 <= k < |code| ==> code[k] == b.code[k].(out := code[k].out)
        {
          code := code[j := code[j].(out := {})];
          j := j + 1;
        }
        ghost var h := blocks;
        blocks := blocks[blocklist[i] := b.(code := code, liveIn := {}, liveOut := {})];
        SameProgramTransitive(g, h, blocks);
        i := i + 1;
      }
      SameProgramReady(syms, index, g, blocks, blocklist);
    }

    /** Set every recorded set of the code, last statement first, given what is
        live at its end; tell what is live before it. */
    method SolveCode(orig: seq<Statement>, end: Bits) returns (code: seq<Statement>, liveIn: Bits)
      requires |index| == |syms| && ReadyCode(syms, index, orig)
      ensures code == Annotate(syms, index, orig, end)
      ensures liveIn == Backward(syms, index, orig, end)
    {
      code, liveIn := orig, end;
      if |code| > 0 {
        var i := |code| - 1;
        SolvedLast(syms, index, orig, end);
        code := code[i := code[i].(out := end)];
        while i > 0
          invariant i >= 0 && SolvedFrom(syms, index, orig, end, i, code)
        {
          SolvedFurther(syms, index, orig, end, i, code);
          var next := code[i];
          i := i - 1;
          code := code[i := code[i].(out := Transfer(syms, index, next, next.out))];
        }
        SolvedFirst(syms, index, orig, end, code);
        liveIn := Transfer(syms, index, code[0], code[0].out);
      }
    }

    /** Transfer liveness from the block's children. */
    method LiveFromChildren(b: nat) returns (out: Bits)
      requires ValidGraph(blocks) && b < |blocks|
      ensures out == OutOf(blocks, b)
    {
      var block := blocks[b];
      assert ValidJumps(block, |blocks|);
      out := {};
      if block.jump0.Some? {
        out := blocks[block.jump0.value].liveIn;
        if block.jump1.Some? {
          out := out + blocks[block.jump1.value].liveIn;
        }
      }
    }

    /** Solve all sets of one block; tell whether its in set changed. */
    method LiveVariableAnalysis(b: nat) returns (changed: bool)
      requires ValidGraph(blocks) && b < |blocks| && |index| == |syms| && ReadyBlock(syms, index, blocks[b])
      modifies this`blocks
      ensures blocks == old(blocks)[b := Analysed(syms, index, old(blocks), b)]
      ensures changed <==> blocks[b].liveIn != old(blocks)[b].liveIn
    {
      var block := blocks[b];
      var out := LiveFromChildren(b);
      var end := out + if UsesExpr(block) then Use(syms, index, block.expr) else {};
      var code, liveIn := SolveCode(block.code, end);
      changed := block.liveIn != liveIn;
      blocks := blocks[b := block.(code := code, liveIn := liveIn, liveOut := out)];
    }

    /** Solve every listed block once, in order; tell whether any in set changed. */
    method TraverseLiveVariableAnalysis(ghost p: Parts) returns (changes: bool, ghost q: Parts)
      requires ValidGraph(blocks) && ValidIndex(index, syms)
      requires ReadyList(syms, index, blocks, blocklist) && Closed(blocks, blocklist)
      requires Split(syms, index, blocks, blocklist, p)
      modifies this`blocks
      ensures SolvingUpTo(syms, index, old(blocks), blocklist, p, blocks, q, |blocklist|, changes)
      ensures WitnessedIf(syms, index, old(blocks), blocks, blocklist)
    {
      ghost var g := blocks;
      changes := false;
      q := p;
      var i := 0;
      while i < |blocklist|
        invariant 0 <= i <= |blocklist| && SolvingUpTo(syms, index, g, blocklist, p, blocks, q, i, changes)
        invariant WitnessedIf(syms, index, g, blocks, blocklist)
      {
        ghost var h, r := blocks, q;
        q := Advanced(syms, index, h, q, blocklist[i]);
        var changed := LiveVariableAnalysis(blocklist[i]);
        SolvingFurther(syms, index, g, blocklist, p, h, r, i, changes, blocks);
        WitnessedFurther(syms, index, g, blocklist, h, blocklist[i], blocks);
        changes := changes || changed;
        i := i + 1;
      }
    }

    /** Repeat the analysis over all listed blocks until no in set changes.  From empty
        sets, or from those that a round leaves, it ends, and at a solution; from empty
        sets, at the one that has exactly what may be read on some path. */
    method ExecuteIterativeDataflow()
      requires ValidGraph(blocks) && ValidIndex(index, syms)
      requires ReadyList(syms, index, blocks, blocklist) && Closed(blocks, blocklist)
      requires Settles(syms, index, blocks, blocklist)
      modifies this`blocks
      ensures SameProgram(old(blocks), blocks) && Untouched(old(blocks), blocks, blocklist)
      ensures ValidGraph(blocks) && ReadyList(syms, index, blocks, blocklist) && Closed(blocks, blocklist)
      ensures SolvedList(syms, index, blocks, blocklist, |blocklist|)
      ensures AllWitnessed(syms, index, old(blocks), blocklist) ==> ExactlyLive(syms, index, blocks, blocklist)
      ensures forall i :: 0 <= i < |blocklist| ==> blocks[blocklist[i]].liveIn <= ALL_BITS
    {
      ghost var g := blocks;
      ghost var p := StartParts(blocks);
      StartsSplit(syms, index, blocks, blocklist);
      var changes := true;
      while changes
        invariant ValidGraph(blocks) && Iterating(syms, index, g, blocks, blocklist, p, changes)
        decreases TotalRoom(p, blocklist), if changes then 1 else 0
      {
        ghost var h, q := blocks, p;
        changes, p := TraverseLiveVariableAnalysis(p);
        IteratingOn(syms, index, g, h, blocklist, q, blocks, p, changes);
      }
      SplitInRange(syms, index, blocks, blocklist, p);
      ExactIfWitnessed(syms, index, g, blocks, blocklist);
    }

    // ---------- Transformation passes ----------

    /** Erase dead stores in place, keeping their calls; count them. */
    method EraseDeadStores(start: seq<Statement>) returns (code: seq<Statement>, c: nat)
      requires |index| == |syms| && ReadyCode(syms, index, start)
      ensures code == Dse(syms, index, start) && c == DeadStores(syms, index, start)
    {
      code, c := start, 0;
      ghost var rest := start;
      var i := 0;
      while i < |code|
        invariant 0 <= i <= |code| && ReadyCode(syms, index, rest) && code[i..] == rest
        invariant code[..i] + Dse(syms, index, rest) == Dse(syms, index, start)
        invariant c + DeadStores(syms, index, rest) == DeadStores(syms, index, start)
        decreases |rest|
      {
        var st := code[i];
        ghost var done := code[..i];
        ErasedFurther(syms, index, done, rest);
        assert Ready(syms, index, st) by {
          assert st == rest[0];
        }
        if st.st == Assign
          && st.t.kind == Direct
          && !IsLiveAfter(syms, index, st.t.symbol.value, st.out)
          && syms[st.t.symbol.value].linkage == LinkNone
        {
          c := c + 1;
          if HasSideEffects(st.expr) {
            code := code[i := st.(st := ExprStmt)];
            i := i + 1;
          } else {
            code := code[..i] + code[i + 1..];
          }
        } else {
          i := i + 1;
        }
        assert code[..i] == done + DseStatement(syms, index, st);
        rest := rest[1..];
      }
      assert code[..i] == code && rest == [];
    }

    /** Erase the block's dead stores; count them. */
    method DeadStoreElimination(b: nat) returns (c: nat)
      requires b < |blocks| && |index| == |syms| && ReadyBlock(syms, index, blocks[b])
      modifies this`blocks
      ensures blocks == old(blocks)[b := DseBlock(syms, index, old(blocks)[b])]
      ensures c == DeadStores(syms, index, old(blocks)[b].code)
    {
      var code;
      code, c := EraseDeadStores(blocks[b].code);
      blocks := blocks[b := blocks[b].(code := code)];
    }

    /** Merge neighbouring assignments in place. */
    method MergeNeighbours(start: seq<Statement>) returns (code: seq<Statement>)
      requires |index| == |syms| && ReadyCode(syms, index, start)
      ensures code == MergeCode(syms, index, start)
    {
      code := start;
      var i := 1;
      if |code| > 1 {
        var s1 := code[0];
        while i < |code|
          invariant MergedUpTo(syms, index, start, code, i, s1)
          decreases |code| - i
        {
          var s2 := code[i];
          MergedFurther(syms, index, start, code, i, s1);
          if CanMerge(syms, index, s1, s2) {
            s1 := s1.(t := s2.t);
            code := code[i - 1 := s1];
            code := code[..i] + code[i + 1..];
            s1 := code[i - 1];
          } else {
            s1 := code[i];
            i := i + 1;
          }
        }
        assert code[i..] == [] && code == code[..i - 1] + [s1];
      } else if |code| == 1 {
        assert code == [code[0]] && code[1..] == [];
      }
    }

    /** Merge the block's chained assignments. */
    method MergeChainedAssignment(b: nat)
      requires b < |blocks| && |index| == |syms| && ReadyBlock(syms, index, blocks[b])
      modifies this`blocks
      ensures blocks == old(blocks)[b := MergeBlock(syms, index, old(blocks)[b])]
    {
      var code := MergeNeighbours(blocks[b].code);
      blocks := blocks[b := blocks[b].(code := code)];
    }

    method TraverseDeadStoreElimination() returns (n: nat)
      requires |index| == |syms| && ReadyList(syms, index, blocks, blocklist) && Distinct(blocklist)
      modifies this`blocks
      ensures IsDseGraph(syms, index, old(blocks), blocks, blocklist)
      ensures n == TotalDeadStores(syms, index, old(blocks), blocklist)
    {
      ghost var g := blocks;
      n := 0;
      var i := 0;
      while i < |blocklist|
        invariant 0 <= i <= |blocklist| && ErasedUpTo(syms, index, g, blocks, blocklist, i)
        invariant n + TotalDeadStores(syms, index, g, blocklist[i..]) == TotalDeadStores(syms, index, g, blocklist)
      {
        ghost var h := blocks;
        var c := DeadStoreElimination(blocklist[i]);
        ErasedNext(syms, index, g, h, blocklist, i, blocks);
        assert blocklist[i..][1..] == blocklist[i + 1..];
        n := n + c;
        i := i + 1;
      }
    }

    method TraverseMergeChainedAssignment()
      requires |index| == |syms| && ReadyList(syms, index, blocks, blocklist) && Distinct(blocklist)
      modifies this`blocks
      ensures IsMergeGraph(syms, index, old(blocks), blocks, blocklist)
    {
      ghost var g := blocks;
      var i := 0;
      while i < |blocklist|
        invariant 0 <= i <= |blocklist| && |blocks| == |g|
        invariant forall k :: 0 <= k < i ==> blocks[blocklist[k]] == MergeBlock(syms, index, g[blocklist[k]])
        invariant forall k :: i <= k < |blocklist| ==> blocks[blocklist[k]] == g[blocklist[k]]
        invariant forall b :: 0 <= b < |g| && b !in blocklist ==> blocks[b] == g[b]
      {
        MergeChainedAssignment(blocklist[i]);
        i := i + 1;
      }
    }

    // ---------- The optimizer ----------

    /** Forward the jumps of all listed blocks. */
    method TraverseSkipEmptyBlocks(ghost rank: seq<nat>)
      requires ValidGraph(blocks) && Ranked(blocks, blocklist, rank) && Closed(blocks, blocklist)
      modifies this`blocks
      ensures ValidGraph(blocks) && Forwarded(old(blocks), blocks) && Untouched(old(blocks), blocks, blocklist)
      ensures Closed(blocks, blocklist) && WorkUpTo(blocks, blocklist, |blocklist|)
    {
      ghost var g := blocks;
      ForwardedReflexive(g);
      var i := 0;
      while i < |blocklist|
        invariant 0 <= i <= |blocklist| && Forwarding(g, blocks, blocklist, rank) && Untouched(g, blocks, blocklist)
        invariant WorkUpTo(blocks, blocklist, i)
      {
        ghost var h := blocks;
        SkipEmptyBlocks(blocklist[i], g, rank);
        WorkFurther(g, h, blocks, blocklist, i);
        i := i + 1;
      }
    }

    /** Number everything the listed blocks use; count what was numbered. */
    method TraverseEnumerateUsedSymbols() returns (n: nat)
      requires Numbering(syms, index, symbols) && symbols == []
      requires forall i :: 0 <= i < |blocklist| ==> blocklist[i] < |blocks| && ValidBlock(blocks[blocklist[i]], syms)
      modifies this`index, this`symbols
      ensures Numbering(syms, index, symbols) && n == |symbols|
      ensures forall k :: 0 <= k < |symbols| ==> Mentioned(blocks, blocklist, symbols[k])
      ensures n < 64 ==> ReadyList(syms, index, blocks, blocklist)
    {
      n := 0;
      var i := 0;
      while i < |blocklist|
        invariant 0 <= i <= |blocklist| && Numbering(syms, index, symbols) && n == |symbols|
        invariant forall k :: 0 <= k < |symbols| ==> Mentioned(blocks, blocklist, symbols[k])
        invariant n < 64 ==> forall k :: 0 <= k < i ==> ReadyBlock(syms, index, blocks[blocklist[k]])
      {
        ghost var before := index;
        var k := EnumerateUsedSymbols(blocklist[i]);
        assert forall x :: MentionsBlock(blocks[blocklist[i]], x) ==> Mentioned(blocks, blocklist, x);
        n := n + k;
        if n < 64 {
          forall k | 0 <= k < i + 1
            ensures ReadyBlock(syms, index, blocks[blocklist[k]])
          {
            if k < i {
              ExtendsReady(syms, before, index, blocks[blocklist[k]]);
            }
          }
        }
        i := i + 1;
      }
    }

    /** Take all numbers away again. */
    method ResetSymbolIndexes()
      requires Numbering(syms, index, symbols)
      modifies this`index
      ensures index == seq(|syms|, x => 0)
    {
      ghost var before := index;
      var i := 0;
      while i < |symbols|
        invariant 0 <= i <= |symbols| && |index| == |before|
        invariant forall x :: 0 <= x < |index| ==>
          index[x] == if 0 < before[x] <= i then 0 else before[x]
      {
        assert before[symbols[i]] == i + 1;
        index := index[symbols[i] := 0];
        i := i + 1;
      }
    }

    method TraverseColorWhite()
      requires forall i :: 0 <= i < |blocklist| ==> blocklist[i] < |blocks|
      modifies this`blocks
      ensures |blocks| == |old(blocks)|
      ensures forall b :: 0 <= b < |blocks| ==>
        blocks[b] == old(blocks)[b].(color := if b in blocklist then White else old(blocks)[b].color)
    {
      ghost var g := blocks;
      var i := 0;
      while i < |blocklist|
        invariant 0 <= i <= |blocklist| && |blocks| == |g|
        invariant forall b :: 0 <= b < |g| ==>
          blocks[b] == g[b].(color := if b in blocklist[..i] then White else g[b].color)
      {
        blocks := blocks[blocklist[i] := blocks[blocklist[i]].(color := White)];
        assert blocklist[..i + 1] == blocklist[..i] + [blocklist[i]];
        i := i + 1;
      }
      assert blocklist[..i] == blocklist;
    }

    /** One analysis and both transformations; n counts erased dead stores. */
    method OneRound(ghost entry: nat) returns (n: nat, ghost r: Round)
      requires ValidGraph(blocks) && ValidIndex(index, syms) && Distinct(blocklist)
      requires ReadyList(syms, index, blocks, blocklist) && Closed(blocks, blocklist)
      requires Settles(syms, index, blocks, blocklist)
      requires entry < |blocks| && entry in blocklist
      modifies this`blocks
      ensures ValidGraph(blocks) && ReadyList(syms, index, blocks, blocklist) && Closed(blocks, blocklist)
      ensures Settles(syms, index, blocks, blocklist) && |blocks| == |old(blocks)|
      ensures IsRound(syms, index, old(blocks), r, blocklist) && blocks == r.after
      ensures n == TotalDeadStores(syms, index, r.solved, blocklist)
      ensures AllWitnessed(syms, index, old(blocks), blocklist) ==> ExactlyLive(syms, index, r.solved, blocklist)
      ensures RoundIsSafe(syms, index, r, blocklist) ==> Equivalent(syms, old(blocks), blocks, entry)
      ensures TotalAssignments(blocks, blocklist) + n <= TotalAssignments(old(blocks), blocklist)
      ensures Untouched(old(blocks), blocks, blocklist)
    {
      ghost var g := blocks;
      ExecuteIterativeDataflow();
      ghost var a := blocks;
      SolvedSound(syms, index, a, blocklist);
      n := TraverseDeadStoreElimination();
      ghost var e := blocks;
      DseReady(syms, index, a, e, blocklist);
      TraverseMergeChainedAssignment();
      RoundDone(syms, index, g, a, e, blocks, blocklist, entry);
      r := Round(a, blocks);
    }

    /** List the reachable blocks and forward their jumps. */
    method Prepare(entry: nat)
      requires ValidProgram(blocks, syms) && entry < |blocks|
      requires NoEmptyCycleFrom(blocks, entry)
      requires forall b :: 0 <= b < |blocks| ==> blocks[b].color == White
      modifies this`blocks, this`blocklist
      ensures Prepared(syms, old(blocks), entry, blocks, blocklist) && WorkUpTo(blocks, blocklist, |blocklist|)
    {
      ghost var g := blocks;
      blocklist := [];
      SerializeBasicBlocks(entry);
      ghost var g1 := blocks;
      ColorsSameProgram(g, g1);
      SetsInvisible(syms, g, g1, entry);
      ListClosed(g, entry, g1, blocklist);
      ColorsClosed(g, g1, blocklist);
      ghost var rank := RankExists(g, blocklist);
      ColorsRanked(g, g1, blocklist, rank);
      TraverseSkipEmptyBlocks(rank);
      ForwardedEquivalent(syms, g1, blocks, entry);
      EquivalentTransitive(syms, g, g1, blocks, entry);
      ForwardedKeepsCode(syms, g, g1, blocks);
      ForwardedMarked(g1, blocks, blocklist);
    }

    /** Repeat rounds from empty sets until one erases nothing. */
    method Iterate(entry: nat) returns (ghost rounds: seq<Round>)
      requires ValidGraph(blocks) && ValidIndex(index, syms) && Distinct(blocklist)
      requires ReadyList(syms, index, blocks, blocklist) && Closed(blocks, blocklist)
      requires entry < |blocks| && entry in blocklist
      modifies this`blocks
      ensures ValidGraph(blocks) && |blocks| == |old(blocks)| && Untouched(old(blocks), blocks, blocklist)
      ensures IsHistory(syms, index, old(blocks), rounds, blocklist) && rounds != []
      ensures blocks == Final(old(blocks), rounds) && ErasesNothing(syms, index, rounds, blocklist)
      ensures FirstIsExact(syms, index, rounds, blocklist)
      ensures AllSafe(syms, index, old(blocks), rounds, blocklist) ==> Equivalent(syms, old(blocks), blocks, entry)
    {
      ghost var g := blocks;
      InitializeDataflow();
      SetsInvisible(syms, g, blocks, entry);
      ZeroSettles(syms, index, blocks, blocklist);
      EmptyWitnessed(syms, index, blocks, blocklist);
      rounds := [];
      var n := 1;
      while n != 0
        invariant ValidGraph(blocks) && |blocks| == |g| && Untouched(g, blocks, blocklist)
        invariant ReadyList(syms, index, blocks, blocklist) && Closed(blocks, blocklist)
        invariant Settles(syms, index, blocks, blocklist)
        invariant IsHistory(syms, index, g, rounds, blocklist) && SameProgram(Final(g, rounds), blocks)
        invariant rounds != [] ==> blocks == Final(g, rounds)
        invariant n == 0 ==> rounds != [] && ErasesNothing(syms, index, rounds, blocklist)
        invariant ExactAtFirst(syms, index, blocks, rounds, blocklist)
        invariant AllSafe(syms, index, g, rounds, blocklist) ==> Equivalent(syms, g, blocks, entry)
        decreases TotalAssignments(blocks, blocklist), n
      {
        ghost var h, before := blocks, rounds;
        ghost var r;
        n, r := OneRound(entry);
        RoundFrom(syms, index, Final(g, before), h, r, blocklist);
        HistoryGrows(syms, index, g, before, r, blocklist);
        ExactStays(syms, index, h, before, r, blocks, blocklist);
        rounds := before + [r];
        if AllSafe(syms, index, g, rounds, blocklist) {
          EquivalentTransitive(syms, g, h, blocks, entry);
        }
        SameProgramSelf(blocks);
      }
    }

    /** Number the symbols of the listed blocks, and if there are few enough, optimize. */
    method OptimizeListed(ghost g: Graph, entry: nat) returns (ghost log: Log)
      requires Prepared(syms, g, entry, blocks, blocklist) && Numbering(syms, index, symbols) && symbols == []
      modifies this`blocks, this`index, this`symbols
      ensures Numbering(syms, index, symbols)
      ensures log.start == old(blocks) && Iterated(syms, entry, log, blocks, blocklist)
      ensures Worked(syms, log, blocklist)
    {
      var n := TraverseEnumerateUsedSymbols();
      if n < 64 {
        NumberingValid(syms, index, symbols);
        ghost var h := blocks;
        ghost var rounds := Iterate(entry);
        log := Log(h, index, symbols, rounds);
      } else {
        SetsInvisible(syms, blocks, blocks, entry);
        log := Log(blocks, index, symbols, []);
      }
    }

    /** Optimize the function whose body starts at entry.  The log tells what was done,
        and when that keeps the function's meaning. */
    method Optimize(entry: nat) returns (ghost log: Log)
      requires ValidProgram(blocks, syms) && entry < |blocks|
      requires level != 0 ==> NoEmptyCycleFrom(blocks, entry)
      requires index == seq(|syms|, x => 0)
      requires forall b :: 0 <= b < |blocks| ==> blocks[b].color == White
      modifies this
      ensures Optimized(syms, old(blocks), entry, log, blocks, blocklist)
      ensures level != 0 ==> Worked(syms, log, blocklist)
      ensures level != 0 ==> forall x :: x in blocklist <==> Reaches(old(blocks), entry, x)
      ensures index == seq(|syms|, x => 0)
      ensures forall b :: 0 <= b < |blocks| ==> blocks[b].color == White
    {
      ghost var g := blocks;
      if level == 0 {
        log := Log(blocks, index, [], []);
        SetsInvisible(syms, g, blocks, entry);
        return;
      }
      symbols := [];
      Prepare(entry);
      log := OptimizeListed(g, entry);
      ghost var h := blocks;
      ResetSymbolIndexes();
      TraverseColorWhite();
      RunDone(syms, g, log, h, blocks, blocklist, entry);
    }
  }

  lemma {:induction false} SameProgramSelf(g: Graph)
    ensures SameProgram(g, g)
  {
  }

  /** A round from h is one from any graph with the same program. */
  lemma {:induction false} RoundFrom(syms: seq<Symbol>, idx: Index, g: Graph, h: Graph, r: Round, list: seq<nat>)
    requires SameProgram(g, h) && IsRound(syms, idx, h, r, list)
    ensures IsRound(syms, idx, g, r, list)
  {
    SameProgramTransitive(g, h, r.solved);
  }

  lemma {:induction false} ColorsClosed(g: Graph, h: Graph, list: seq<nat>)
    requires ValidGraph(g) && ValidGraph(h) && SameButColors(g, h) && Closed(h, list)
    ensures Closed(g, list)
  {
    forall i | 0 <= i < |list|
      ensures list[i] < |g| && ClosedAt(g, list, list[i])
    {
      assert ClosedAt(h, list, list[i]);
    }
  }

  /** A run on code that passes the test is safe. */
  lemma {:induction false} TestedIsSafe(syms: seq<Symbol>, g: Graph, entry: nat, log: Log, list: seq<nat>)
    requires Prepared(syms, g, entry, log.start, list) && IsHistory(syms, log.idx, log.start, log.rounds, list)
    requires OptimizableFrom(syms, g, entry)
    ensures AllSafe(syms, log.idx, log.start, log.rounds, list)
  {
    forall i | 0 <= i < |list|
      ensures list[i] < |log.start| && Optimizable(syms, log.start[list[i]].code)
    {
      assert Reaches(g, entry, list[i]);
    }
    OptimizableHistory(syms, log.idx, log.start, log.rounds, list);
  }

  /** What is kept of the rounds' meaning when the colors are reset. */
  lemma {:induction false} RunKeeps(syms: seq<Symbol>, g: Graph, log: Log, h: Graph, k: Graph, list: seq<nat>, entry: nat)
    requires Prepared(syms, g, entry, log.start, list) && Iterated(syms, entry, log, h, list)
    requires ValidGraph(k) && |k| == |h| && Equivalent(syms, h, k, entry)
    ensures AllSafe(syms, log.idx, log.start, log.rounds, list) ==> Equivalent(syms, g, k, entry)
    ensures OptimizableFrom(syms, g, entry) ==> Equivalent(syms, g, k, entry)
  {
    if OptimizableFrom(syms, g, entry) {
      TestedIsSafe(syms, g, entry, log, list);
    }
    if AllSafe(syms, log.idx, log.start, log.rounds, list) {
      EquivalentTransitive(syms, g, log.start, h, entry);
      EquivalentTransitive(syms, g, h, k, entry);
    }
  }

  lemma {:induction false} RunDone(
    syms: seq<Symbol>, g: Graph, log: Log, h: Graph, k: Graph, list: seq<nat>, entry: nat)
    requires Prepared(syms, g, entry, log.start, list) && Iterated(syms, entry, log, h, list)
    requires |k| == |h| && forall b :: 0 <= b < |h| ==>
      k[b] == h[b].(color := if b in list then White else h[b].color)
    ensures forall b :: 0 <= b < |k| ==> k[b].color == White
    ensures Optimized(syms, g, entry, log, k, list)
  {
    ColorsSameProgram(h, k);
    ColorsKeepValid(h, k);
    SetsInvisible(syms, h, k, entry);
    RunKeeps(syms, g, log, h, k, list, entry);
  }

  /** Replacing a jump by one further along keeps graph, forwarding and ranking in order. */
  lemma {:induction false} JumpReplaced(
    g: Graph, h: Graph, k: Graph, b: nat, list: seq<nat>, rank: seq<nat>)
    requires Forwarding(g, h, list, rank)
    requires |k| == |h| && b < |h| && ValidJumps(k[b], |h|) && ForwardedAt(g, k, b)
    requires k == h[b := k[b]] && ClosedAt(k, list, b)
    requires h[b].jump0.Some? && k[b].jump0.Some? && k[b].jump1.Some? == h[b].jump1.Some?
    requires k[b].code == h[b].code
    requires k[b].jump0 == h[b].jump0 || rank[k[b].jump0.value] < rank[h[b].jump0.value]
    ensures Forwarding(g, k, list, rank)
    ensures forall c :: 0 <= c < |k| ==> Forwards(k[c]) == Forwards(h[c])
  {
    forall c | 0 <= c < |k|
      ensures ValidJumps(k[c], |k|) && ForwardedAt(g, k, c)
    {
      assert ValidJumps(h[c], |h|) && ForwardedAt(g, h, c);
    }
    forall i | 0 <= i < |list|
      ensures list[i] < |k| && ClosedAt(k, list, list[i])
    {
      assert ClosedAt(h, list, list[i]);
    }
    forall c | c in list && c < |k| && Forwards(k[c])
      ensures RankFalls(k, rank, c)
    {
      assert RankFalls(h, rank, c);
    }
  }
}
