/**
  Why iterating the liveness equations block by block ends.  Started anywhere it
  need not; but wherever a round of the optimizer leaves the in sets, each is made
  up of one part that from then on only shrinks and one that only grows.
*/
module Dataflow {
  import opened Ir
  import opened Liveness
  import opened FlowGraph

  /** Blocks the analysis visits: their code is valid and numbered. */
  predicate ReadyList(syms: seq<Symbol>, idx: Index, g: Graph, list: seq<nat>)
    requires |idx| == |syms|
  {
    forall i :: 0 <= i < |list| ==> list[i] < |g| && ReadyBlock(syms, idx, g[list[i]])
  }

  /** What is live before the block, if the given symbols are live after it. */
  function InFrom(syms: seq<Symbol>, idx: Index, b: Block, out: Bits): Bits
    requires |idx| == |syms| && ReadyBlock(syms, idx, b)
  {
    Backward(syms, idx, b.code, EndOf(syms, idx, b, out))
  }

  function BlockIn(syms: seq<Symbol>, idx: Index, g: Graph, b: nat): Bits
    requires ValidGraph(g) && b < |g| && |idx| == |syms| && ReadyBlock(syms, idx, g[b])
  {
    InFrom(syms, idx, g[b], OutOf(g, b))
  }

  /** The right side of the block's equation has no more than its in set, and what
      the block reads itself. */
  predicate SettlesAt(syms: seq<Symbol>, idx: Index, g: Graph, b: nat)
    requires ValidGraph(g) && b < |g| && |idx| == |syms| && ReadyBlock(syms, idx, g[b])
  {
    g[b].liveIn <= ALL_BITS && BlockIn(syms, idx, g, b) <= g[b].liveIn + InFrom(syms, idx, g[b], {})
  }

  predicate Settles(syms: seq<Symbol>, idx: Index, g: Graph, list: seq<nat>)
    requires ValidGraph(g) && |idx| == |syms| && ReadyList(syms, idx, g, list)
  {
    forall i :: 0 <= i < |list| ==> SettlesAt(syms, idx, g, list[i])
  }

  // ---------- The shrinking and the growing part ----------

  /** Two parts of all in sets, by block. */
  datatype Parts = Parts(high: seq<Bits>, low: seq<Bits>)

  /** Union of the successors' sets. */
  function Join(live: seq<Bits>, g: Graph, b: nat): Bits
    requires ValidGraph(g) && b < |g| == |live|
  {
    assert ValidJumps(g[b], |g|);
    if g[b].jump0.None? then {}
    else live[g[b].jump0.value] + if g[b].jump1.None? then {} else live[g[b].jump1.value]
  }

  /** The in set's parts: the low one is below its own equation, the high one above
      its own, from which the block's reads are left out. */
  predicate SplitAt(syms: seq<Symbol>, idx: Index, g: Graph, p: Parts, b: nat)
    requires ValidGraph(g) && b < |g| == |p.high| == |p.low| && |idx| == |syms| && ReadyBlock(syms, idx, g[b])
  {
    && g[b].liveIn == p.high[b] + p.low[b] && g[b].liveIn <= ALL_BITS
    && p.low[b] <= InFrom(syms, idx, g[b], Join(p.low, g, b))
    && InFrom(syms, idx, g[b], Join(p.high, g, b)) - InFrom(syms, idx, g[b], {}) <= p.high[b]
  }

  predicate Split(syms: seq<Symbol>, idx: Index, g: Graph, list: seq<nat>, p: Parts)
    requires ValidGraph(g) && |idx| == |syms| && ReadyList(syms, idx, g, list)
  {
    |p.high| == |p.low| == |g| && forall i :: 0 <= i < |list| ==> SplitAt(syms, idx, g, p, list[i])
  }

  /** What solving one block does to the parts. */
  function Advanced(syms: seq<Symbol>, idx: Index, g: Graph, p: Parts, b: nat): Parts
    requires ValidGraph(g) && b < |g| == |p.high| == |p.low| && |idx| == |syms| && ReadyBlock(syms, idx, g[b])
  {
    Parts(p.high[b := InFrom(syms, idx, g[b], Join(p.high, g, b)) - InFrom(syms, idx, g[b], {})],
          p.low[b := InFrom(syms, idx, g[b], Join(p.low, g, b))])
  }

  /** At first all is high. */
  function StartParts(g: Graph): (p: Parts)
    ensures |p.high| == |p.low| == |g|
  {
    Parts(seq(|g|, b requires 0 <= b < |g| => g[b].liveIn), seq(|g|, b => {}))
  }

  /** How far the parts of one block's in set can still move. */
  function Room(p: Parts, b: nat): nat
    requires b < |p.high| == |p.low|
  {
    |p.high[b]| + |ALL_BITS - p.low[b]|
  }

  function TotalRoom(p: Parts, list: seq<nat>): nat
    requires |p.high| == |p.low| && forall i :: 0 <= i < |list| ==> list[i] < |p.high|
  {
    if list == [] then 0 else Room(p, list[0]) + TotalRoom(p, list[1..])
  }

  lemma {:induction false} UseInRange(syms: seq<Symbol>, idx: Index, v: Var)
    requires ValidIndex(idx, syms) && ValidVar(v, syms)
    ensures SetUseBit(syms, idx, v) <= ALL_BITS
  {
  }

  lemma {:induction false} TransferInRange(syms: seq<Symbol>, idx: Index, s: Statement, out: Bits)
    requires ValidIndex(idx, syms) && ValidStatement(s, syms) && out <= ALL_BITS
    ensures Transfer(syms, idx, s, out) <= ALL_BITS
  {
    UseInRange(syms, idx, s.expr.l);
    if !IsUnary(s.expr.op) {
      UseInRange(syms, idx, s.expr.r);
    }
  }

  lemma {:induction false} BackwardInRange(syms: seq<Symbol>, idx: Index, c: seq<Statement>, end: Bits)
    requires ValidIndex(idx, syms) && ReadyCode(syms, idx, c) && end <= ALL_BITS
    ensures Backward(syms, idx, c, end) <= ALL_BITS
  {
    if c != [] {
      BackwardInRange(syms, idx, c[1..], end);
      TransferInRange(syms, idx, c[0], Backward(syms, idx, c[1..], end));
    }
  }

  lemma {:induction false} InFromInRange(syms: seq<Symbol>, idx: Index, b: Block, out: Bits)
    requires ValidIndex(idx, syms) && ReadyBlock(syms, idx, b) && out <= ALL_BITS
    ensures InFrom(syms, idx, b, out) <= ALL_BITS
  {
    if UsesExpr(b) {
      UseInRange(syms, idx, b.expr.l);
      if !IsUnary(b.expr.op) {
        UseInRange(syms, idx, b.expr.r);
      }
    }
    BackwardInRange(syms, idx, b.code, EndOf(syms, idx, b, out));
  }

  lemma {:induction false} BackwardJoins(syms: seq<Symbol>, idx: Index, c: seq<Statement>, x: Bits, y: Bits)
    requires |idx| == |syms| && ReadyCode(syms, idx, c)
    ensures Backward(syms, idx, c, x + y) == Backward(syms, idx, c, x) + Backward(syms, idx, c, y)
  {
    if c != [] {
      BackwardJoins(syms, idx, c[1..], x, y);
    }
  }

  /** What is live before a block is gathered from its successors one by one. */
  lemma {:induction false} InFromJoins(syms: seq<Symbol>, idx: Index, b: Block, x: Bits, y: Bits)
    requires |idx| == |syms| && ReadyBlock(syms, idx, b)
    ensures InFrom(syms, idx, b, x + y) == InFrom(syms, idx, b, x) + InFrom(syms, idx, b, y)
  {
    BackwardJoins(syms, idx, b.code, EndOf(syms, idx, b, x), EndOf(syms, idx, b, y));
    assert EndOf(syms, idx, b, x + y) == EndOf(syms, idx, b, x) + EndOf(syms, idx, b, y);
  }

  lemma {:induction false} InFromMonotone(syms: seq<Symbol>, idx: Index, b: Block, x: Bits, y: Bits)
    requires |idx| == |syms| && ReadyBlock(syms, idx, b) && x <= y
    ensures InFrom(syms, idx, b, x) <= InFrom(syms, idx, b, y)
  {
    BackwardMonotone(syms, idx, b.code, EndOf(syms, idx, b, x), EndOf(syms, idx, b, y));
  }

  /** Same code and exit; only recorded sets and the color may differ. */
  predicate SameButSets(b: Block, c: Block) {
    && SameExit(b, c) && |b.code| == |c.code|
    && forall i :: 0 <= i < |b.code| ==> c.code[i] == b.code[i].(out := c.code[i].out)
  }

  predicate SameProgram(g: Graph, h: Graph) {
    |g| == |h| && forall b :: 0 <= b < |g| ==> SameButSets(g[b], h[b])
  }

  lemma {:induction false} SameProgramReady(syms: seq<Symbol>, idx: Index, g: Graph, h: Graph, list: seq<nat>)
    requires ValidGraph(g) && |idx| == |syms| && ReadyList(syms, idx, g, list) && Closed(g, list)
    requires SameProgram(g, h)
    ensures ValidGraph(h) && ReadyList(syms, idx, h, list) && Closed(h, list)
  {
    forall b | 0 <= b < |h|
      ensures ValidJumps(h[b], |h|)
    {
      assert ValidJumps(g[b], |g|) && SameButSets(g[b], h[b]);
    }
    forall i | 0 <= i < |list|
      ensures list[i] < |h| && ReadyBlock(syms, idx, h[list[i]]) && ClosedAt(h, list, list[i])
    {
      var b := list[i];
      assert SameButSets(g[b], h[b]) && ClosedAt(g, list, b);
      forall j | 0 <= j < |h[b].code|
        ensures Ready(syms, idx, h[b].code[j])
      {
        assert h[b].code[j] == g[b].code[j].(out := h[b].code[j].out);
      }
    }
  }

  lemma {:induction false} InFromCodeOnly(syms: seq<Symbol>, idx: Index, b: Block, c: Block, out: Bits)
    requires |idx| == |syms| && ReadyBlock(syms, idx, b) && ReadyBlock(syms, idx, c) && SameButSets(b, c)
    ensures InFrom(syms, idx, b, out) == InFrom(syms, idx, c, out)
  {
    BackwardCodeOnly(syms, idx, b.code, c.code, EndOf(syms, idx, b, out));
  }

  lemma {:induction false} JoinMonotone(live: seq<Bits>, more: seq<Bits>, g: Graph, list: seq<nat>, b: nat)
    requires ValidGraph(g) && Closed(g, list) && b in list && |live| == |more| == |g|
    requires forall x :: x in list ==> live[x] <= more[x]
    ensures Join(live, g, b) <= Join(more, g, b)
  {
    assert ClosedAt(g, list, b) && ValidJumps(g[b], |g|);
  }

  /** The successors' in sets are their parts'. */
  lemma {:induction false} JoinParts(syms: seq<Symbol>, idx: Index, g: Graph, list: seq<nat>, p: Parts, b: nat)
    requires ValidGraph(g) && |idx| == |syms| && ReadyList(syms, idx, g, list) && Closed(g, list)
    requires Split(syms, idx, g, list, p) && b in list
    ensures OutOf(g, b) == Join(p.high, g, b) + Join(p.low, g, b) && OutOf(g, b) <= ALL_BITS
  {
    assert ClosedAt(g, list, b) && ValidJumps(g[b], |g|);
    assert forall x :: x in list ==> SplitAt(syms, idx, g, p, x);
  }

  lemma {:induction false} TotalRoomStep(p: Parts, q: Parts, list: seq<nat>, b: nat)
    requires |p.high| == |p.low| == |q.high| == |q.low| && forall i :: 0 <= i < |list| ==> list[i] < |p.high|
    requires b < |p.high| && forall x :: 0 <= x < |p.high| && x != b ==> p.high[x] == q.high[x] && p.low[x] == q.low[x]
    requires Room(q, b) <= Room(p, b)
    ensures TotalRoom(q, list) <= TotalRoom(p, list)
    ensures b in list && Room(q, b) < Room(p, b) ==> TotalRoom(q, list) < TotalRoom(p, list)
  {
    if list != [] {
      TotalRoomStep(p, q, list[1..], b);
    }
  }

  lemma {:induction false} SubsetCards<T>(a: set<T>, b: set<T>)
    requires a <= b
    ensures |a| <= |b| && (a != b ==> |a| < |b|)
  {
    assert b == a + (b - a);
    assert |b| == |a| + |b - a|;
  }

  /** Moving one block's parts closer together takes room. */
  lemma {:induction false} RoomTaken(p: Parts, q: Parts, b: nat)
    requires b < |p.high| == |p.low| == |q.high| == |q.low|
    requires q.high[b] <= p.high[b] && p.low[b] <= q.low[b] <= ALL_BITS
    ensures Room(q, b) <= Room(p, b)
    ensures q.high[b] + q.low[b] != p.high[b] + p.low[b] ==> Room(q, b) < Room(p, b)
  {
    SubsetCards(q.high[b], p.high[b]);
    SubsetCards(ALL_BITS - q.low[b], ALL_BITS - p.low[b]);
    if q.low[b] != p.low[b] {
      var x :| x in q.low[b] && x !in p.low[b];
      assert x in ALL_BITS - p.low[b] && x !in ALL_BITS - q.low[b];
    }
  }

  /** Solving one block, its new in set is made up of its advanced parts. */
  lemma {:induction false} SolvedParts(syms: seq<Symbol>, idx: Index, g: Graph, list: seq<nat>, b: nat, p: Parts)
    requires ValidIndex(idx, syms) && ValidGraph(g) && ReadyList(syms, idx, g, list) && Closed(g, list)
    requires Split(syms, idx, g, list, p) && b in list
    ensures var q := Advanced(syms, idx, g, p, b);
      && BlockIn(syms, idx, g, b) == q.high[b] + q.low[b] && BlockIn(syms, idx, g, b) <= ALL_BITS
      && q.high[b] <= p.high[b] && p.low[b] <= q.low[b]
  {
    assert SplitAt(syms, idx, g, p, b);
    var x, y := Join(p.high, g, b), Join(p.low, g, b);
    JoinParts(syms, idx, g, list, p, b);
    InFromJoins(syms, idx, g[b], x, y);
    InFromMonotone(syms, idx, g[b], {}, y);
    InFromInRange(syms, idx, g[b], OutOf(g, b));
  }

  /** Every other block's parts stay on their sides when one block's parts advance. */
  lemma {:induction false} StillSplit(syms: seq<Symbol>, idx: Index, g: Graph, list: seq<nat>, b: nat, p: Parts, h: Graph, c: nat)
    requires ValidIndex(idx, syms) && ValidGraph(g) && ReadyList(syms, idx, g, list) && Closed(g, list)
    requires Split(syms, idx, g, list, p) && b in list && c in list
    requires h == g[b := Analysed(syms, idx, g, b)]
    ensures ValidGraph(h) && ReadyList(syms, idx, h, list) && SplitAt(syms, idx, h, Advanced(syms, idx, g, p, b), c)
  {
    SameProgramReady(syms, idx, g, h, list);
    SolvedParts(syms, idx, g, list, b, p);
    var q := Advanced(syms, idx, g, p, b);
    assert SplitAt(syms, idx, g, p, c) && SameButSets(g[c], h[c]);
    assert Join(q.high, h, c) == Join(q.high, g, c) && Join(q.low, h, c) == Join(q.low, g, c) by {
      assert ValidJumps(g[c], |g|);
    }
    JoinMonotone(q.high, p.high, g, list, c);
    JoinMonotone(p.low, q.low, g, list, c);
    InFromMonotone(syms, idx, g[c], Join(q.high, g, c), Join(p.high, g, c));
    InFromMonotone(syms, idx, g[c], Join(p.low, g, c), Join(q.low, g, c));
    InFromCodeOnly(syms, idx, g[c], h[c], Join(q.high, h, c));
    InFromCodeOnly(syms, idx, g[c], h[c], Join(q.low, h, c));
    InFromCodeOnly(syms, idx, g[c], h[c], {});
  }

  /** Solving one block keeps the split, and uses up room if it changes the in set. */
  lemma {:induction false} SolvingMoves(
    syms: seq<Symbol>, idx: Index, g: Graph, list: seq<nat>, b: nat, p: Parts, h: Graph)
    requires ValidIndex(idx, syms) && ValidGraph(g) && ReadyList(syms, idx, g, list) && Closed(g, list)
    requires Split(syms, idx, g, list, p) && b in list
    requires h == g[b := Analysed(syms, idx, g, b)]
    ensures SameProgram(g, h) && ValidGraph(h) && ReadyList(syms, idx, h, list) && Closed(h, list)
    ensures var q := Advanced(syms, idx, g, p, b);
      && Split(syms, idx, h, list, q) && TotalRoom(q, list) <= TotalRoom(p, list)
      && (h[b].liveIn != g[b].liveIn ==> TotalRoom(q, list) < TotalRoom(p, list))
  {
    SameProgramReady(syms, idx, g, h, list);
    var q := Advanced(syms, idx, g, p, b);
    forall i | 0 <= i < |list|
      ensures SplitAt(syms, idx, h, q, list[i])
    {
      StillSplit(syms, idx, g, list, b, p, h, list[i]);
    }
    SolvedParts(syms, idx, g, list, b, p);
    assert SplitAt(syms, idx, g, p, b);
    RoomTaken(p, q, b);
    TotalRoomStep(p, q, list, b);
  }

  /** Sets that settle split: all of them is high at first. */
  lemma {:induction false} StartsSplit(syms: seq<Symbol>, idx: Index, g: Graph, list: seq<nat>)
    requires ValidIndex(idx, syms) && ValidGraph(g) && ReadyList(syms, idx, g, list) && Closed(g, list)
    requires Settles(syms, idx, g, list)
    ensures Split(syms, idx, g, list, StartParts(g))
  {
    var p := StartParts(g);
    forall i | 0 <= i < |list|
      ensures SplitAt(syms, idx, g, p, list[i])
    {
      var b := list[i];
      assert SettlesAt(syms, idx, g, b) && ValidJumps(g[b], |g|);
      assert Join(p.high, g, b) == OutOf(g, b);
      assert p.low[b] == {};
    }
  }

  lemma {:induction false} SameProgramTransitive(f: Graph, g: Graph, h: Graph)
    requires SameProgram(f, g) && SameProgram(g, h)
    ensures SameProgram(f, h)
  {
    forall b | 0 <= b < |f|
      ensures SameButSets(f[b], h[b])
    {
      assert SameButSets(f[b], g[b]) && SameButSets(g[b], h[b]);
      forall i | 0 <= i < |f[b].code|
        ensures h[b].code[i] == f[b].code[i].(out := h[b].code[i].out)
      {
        assert g[b].code[i] == f[b].code[i].(out := g[b].code[i].out);
      }
    }
  }

  /** A solved block stays solved while no in set changes. */
  lemma {:induction false} StillSolved(syms: seq<Symbol>, idx: Index, g: Graph, list: seq<nat>, b: nat, c: nat, h: Graph)
    requires ValidGraph(g) && |idx| == |syms| && ReadyList(syms, idx, g, list) && Closed(g, list)
    requires b in list && c in list
    requires h == g[b := Analysed(syms, idx, g, b)] && h[b].liveIn == g[b].liveIn
    requires c == b || Solved(syms, idx, g, c)
    ensures ValidGraph(h) && ReadyBlock(syms, idx, h[c]) && Solved(syms, idx, h, c)
  {
    SameProgramReady(syms, idx, g, h, list);
    assert ClosedAt(g, list, c) && ValidJumps(g[c], |g|) && ValidJumps(g[b], |g|);
    assert OutOf(h, c) == OutOf(g, c);
    if c == b {
      var end := EndOf(syms, idx, g[b], OutOf(g, b));
      AnnotateTwice(syms, idx, g[b].code, end);
      AnnotateIsExact(syms, idx, g[b].code, end);
      BackwardCodeOnly(syms, idx, g[b].code, h[b].code, end);
    }
  }

  lemma {:induction false} AnnotateTwice(syms: seq<Symbol>, idx: Index, c: seq<Statement>, end: Bits)
    requires |idx| == |syms| && ReadyCode(syms, idx, c)
    ensures Annotate(syms, idx, Annotate(syms, idx, c, end), end) == Annotate(syms, idx, c, end)
  {
    if c != [] {
      var d := Annotate(syms, idx, c, end);
      AnnotateTwice(syms, idx, c[1..], end);
      assert d[1..] == Annotate(syms, idx, c[1..], end);
      BackwardCodeOnly(syms, idx, c[1..], d[1..], end);
    }
  }
}
