/**
  One round of the optimizer over a whole graph: what it does to every listed
  block, and why the graph behaves as before.
*/
module Passes {
  import opened Ir
  import opened IrSemantics
  import opened Liveness
  import opened Transform
  import opened FlowGraph
  import opened Dataflow

  predicate Distinct(list: seq<nat>) {
    forall i, j :: 0 <= i < j < |list| ==> list[i] != list[j]
  }

  function DseBlock(syms: seq<Symbol>, idx: Index, b: Block): Block
    requires |idx| == |syms| && ReadyCode(syms, idx, b.code)
  {
    b.(code := Dse(syms, idx, b.code))
  }

  function MergeBlock(syms: seq<Symbol>, idx: Index, b: Block): Block
    requires |idx| == |syms| && ReadyCode(syms, idx, b.code)
  {
    b.(code := MergeCode(syms, idx, b.code))
  }

  predicate IsDseGraph(syms: seq<Symbol>, idx: Index, g: Graph, h: Graph, list: seq<nat>)
    requires |idx| == |syms| && ReadyList(syms, idx, g, list)
  {
    && |h| == |g|
    && (forall i :: 0 <= i < |list| ==> h[list[i]] == DseBlock(syms, idx, g[list[i]]))
    && (forall b :: 0 <= b < |g| && b !in list ==> h[b] == g[b])
  }

  predicate IsMergeGraph(syms: seq<Symbol>, idx: Index, g: Graph, h: Graph, list: seq<nat>)
    requires |idx| == |syms| && ReadyList(syms, idx, g, list)
  {
    && |h| == |g|
    && (forall i :: 0 <= i < |list| ==> h[list[i]] == MergeBlock(syms, idx, g[list[i]]))
    && (forall b :: 0 <= b < |g| && b !in list ==> h[b] == g[b])
  }

  /** Blocks outside the list are the same; inside it, exits, sets and colors are. */
  predicate OnlyCodeChanged(g: Graph, h: Graph, list: seq<nat>) {
    && |h| == |g|
    && (forall b :: 0 <= b < |g| ==> h[b] == g[b].(code := h[b].code))
    && (forall b :: 0 <= b < |g| && b !in list ==> h[b] == g[b])
  }

  lemma {:induction false} CodeChangedClosed(g: Graph, h: Graph, list: seq<nat>)
    requires ValidGraph(g) && Closed(g, list) && OnlyCodeChanged(g, h, list)
    ensures ValidGraph(h) && Closed(h, list)
  {
    forall b | 0 <= b < |h|
      ensures ValidJumps(h[b], |h|)
    {
      assert ValidJumps(g[b], |g|);
    }
    forall i | 0 <= i < |list|
      ensures list[i] < |h| && ClosedAt(h, list, list[i])
    {
      assert ClosedAt(g, list, list[i]);
    }
  }

  ghost predicate SoundList(syms: seq<Symbol>, idx: Index, g: Graph, list: seq<nat>)
    requires |idx| == |syms| && ValidGraph(g) && ReadyList(syms, idx, g, list)
  {
    forall i :: 0 <= i < |list| ==> Sound(syms, idx, g, list[i])
  }

  lemma {:induction false} DseReady(syms: seq<Symbol>, idx: Index, g: Graph, h: Graph, list: seq<nat>)
    requires ValidIndex(idx, syms) && ValidGraph(g) && ReadyList(syms, idx, g, list) && Closed(g, list)
    requires SoundList(syms, idx, g, list) && IsDseGraph(syms, idx, g, h, list)
    ensures OnlyCodeChanged(g, h, list)
    ensures ValidGraph(h) && ReadyList(syms, idx, h, list) && Closed(h, list) && SoundList(syms, idx, h, list)
  {
    forall b | 0 <= b < |g|
      ensures h[b] == g[b].(code := h[b].code)
    {
      if b in list {
        var i :| 0 <= i < |list| && list[i] == b;
        assert h[list[i]] == DseBlock(syms, idx, g[list[i]]);
      }
    }
    CodeChangedClosed(g, h, list);
    forall i | 0 <= i < |list|
      ensures ReadyBlock(syms, idx, h[list[i]]) && Sound(syms, idx, h, list[i])
    {
      var b := list[i];
      assert Sound(syms, idx, g, b) && h[b] == DseBlock(syms, idx, g[b]);
      DseAnnotated(syms, idx, g[b].code, EndOf(syms, idx, g[b], g[b].liveOut));
      assert OutOf(h, b) == OutOf(g, b) by {
        assert ValidJumps(g[b], |g|);
      }
    }
  }

  /** Erasing dead stores in all listed blocks keeps the graph's behaviour. */
  lemma {:induction false} DseEquivalent(syms: seq<Symbol>, idx: Index, g: Graph, h: Graph, list: seq<nat>, entry: nat)
    requires ValidIndex(idx, syms) && ValidGraph(g) && ReadyList(syms, idx, g, list) && Closed(g, list)
    requires SoundList(syms, idx, g, list) && IsDseGraph(syms, idx, g, h, list)
    requires forall i :: 0 <= i < |list| ==> PlainCode(syms, idx, g[list[i]].code)
    requires entry in list && entry < |g|
    ensures ValidGraph(h) && Equivalent(syms, g, h, entry)
  {
    DseReady(syms, idx, g, h, list);
    forall m: Machine | Lawful(m)
      ensures GraphRefines(m, syms, idx, g, h, list)
    {
      forall i | 0 <= i < |list|
        ensures OutOf(g, list[i]) <= g[list[i]].liveOut
        ensures CodeRefines(m, syms, idx, g[list[i]], h[list[i]].code)
      {
        var b := g[list[i]];
        var end := EndOf(syms, idx, b, b.liveOut);
        assert Sound(syms, idx, g, list[i]);
        assert h[list[i]] == DseBlock(syms, idx, b);
        forall s, t | Similar(syms, idx, b.liveIn, s, t)
          ensures Similar(syms, idx, end, ExecCode(m, syms, b.code, s), ExecCode(m, syms, h[list[i]].code, t))
        {
          SimilarMonotone(syms, idx, b.liveIn, LiveBefore(syms, idx, b.code, end), s, t);
          DseSimilar(m, syms, idx, b.code, end, s, t);
        }
      }
    }
    ReplacedCodeEquivalent(syms, idx, g, h, list, entry);
  }

  lemma {:induction false} MergeReady(syms: seq<Symbol>, idx: Index, g: Graph, h: Graph, list: seq<nat>)
    requires |idx| == |syms| && ValidGraph(g) && ReadyList(syms, idx, g, list) && Closed(g, list)
    requires IsMergeGraph(syms, idx, g, h, list)
    ensures OnlyCodeChanged(g, h, list)
    ensures ValidGraph(h) && ReadyList(syms, idx, h, list) && Closed(h, list)
  {
    forall b | 0 <= b < |g|
      ensures h[b] == g[b].(code := h[b].code)
    {
      if b in list {
        var i :| 0 <= i < |list| && list[i] == b;
        assert h[list[i]] == MergeBlock(syms, idx, g[list[i]]);
      }
    }
    CodeChangedClosed(g, h, list);
    forall i | 0 <= i < |list|
      ensures ReadyBlock(syms, idx, h[list[i]])
    {
      assert h[list[i]] == MergeBlock(syms, idx, g[list[i]]);
    }
  }

  /** After merging, whatever was merged, a block's new equation asks for no more than
      its in set and what it reads itself, so the next iteration ends. */
  lemma {:induction false} MergeSettles(syms: seq<Symbol>, idx: Index, g: Graph, h: Graph, list: seq<nat>)
    requires ValidIndex(idx, syms)
    requires ValidGraph(g) && ReadyList(syms, idx, g, list) && Closed(g, list)
    requires SoundList(syms, idx, g, list) && IsMergeGraph(syms, idx, g, h, list)
    requires forall i :: 0 <= i < |list| ==> g[list[i]].liveIn <= ALL_BITS
    ensures ValidGraph(h) && ReadyList(syms, idx, h, list) && Settles(syms, idx, h, list)
  {
    MergeReady(syms, idx, g, h, list);
    forall i | 0 <= i < |list|
      ensures SettlesAt(syms, idx, h, list[i])
    {
      var b, c := list[i], g[list[i]].code;
      assert Sound(syms, idx, g, b) && h[b] == MergeBlock(syms, idx, g[b]);
      assert OutOf(h, b) == OutOf(g, b) by {
        assert ValidJumps(g[b], |g|);
      }
      InFromMonotone(syms, idx, h[b], OutOf(h, b), g[b].liveOut);
      MergeLowers(syms, idx, c, EndOf(syms, idx, g[b], g[b].liveOut), EndOf(syms, idx, h[b], {}));
    }
  }

  lemma {:induction false} MergeLowers(syms: seq<Symbol>, idx: Index, c: seq<Statement>, end: Bits, less: Bits)
    requires ValidIndex(idx, syms) && ReadyCode(syms, idx, c) && Annotated(syms, idx, c, end) && less <= end
    ensures Backward(syms, idx, MergeCode(syms, idx, c), end)
         <= LiveBefore(syms, idx, c, end) + Backward(syms, idx, MergeCode(syms, idx, c), less)
  {
    if c != [] {
      MergeBackward(syms, idx, c[0], c[1..], end, less);
      assert LiveBefore(syms, idx, c[1..], end) <= c[0].out;
    }
  }

  /** Merging chained assignments in all listed blocks keeps the graph's behaviour, if
      the pairs that are merged are harmless. */
  lemma {:induction false} MergeEquivalent(syms: seq<Symbol>, idx: Index, g: Graph, h: Graph, list: seq<nat>, entry: nat)
    requires ValidIndex(idx, syms)
    requires ValidGraph(g) && ReadyList(syms, idx, g, list) && Closed(g, list)
    requires SoundList(syms, idx, g, list) && IsMergeGraph(syms, idx, g, h, list)
    requires forall i :: 0 <= i < |list| ==>
      PlainCode(syms, idx, g[list[i]].code) && CodeMergesKeep(syms, idx, g[list[i]].code)
    requires entry in list && entry < |g|
    ensures ValidGraph(h) && Equivalent(syms, g, h, entry)
  {
    MergeReady(syms, idx, g, h, list);
    forall m: Machine | Lawful(m)
      ensures GraphRefines(m, syms, idx, g, h, list)
    {
      forall i | 0 <= i < |list|
        ensures OutOf(g, list[i]) <= g[list[i]].liveOut
        ensures CodeRefines(m, syms, idx, g[list[i]], h[list[i]].code)
      {
        var b := g[list[i]];
        assert Sound(syms, idx, g, list[i]);
        assert h[list[i]] == MergeBlock(syms, idx, b);
        MergeCodeRefines(m, syms, idx, b);
      }
    }
    ReplacedCodeEquivalent(syms, idx, g, h, list, entry);
  }

  lemma {:induction false} MergeCodeRefines(m: Machine, syms: seq<Symbol>, idx: Index, b: Block)
    requires Lawful(m) && ValidIndex(idx, syms) && ReadyBlock(syms, idx, b)
    requires PlainCode(syms, idx, b.code) && CodeMergesKeep(syms, idx, b.code)
    requires Annotated(syms, idx, b.code, EndOf(syms, idx, b, b.liveOut))
    requires LiveBefore(syms, idx, b.code, EndOf(syms, idx, b, b.liveOut)) <= b.liveIn
    ensures CodeRefines(m, syms, idx, b, MergeCode(syms, idx, b.code))
  {
    var end := EndOf(syms, idx, b, b.liveOut);
    forall s, t | Similar(syms, idx, b.liveIn, s, t)
      ensures Similar(syms, idx, end, ExecCode(m, syms, b.code, s), ExecCode(m, syms, MergeCode(syms, idx, b.code), t))
    {
      if b.code == [] {
        SimilarMonotone(syms, idx, b.liveIn, end, s, t);
      } else {
        var c0, rest := b.code[0], b.code[1..];
        SimilarMonotone(syms, idx, b.liveIn, Transfer(syms, idx, c0, c0.out), s, t);
        MergeSimilar(m, syms, idx, c0, c0.out, rest, end, s, t);
        assert [c0] + rest == b.code;
      }
    }
  }

  // ---------- Rounds ----------

  /** What a round of the optimizer goes through: the graph with all sets solved, and
      the graph after both transformations. */
  datatype Round = Round(solved: Graph, after: Graph)

  /** The first n listed blocks meet all of their equations. */
  ghost predicate SolvedList(syms: seq<Symbol>, idx: Index, g: Graph, list: seq<nat>, n: nat)
    requires ValidGraph(g) && |idx| == |syms| && ReadyList(syms, idx, g, list) && n <= |list|
  {
    forall i :: 0 <= i < n ==> Solved(syms, idx, g, list[i])
  }

  function RoundBlock(syms: seq<Symbol>, idx: Index, b: Block): Block
    requires |idx| == |syms| && ReadyCode(syms, idx, b.code)
  {
    MergeBlock(syms, idx, DseBlock(syms, idx, b))
  }

  /** The round starts from g: it solves the sets and changes nothing else, erases all
      dead stores of the listed blocks, and then merges all that can be merged. */
  ghost predicate IsRound(syms: seq<Symbol>, idx: Index, g: Graph, r: Round, list: seq<nat>) {
    && |idx| == |syms| && SameProgram(g, r.solved) && ValidGraph(r.solved) && ReadyList(syms, idx, r.solved, list)
    && SolvedList(syms, idx, r.solved, list, |list|)
    && |r.after| == |r.solved|
    && (forall i :: 0 <= i < |list| ==> r.after[list[i]] == RoundBlock(syms, idx, r.solved[list[i]]))
    && (forall b :: 0 <= b < |r.solved| && b !in list ==> r.after[b] == r.solved[b])
  }

  /** The analysis was right about every statement, and every pair merged was harmless. */
  ghost predicate RoundIsSafe(syms: seq<Symbol>, idx: Index, r: Round, list: seq<nat>)
    requires |idx| == |syms| && ReadyList(syms, idx, r.solved, list)
  {
    forall i :: 0 <= i < |list| ==> RoundKeeps(syms, idx, r.solved[list[i]].code)
  }

  /** Where the rounds lead from g on. */
  function Final(g: Graph, rounds: seq<Round>): Graph {
    if rounds == [] then g else rounds[|rounds| - 1].after
  }

  /** The rounds follow one another from g on. */
  ghost predicate IsHistory(syms: seq<Symbol>, idx: Index, g: Graph, rounds: seq<Round>, list: seq<nat>) {
    rounds == [] ||
    var before, r := rounds[..|rounds| - 1], rounds[|rounds| - 1];
    IsHistory(syms, idx, g, before, list) && IsRound(syms, idx, Final(g, before), r, list)
  }

  ghost predicate AllSafe(syms: seq<Symbol>, idx: Index, g: Graph, rounds: seq<Round>, list: seq<nat>)
    requires IsHistory(syms, idx, g, rounds, list)
  {
    rounds == [] ||
    var before, r := rounds[..|rounds| - 1], rounds[|rounds| - 1];
    AllSafe(syms, idx, g, before, list) && RoundIsSafe(syms, idx, r, list)
  }

  lemma {:induction false} HistoryGrows(syms: seq<Symbol>, idx: Index, g: Graph, rounds: seq<Round>, r: Round, list: seq<nat>)
    requires IsHistory(syms, idx, g, rounds, list) && IsRound(syms, idx, Final(g, rounds), r, list)
    ensures IsHistory(syms, idx, g, rounds + [r], list) && Final(g, rounds + [r]) == r.after
    ensures AllSafe(syms, idx, g, rounds + [r], list) <==>
      AllSafe(syms, idx, g, rounds, list) && RoundIsSafe(syms, idx, r, list)
  {
    assert (rounds + [r])[..|rounds|] == rounds;
  }

  // ---------- Rounds of code that passes the test ----------

  /** Every listed block's code passes the test that needs no analysis. */
  ghost predicate OptimizableList(syms: seq<Symbol>, g: Graph, list: seq<nat>) {
    forall i :: 0 <= i < |list| ==> list[i] < |g| && Optimizable(syms, g[list[i]].code)
  }

  /** Such a round is safe, and leaves such code. */
  lemma {:induction false} OptimizableRound(syms: seq<Symbol>, idx: Index, g: Graph, r: Round, list: seq<nat>)
    requires IsRound(syms, idx, g, r, list) && OptimizableList(syms, g, list)
    ensures RoundIsSafe(syms, idx, r, list) && OptimizableList(syms, r.after, list)
  {
    forall i | 0 <= i < |list|
      ensures RoundKeeps(syms, idx, r.solved[list[i]].code) && Optimizable(syms, r.after[list[i]].code)
    {
      var b := list[i];
      assert SameButSets(g[b], r.solved[b]) && Optimizable(syms, g[b].code);
      SetsOptimizable(syms, g[b].code, r.solved[b].code);
      OptimizableKeeps(syms, idx, r.solved[b].code);
      assert r.after[b] == RoundBlock(syms, idx, r.solved[b]);
    }
  }

  /** So all rounds are safe that start from such code. */
  lemma {:induction false} OptimizableHistory(syms: seq<Symbol>, idx: Index, g: Graph, rounds: seq<Round>, list: seq<nat>)
    requires IsHistory(syms, idx, g, rounds, list) && OptimizableList(syms, g, list)
    ensures AllSafe(syms, idx, g, rounds, list) && OptimizableList(syms, Final(g, rounds), list)
  {
    if rounds != [] {
      var before, r := rounds[..|rounds| - 1], rounds[|rounds| - 1];
      OptimizableHistory(syms, idx, g, before, list);
      OptimizableRound(syms, idx, Final(g, before), r, list);
    }
  }

  // ---------- Progress ----------

  function TotalAssignments(g: Graph, list: seq<nat>): nat
    requires forall i :: 0 <= i < |list| ==> list[i] < |g|
  {
    if list == [] then 0 else Assignments(g[list[0]].code) + TotalAssignments(g, list[1..])
  }

  function TotalDeadStores(syms: seq<Symbol>, idx: Index, g: Graph, list: seq<nat>): nat
    requires |idx| == |syms| && ReadyList(syms, idx, g, list)
  {
    if list == [] then 0 else DeadStores(syms, idx, g[list[0]].code) + TotalDeadStores(syms, idx, g, list[1..])
  }

  lemma {:induction false} RoundAssignments(
    syms: seq<Symbol>, idx: Index, f: Graph, g: Graph, h: Graph, list: seq<nat>)
    requires |idx| == |syms| && |f| == |g| == |h|
    requires ReadyList(syms, idx, f, list) && ReadyList(syms, idx, g, list)
    requires forall i :: 0 <= i < |list| ==> g[list[i]] == DseBlock(syms, idx, f[list[i]])
    requires forall i :: 0 <= i < |list| ==> h[list[i]] == MergeBlock(syms, idx, g[list[i]])
    ensures TotalAssignments(h, list) + TotalDeadStores(syms, idx, f, list) <= TotalAssignments(f, list)
  {
    if list != [] {
      var b := list[0];
      assert g[b] == DseBlock(syms, idx, f[b]) && h[b] == MergeBlock(syms, idx, g[b]);
      DseAssignments(syms, idx, f[b].code);
      if g[b].code != [] {
        MergeAssignments(syms, idx, g[b].code[0], g[b].code[1..]);
        AssignmentsAppend([g[b].code[0]], g[b].code[1..]);
        assert [g[b].code[0]] + g[b].code[1..] == g[b].code;
      }
      RoundAssignments(syms, idx, f, g, h, list[1..]);
    }
  }

  lemma {:induction false} SameProgramAssignments(g: Graph, h: Graph, list: seq<nat>)
    requires SameProgram(g, h) && forall i :: 0 <= i < |list| ==> list[i] < |g|
    ensures TotalAssignments(g, list) == TotalAssignments(h, list)
  {
    if list != [] {
      assert SameButSets(g[list[0]], h[list[0]]);
      SameCodeAssignments(g[list[0]].code, h[list[0]].code);
      SameProgramAssignments(g, h, list[1..]);
    }
  }

  lemma {:induction false} SameCodeAssignments(c: seq<Statement>, d: seq<Statement>)
    requires |c| == |d| && forall i :: 0 <= i < |c| ==> d[i] == c[i].(out := d[i].out)
    ensures Assignments(c) == Assignments(d)
  {
    if c != [] {
      assert d[0] == c[0].(out := d[0].out);
      SameCodeAssignments(c[1..], d[1..]);
    }
  }

  /** Recorded sets do not matter to a run. */
  lemma {:induction false} SetsInvisible(syms: seq<Symbol>, g: Graph, h: Graph, entry: nat)
    requires ValidGraph(g) && ValidGraph(h) && SameProgram(g, h) && entry < |g|
    ensures Equivalent(syms, g, h, entry)
  {
    forall m: Machine, st: State | Lawful(m) && |st.env| == |syms|
      ensures Includes(m, syms, g, h, entry, st) && Includes(m, syms, h, g, entry, st)
    {
      forall n: nat
        ensures Shows(m, syms, h, entry, st, Run(m, syms, g, entry, st, n))
        ensures Shows(m, syms, g, entry, st, Run(m, syms, h, entry, st, n))
      {
        SetsUnread(m, syms, g, h, entry, st, n);
      }
    }
  }

  lemma {:induction false} SetsUnread(m: Machine, syms: seq<Symbol>, g: Graph, h: Graph, b: nat, st: State, n: nat)
    requires ValidGraph(g) && ValidGraph(h) && SameProgram(g, h) && b < |g|
    ensures Run(m, syms, g, b, st, n) == Run(m, syms, h, b, st, n)
    decreases n
  {
    if n > 0 {
      assert SameButSets(g[b], h[b]) && ValidJumps(g[b], |g|);
      SetsUnreadCode(m, syms, g[b].code, h[b].code, st);
      var x := ExitBlock(m, syms, g[b], ExecCode(m, syms, g[b].code, st));
      if x.Goto? {
        SetsUnread(m, syms, g, h, x.block, x.st, n - 1);
      }
    }
  }

  lemma {:induction false} SetsUnreadCode(m: Machine, syms: seq<Symbol>, c: seq<Statement>, d: seq<Statement>, st: State)
    requires |c| == |d| && forall i :: 0 <= i < |c| ==> d[i] == c[i].(out := d[i].out)
    ensures ExecCode(m, syms, c, st) == ExecCode(m, syms, d, st)
  {
    if c != [] {
      assert d[0] == c[0].(out := d[0].out);
      SetsUnreadCode(m, syms, c[1..], d[1..], ExecStatement(m, syms, c[0], st));
    }
  }
}
