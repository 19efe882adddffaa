/**
  The closure loop: it adds, for every nonterminal a term expects, all of the
  nonterminal's rules as one block, and merges lookaheads into blocks that are
  already there, until nothing changes.
*/
module LalrClosure {
  import opened Grammars
  import opened FirstSets
  import opened Automata
  import opened LalrItems

  /** Every nonterminal used on a right side has a rule. */
  predicate Defined(g: Grammar) {
    forall r, i :: 0 <= r < |g.rules| && 0 <= i < |g.rules[r].rhs| && g.rules[r].rhs[i] >= SYM0 ==>
      HasRule(g, g.rules[r].rhs[i])
  }

  predicate HasRule(g: Grammar, s: Sym) {
    exists r :: 0 <= r < |g.rules| && g.rules[r].lhs == s
  }

  /** r is the first rule of s. */
  predicate IsFirstRule(g: Grammar, s: Sym, r: nat) {
    r < |g.rules| && g.rules[r].lhs == s && (r > 0 ==> g.rules[r - 1].lhs != s)
  }

  /** Binary search for a rule of s, then back to the first one. */
  method Rfind(g: Grammar, s: Sym) returns (r: nat)
    requires ValidGrammar(g) && HasRule(g, s)
    ensures IsFirstRule(g, s, r)
  {
    var lo, hi := 0, |g.rules|;
    r := (lo + hi) / 2;
    while g.rules[r].lhs != s
      invariant 0 <= lo <= r < hi <= |g.rules| && r == (lo + hi) / 2
      invariant forall k :: 0 <= k < |g.rules| && g.rules[k].lhs == s ==> lo <= k < hi
      decreases hi - lo
    {
      var k :| 0 <= k < |g.rules| && g.rules[k].lhs == s;
      if g.rules[r].lhs < s {
        lo := r + 1;
      } else {
        hi := r;
      }
      r := (lo + hi) / 2;
    }
    while r > 0 && g.rules[r - 1].lhs == s
      invariant 0 <= r < |g.rules| && g.rules[r].lhs == s
    {
      r := r - 1;
    }
  }

  // ---------- Where blocks are ----------

  /** smap[s] is where the block of nonterminal SYM0 + s starts, 0 if it has none. */
  predicate SmapOk(g: Grammar, ts: seq<Term>, smap: seq<nat>)
    requires ValidGrammar(g) && ValidTerms(g, ts)
  {
    SmapUpTo(g, ts, smap, |ts|)
  }

  /** The same, looking at the first n terms only. */
  predicate SmapUpTo(g: Grammar, ts: seq<Term>, smap: seq<nat>, n: nat)
    requires ValidGrammar(g) && ValidTerms(g, ts) && n <= |ts|
  {
    && |smap| == g.nsy - SYM0
    && (forall s {:trigger SmapEntry(g, ts, smap, s, n)} :: 0 <= s < |smap| ==> SmapEntry(g, ts, smap, s, n))
    && (forall i {:trigger Mapped(g, smap, ts[i].rule)} :: 1 <= i < n && ts[i].dot == 0 ==> Mapped(g, smap, ts[i].rule))
  }

  predicate SmapEntry(g: Grammar, ts: seq<Term>, smap: seq<nat>, s: nat, n: nat)
    requires s < |smap| && n <= |ts|
  {
    smap[s] != 0 ==>
      smap[s] < n && ts[smap[s]].dot == 0 && IsFirstRule(g, SYM0 + s, ts[smap[s]].rule)
  }

  predicate Mapped(g: Grammar, smap: seq<nat>, r: nat)
    requires ValidGrammar(g) && r < |g.rules| && |smap| == g.nsy - SYM0
  {
    assert ValidRule(g, g.rules[r]);
    smap[g.rules[r].lhs - SYM0] != 0
  }

  /** From a block's start, the nonterminal's rules follow one another. */
  lemma {:induction false} BlockFollows(g: Grammar, ts: seq<Term>, m: nat, j: nat)
    requires ValidGrammar(g) && ValidTerms(g, ts) && InBlocks(g, ts)
    requires 1 <= m < |ts| && ts[m].dot == 0 && ts[m].rule + j < |g.rules|
    requires g.rules[ts[m].rule + j].lhs == g.rules[ts[m].rule].lhs
    ensures m + j < |ts| && CoreOf(ts[m + j]) == (ts[m].rule + j, 0)
    decreases j
  {
    if j > 0 {
      BlockFollows(g, ts, m, j - 1);
      assert HasNeighbours(g, ts, m + j - 1);
    }
  }

  /** The first closure term of its nonterminal is the nonterminal's first rule. */
  lemma {:induction false} FirstOccurrence(g: Grammar, ts: seq<Term>, smap: seq<nat>, n: nat, s: nat)
    requires Blocked(g, ts) && 1 <= n < |ts| && SmapUpTo(g, ts, smap, n)
    requires s < |smap| && g.rules[ts[n].rule].lhs == SYM0 + s && ts[n].dot == 0 && smap[s] == 0
    ensures IsFirstRule(g, SYM0 + s, ts[n].rule)
  {
    assert HasNeighbours(g, ts, n);
    var t := ts[n - 1];
    assert n >= 2 && t.dot == 0 ==> Mapped(g, smap, t.rule);
  }

  lemma {:induction false} SmapStep(g: Grammar, ts: seq<Term>, smap: seq<nat>, n: nat, s: nat)
    requires Blocked(g, ts) && n < |ts| && SmapUpTo(g, ts, smap, n)
    requires s < |smap| && g.rules[ts[n].rule].lhs == SYM0 + s && ts[n].dot == 0
    ensures SmapUpTo(g, ts, if smap[s] == 0 then smap[s := n] else smap, n + 1)
  {
    if smap[s] == 0 && n >= 1 {
      FirstOccurrence(g, ts, smap, n, s);
    }
    var after := if smap[s] == 0 then smap[s := n] else smap;
    var n' := n + 1;
    forall k | 0 <= k < |after|
      ensures SmapEntry(g, ts, after, k, n')
    {
      assert SmapEntry(g, ts, smap, k, n);
    }
    forall i | 1 <= i < n + 1 && ts[i].dot == 0
      ensures Mapped(g, after, ts[i].rule)
    {
      if i < n {
        assert Mapped(g, smap, ts[i].rule);
      }
    }
  }

  lemma {:induction false} SmapSkip(g: Grammar, ts: seq<Term>, smap: seq<nat>, n: nat)
    requires Blocked(g, ts) && n < |ts| && SmapUpTo(g, ts, smap, n) && ts[n].dot != 0
    ensures SmapUpTo(g, ts, smap, n + 1)
  {
    var n' := n + 1;
    forall k | 0 <= k < |smap|
      ensures SmapEntry(g, ts, smap, k, n')
    {
      assert SmapEntry(g, ts, smap, k, n);
    }
  }

  method InitSmap(g: Grammar, ts: seq<Term>) returns (smap: seq<nat>)
    requires Blocked(g, ts)
    ensures SmapOk(g, ts, smap)
  {
    smap := seq(g.nsy - SYM0, s => 0);
    var n := 0;
    while n < |ts|
      invariant 0 <= n <= |ts| && SmapUpTo(g, ts, smap, n)
    {
      assert ValidTerm(g, ts[n]) && ValidRule(g, g.rules[ts[n].rule]);
      var s := g.rules[ts[n].rule].lhs - SYM0;
      if ts[n].dot == 0 {
        SmapStep(g, ts, smap, n, s);
        if smap[s] == 0 {
          smap := smap[s := n];
        }
      } else {
        SmapSkip(g, ts, smap, n);
      }
      n := n + 1;
    }
  }

  // ---------- Merging and appending blocks ----------

  /** The rules of s from r on, as fresh terms. */
  function BlockFrom(g: Grammar, s: Sym, r: nat, lk: set<Sym>): (b: seq<Term>)
    requires r <= |g.rules|
    decreases |g.rules| - r
  {
    if r < |g.rules| && g.rules[r].lhs == s then [Term(r, 0, lk)] + BlockFrom(g, s, r + 1, lk) else []
  }

  lemma {:induction false} BlockIs(g: Grammar, s: Sym, r: nat, lk: set<Sym>)
    requires ValidGrammar(g) && r <= |g.rules|
    ensures var b := BlockFrom(g, s, r, lk);
      && r + |b| <= |g.rules|
      && (forall i :: 0 <= i < |b| ==> b[i] == Term(r + i, 0, lk) && g.rules[r + i].lhs == s)
      && (r + |b| < |g.rules| ==> g.rules[r + |b|].lhs != s)
    decreases |g.rules| - r
  {
    if r < |g.rules| && g.rules[r].lhs == s {
      BlockIs(g, s, r + 1, lk);
      var b, c := BlockFrom(g, s, r, lk), BlockFrom(g, s, r + 1, lk);
      forall i | 0 <= i < |b|
        ensures b[i] == Term(r + i, 0, lk) && g.rules[r + i].lhs == s
      {
        if i > 0 {
          assert b[i] == c[i - 1] == Term(r + 1 + (i - 1), 0, lk);
        }
      }
      assert r + |b| == r + 1 + |c|;
    }
  }

  /** All rules of s, once its first is r, are r, r + 1, ... */
  lemma {:induction false} RulesOf(g: Grammar, s: Sym, r: nat, q: nat)
    requires ValidGrammar(g) && IsFirstRule(g, s, r) && q < |g.rules| && g.rules[q].lhs == s
    ensures r <= q && forall k :: r <= k <= q ==> g.rules[k].lhs == s
  {
  }

  /** The first j terms from m on have got the lookaheads. */
  predicate MergedUpTo(ts: seq<Term>, us: seq<Term>, m: nat, j: nat, lk: set<Sym>) {
    && |us| == |ts| && m + j <= |ts|
    && forall i :: 0 <= i < |ts| ==> us[i] == if m <= i < m + j then ts[i].(lk := ts[i].lk + lk) else ts[i]
  }

  /** Terms m.. of ts are the rules of s, j of them, and those are all. */
  predicate IsBlock(g: Grammar, ts: seq<Term>, m: nat, s: Sym, j: nat) {
    && m + j <= |ts|
    && (forall i :: m <= i < m + j ==> CoreOf(ts[i]) == (ts[m].rule + i - m, 0))
    && forall q :: 0 <= q < |g.rules| ==> (g.rules[q].lhs == s <==> j > 0 && ts[m].rule <= q < ts[m].rule + j)
  }

  lemma {:induction false} BlockExtends(g: Grammar, ts: seq<Term>, m: nat, s: Sym, j: nat)
    requires Blocked(g, ts) && 1 <= m < |ts| && ts[m].dot == 0 && IsFirstRule(g, s, ts[m].rule)
    requires ts[m].rule + j <= |g.rules| && m + j <= |ts|
    requires forall i :: m <= i < m + j ==> CoreOf(ts[i]) == (ts[m].rule + i - m, 0)
    requires forall k :: ts[m].rule <= k < ts[m].rule + j ==> g.rules[k].lhs == s
    ensures ts[m].rule + j < |g.rules| && g.rules[ts[m].rule + j].lhs == s ==>
      m + j < |ts| && CoreOf(ts[m + j]) == (ts[m].rule + j, 0)
    ensures !(ts[m].rule + j < |g.rules| && g.rules[ts[m].rule + j].lhs == s) ==> IsBlock(g, ts, m, s, j)
  {
    var r := ts[m].rule;
    if r + j < |g.rules| && g.rules[r + j].lhs == s {
      BlockFollows(g, ts, m, j);
    } else {
      forall q | 0 <= q < |g.rules| && g.rules[q].lhs == s
        ensures r <= q < r + j
      {
        RulesOf(g, s, r, q);
      }
    }
  }

  /** Merge lookaheads into the block of s that starts at m. */
  method MergeBlock(g: Grammar, ts: seq<Term>, m: nat, s: Sym, lk: set<Sym>)
    returns (us: seq<Term>, chg: bool, ghost j: nat)
    requires Blocked(g, ts) && 1 <= m < |ts| && ts[m].dot == 0 && IsFirstRule(g, s, ts[m].rule)
    ensures IsBlock(g, ts, m, s, j) && MergedUpTo(ts, us, m, j, lk)
    ensures chg <==> us != ts
  {
    us, chg := ts, false;
    var r, k := ts[m].rule, 0;
    BlockExtends(g, ts, m, s, 0);
    while r + k < |g.rules| && g.rules[r + k].lhs == s
      invariant 0 <= k && r + k <= |g.rules| && MergedUpTo(ts, us, m, k, lk)
      invariant forall i :: m <= i < m + k ==> CoreOf(ts[i]) == (r + i - m, 0)
      invariant forall i :: r <= i < r + k ==> g.rules[i].lhs == s
      invariant chg <==> us != ts
      decreases |g.rules| - r - k
    {
      BlockExtends(g, ts, m, s, k);
      MergedStep(ts, us, m, k, lk);
      if !(lk <= us[m + k].lk) {
        chg := true;
      }
      us := us[m + k := us[m + k].(lk := us[m + k].lk + lk)];
      k := k + 1;
    }
    BlockExtends(g, ts, m, s, k);
    j := k;
  }

  lemma {:induction false} MergedStep(ts: seq<Term>, us: seq<Term>, m: nat, k: nat, lk: set<Sym>)
    requires MergedUpTo(ts, us, m, k, lk) && m + k < |ts|
    ensures var vs := us[m + k := us[m + k].(lk := us[m + k].lk + lk)];
      && MergedUpTo(ts, vs, m, k + 1, lk)
      && (vs == ts <==> us == ts && lk <= us[m + k].lk)
  {
    var vs := us[m + k := us[m + k].(lk := us[m + k].lk + lk)];
    if us != ts {
      var i :| 0 <= i < |ts| && us[i] != ts[i];
      assert vs[i] != ts[i];
    }
    if !(lk <= us[m + k].lk) {
      assert us[m + k].lk + lk != us[m + k].lk;
      assert vs[m + k] != ts[m + k];
    } else {
      assert us[m + k].lk + lk == us[m + k].lk;
    }
  }

  // ---------- One term's contribution ----------

  predicate SameCores(ts: seq<Term>, us: seq<Term>) {
    |us| == |ts| && forall i :: 0 <= i < |ts| ==> CoreOf(us[i]) == CoreOf(ts[i])
  }

  lemma {:induction false} SameCoresBlocked(g: Grammar, ts: seq<Term>, us: seq<Term>)
    requires Blocked(g, ts) && SameCores(ts, us) && ValidTerms(g, us)
    ensures Blocked(g, us)
  {
    forall i {:trigger HasNeighbours(g, us, i)} | 1 <= i < |us| && us[i].dot == 0
      ensures HasNeighbours(g, us, i)
    {
      assert CoreOf(us[i]) == CoreOf(ts[i]) && CoreOf(us[i - 1]) == CoreOf(ts[i - 1]);
      assert HasNeighbours(g, ts, i);
      if i + 1 < |ts| {
        assert CoreOf(us[i + 1]) == CoreOf(ts[i + 1]);
      }
    }
  }

  lemma {:induction false} SameCoresShape(ts: seq<Term>, us: seq<Term>)
    requires KernelShape(ts) && DistinctCores(ts) && StartFirst(ts) && SameCores(ts, us)
    ensures KernelShape(us) && DistinctCores(us) && StartFirst(us)
  {
    var k: nat :| KernelFirst(ts, k);
    forall i, j | 0 <= i < j < k
      ensures CoreLess(CoreOf(us[..k][i]), CoreOf(us[..k][j]))
    {
      assert CoreLess(CoreOf(ts[..k][i]), CoreOf(ts[..k][j]));
    }
    assert KernelFirst(us, k);
  }

  lemma {:induction false} SameCoresJustified(g: Grammar, ts: seq<Term>, us: seq<Term>)
    requires ValidTerms(g, ts) && ValidTerms(g, us) && JustifiedTerms(g, ts) && SameCores(ts, us)
    ensures JustifiedTerms(g, us)
  {
    forall i | 1 <= i < |us| && us[i].dot == 0
      ensures SomeExpects(g, us, g.rules[us[i].rule].lhs)
    {
      assert CoreOf(us[i]) == CoreOf(ts[i]);
      var x := g.rules[ts[i].rule].lhs;
      assert SomeExpects(g, ts, x);
      var j :| 0 <= j < |ts| && Expects(g, ts[j], x);
      assert CoreOf(us[j]) == CoreOf(ts[j]);
      assert Expects(g, us[j], x);
    }
  }

  lemma {:induction false} SameCoresItemSet(g: Grammar, ts: seq<Term>, us: seq<Term>)
    requires ItemSet(g, ts) && SameCores(ts, us) && ValidTerms(g, us)
    ensures ItemSet(g, us)
  {
    SameCoresBlocked(g, ts, us);
    SameCoresShape(ts, us);
    SameCoresJustified(g, ts, us);
  }

  lemma {:induction false} SameCoresSmap(g: Grammar, ts: seq<Term>, us: seq<Term>, smap: seq<nat>)
    requires ValidGrammar(g) && ValidTerms(g, ts) && ValidTerms(g, us) && SameCores(ts, us) && SmapOk(g, ts, smap)
    ensures SmapOk(g, us, smap)
  {
    var n := |us|;
    forall s | 0 <= s < |smap|
      ensures SmapEntry(g, us, smap, s, n)
    {
      assert SmapEntry(g, ts, smap, s, n);
      if smap[s] != 0 {
        assert CoreOf(us[smap[s]]) == CoreOf(ts[smap[s]]);
      }
    }
    forall i {:trigger Mapped(g, smap, us[i].rule)} | 1 <= i < |us| && us[i].dot == 0
      ensures Mapped(g, smap, us[i].rule)
    {
      assert CoreOf(us[i]) == CoreOf(ts[i]);
      assert Mapped(g, smap, ts[i].rule);
    }
  }

  lemma {:induction false} MergedKeeps(g: Grammar, ts: seq<Term>, us: seq<Term>, m: nat, j: nat, lk: set<Sym>, smap: seq<nat>)
    requires ItemSet(g, ts) && SmapOk(g, ts, smap) && MergedUpTo(ts, us, m, j, lk) && lk <= Tokens(g)
    ensures ItemSet(g, us) && SmapOk(g, us, smap) && Grown(ts, us) && SameCores(ts, us)
  {
    forall i | 0 <= i < |us|
      ensures ValidTerm(g, us[i])
    {
      assert ValidTerm(g, ts[i]);
    }
    SameCoresItemSet(g, ts, us);
    SameCoresSmap(g, ts, us, smap);
  }

  /** Nothing in ts is a rule of s with its dot in front. */
  lemma {:induction false} NoneOf(g: Grammar, ts: seq<Term>, smap: seq<nat>, s: nat, i: nat)
    requires Blocked(g, ts) && SmapOk(g, ts, smap) && 0 < s < |smap| && smap[s] == 0 && i < |ts|
    ensures ts[i].dot == 0 ==> g.rules[ts[i].rule].lhs != SYM0 + s
  {
    if ts[i].dot == 0 && i >= 1 {
      assert Mapped(g, smap, ts[i].rule);
    }
  }

  lemma {:induction false} AppendedAt(g: Grammar, ts: seq<Term>, s: Sym, r: nat, lk: set<Sym>, i: nat)
    requires ValidGrammar(g) && r <= |g.rules| && i < |ts + BlockFrom(g, s, r, lk)|
    ensures var us := ts + BlockFrom(g, s, r, lk);
      if i < |ts| then us[i] == ts[i]
      else r + i - |ts| < |g.rules| && us[i] == Term(r + i - |ts|, 0, lk) && g.rules[r + i - |ts|].lhs == s
  {
    BlockIs(g, s, r, lk);
  }

  lemma {:induction false} AppendedBlocked(g: Grammar, ts: seq<Term>, s: Sym, r: nat, lk: set<Sym>)
    requires Blocked(g, ts) && |ts| > 0 && IsFirstRule(g, s, r) && lk <= Tokens(g)
    ensures Blocked(g, ts + BlockFrom(g, s, r, lk))
  {
    var b := BlockFrom(g, s, r, lk);
    var us := ts + b;
    BlockIs(g, s, r, lk);
    forall i | 0 <= i < |us|
      ensures ValidTerm(g, us[i])
    {
      AppendedAt(g, ts, s, r, lk, i);
    }
    forall i {:trigger HasNeighbours(g, us, i)} | 1 <= i < |us| && us[i].dot == 0
      ensures HasNeighbours(g, us, i)
    {
      AppendedAt(g, ts, s, r, lk, i);
      AppendedAt(g, ts, s, r, lk, i - 1);
      if i + 1 < |us| {
        AppendedAt(g, ts, s, r, lk, i + 1);
      }
      if i < |ts| {
        assert HasNeighbours(g, ts, i);
      }
    }
  }

  lemma {:induction false} AppendedDistinct(g: Grammar, ts: seq<Term>, smap: seq<nat>, s: nat, r: nat, lk: set<Sym>)
    requires Blocked(g, ts) && DistinctCores(ts) && SmapOk(g, ts, smap) && 0 < s < |smap| && smap[s] == 0
    requires r <= |g.rules|
    ensures DistinctCores(ts + BlockFrom(g, SYM0 + s, r, lk))
  {
    var us := ts + BlockFrom(g, SYM0 + s, r, lk);
    forall i, j | 0 <= i < j < |us|
      ensures CoreOf(us[i]) != CoreOf(us[j])
    {
      AppendedAt(g, ts, SYM0 + s, r, lk, i);
      AppendedAt(g, ts, SYM0 + s, r, lk, j);
      if i < |ts| {
        NoneOf(g, ts, smap, s, i);
      }
    }
  }

  lemma {:induction false} AppendedShape(g: Grammar, ts: seq<Term>, s: Sym, r: nat, lk: set<Sym>)
    requires ValidGrammar(g) && r <= |g.rules| && s != SYM0 && |ts| > 0
    requires KernelShape(ts) && StartFirst(ts)
    ensures KernelShape(ts + BlockFrom(g, s, r, lk)) && StartFirst(ts + BlockFrom(g, s, r, lk))
  {
    var us := ts + BlockFrom(g, s, r, lk);
    var k: nat :| KernelFirst(ts, k);
    assert us[..k] == ts[..k];
    forall i | k <= i < |us|
      ensures us[i].dot == 0
    {
      AppendedAt(g, ts, s, r, lk, i);
    }
    assert KernelFirst(us, k);
    forall i | 1 <= i < |us|
      ensures CoreOf(us[i]) != (0, 0)
    {
      AppendedAt(g, ts, s, r, lk, i);
    }
  }

  lemma {:induction false} AppendedJustified(g: Grammar, ts: seq<Term>, n: nat, s: Sym, r: nat, lk: set<Sym>)
    requires ValidGrammar(g) && r <= |g.rules| && ValidTerms(g, ts) && ValidTerms(g, ts + BlockFrom(g, s, r, lk))
    requires JustifiedTerms(g, ts) && n < |ts| && Expects(g, ts[n], s)
    ensures JustifiedTerms(g, ts + BlockFrom(g, s, r, lk))
  {
    var us := ts + BlockFrom(g, s, r, lk);
    forall i | 1 <= i < |us| && us[i].dot == 0
      ensures SomeExpects(g, us, g.rules[us[i].rule].lhs)
    {
      AppendedAt(g, ts, s, r, lk, i);
      if i < |ts| {
        var x := g.rules[ts[i].rule].lhs;
        assert SomeExpects(g, ts, x);
        var j :| 0 <= j < |ts| && Expects(g, ts[j], x);
        assert us[j] == ts[j];
      } else {
        assert us[n] == ts[n];
      }
    }
  }

  lemma {:induction false} AppendedSmap(g: Grammar, ts: seq<Term>, smap: seq<nat>, s: nat, r: nat, lk: set<Sym>)
    requires Blocked(g, ts) && |ts| > 0 && SmapOk(g, ts, smap) && 0 < s < |smap| && smap[s] == 0
    requires IsFirstRule(g, SYM0 + s, r) && ValidTerms(g, ts + BlockFrom(g, SYM0 + s, r, lk))
    ensures SmapOk(g, ts + BlockFrom(g, SYM0 + s, r, lk), smap[s := |ts|])
  {
    var us, after := ts + BlockFrom(g, SYM0 + s, r, lk), smap[s := |ts|];
    BlockIs(g, SYM0 + s, r, lk);
    AppendedAt(g, ts, SYM0 + s, r, lk, |ts|);
    var n := |us|;
    forall k | 0 <= k < |after|
      ensures SmapEntry(g, us, after, k, n)
    {
      assert SmapEntry(g, ts, smap, k, |ts|);
    }
    forall i {:trigger Mapped(g, after, us[i].rule)} | 1 <= i < |us| && us[i].dot == 0
      ensures Mapped(g, after, us[i].rule)
    {
      AppendedAt(g, ts, SYM0 + s, r, lk, i);
      if i < |ts| {
        assert Mapped(g, smap, ts[i].rule);
      }
    }
  }

  lemma {:induction false} AppendedKeeps(g: Grammar, ts: seq<Term>, n: nat, smap: seq<nat>, s: nat, r: nat, lk: set<Sym>)
    requires ItemSet(g, ts) && SmapOk(g, ts, smap) && 0 < s < |smap| && smap[s] == 0 && lk <= Tokens(g)
    requires IsFirstRule(g, SYM0 + s, r) && n < |ts| && Expects(g, ts[n], SYM0 + s)
    ensures var us := ts + BlockFrom(g, SYM0 + s, r, lk);
      ItemSet(g, us) && SmapOk(g, us, smap[s := |ts|]) && Grown(ts, us)
  {
    AppendedBlocked(g, ts, SYM0 + s, r, lk);
    AppendedDistinct(g, ts, smap, s, r, lk);
    AppendedShape(g, ts, SYM0 + s, r, lk);
    AppendedJustified(g, ts, n, SYM0 + s, r, lk);
    AppendedSmap(g, ts, smap, s, r, lk);
    BlockIs(g, SYM0 + s, r, lk);
  }

  // ---------- Progress and leastness ----------

  predicate Present(ts: seq<Term>, c: Core, t: Sym) {
    exists i :: 0 <= i < |ts| && CoreOf(ts[i]) == c && t in ts[i].lk
  }

  predicate HasFront(ts: seq<Term>, r: nat) {
    exists i :: 0 <= i < |ts| && CoreOf(ts[i]) == (r, 0)
  }

  /** Rules not in the set with their dot in front. */
  function MissingRules(g: Grammar, ts: seq<Term>): set<nat> {
    set r: nat | r < |g.rules| && !HasFront(ts, r)
  }

  /** Lookaheads the set's terms lack. */
  function MissingLookaheads(g: Grammar, ts: seq<Term>): set<(Core, Sym)> {
    set r: nat, d: nat, t: nat | r < |g.rules| && d <= |g.rules[r].rhs| && t < g.ntk && !Present(ts, (r, d), t) ::
      ((r, d), t)
  }

  lemma {:induction false} GrownMissesLess(g: Grammar, ts: seq<Term>, us: seq<Term>)
    requires Grown(ts, us)
    ensures MissingRules(g, us) <= MissingRules(g, ts)
    ensures MissingLookaheads(g, us) <= MissingLookaheads(g, ts)
  {
    forall r: nat | HasFront(ts, r)
      ensures HasFront(us, r)
    {
      var i :| 0 <= i < |ts| && CoreOf(ts[i]) == (r, 0);
      assert CoreOf(us[i]) == (r, 0);
    }
    forall c: Core, t: Sym | Present(ts, c, t)
      ensures Present(us, c, t)
    {
      var i :| 0 <= i < |ts| && CoreOf(ts[i]) == c && t in ts[i].lk;
      assert CoreOf(us[i]) == c && t in us[i].lk;
    }
  }

  /** With the same cores, a real change adds a lookahead that was missing. */
  lemma {:induction false} ChangeAddsLookahead(g: Grammar, ts: seq<Term>, us: seq<Term>)
    requires ValidTerms(g, us) && DistinctCores(ts) && SameCores(ts, us) && Grown(ts, us) && us != ts
    ensures MissingLookaheads(g, us) < MissingLookaheads(g, ts)
  {
    GrownMissesLess(g, ts, us);
    var i :| 0 <= i < |ts| && us[i] != ts[i];
    var c := CoreOf(ts[i]);
    assert CoreOf(us[i]) == c && ValidTerm(g, us[i]);
    var t :| t in us[i].lk && t !in ts[i].lk;
    assert Present(us, c, t);
    assert !Present(ts, c, t);
    assert (c, t) in MissingLookaheads(g, ts) && (c, t) !in MissingLookaheads(g, us);
  }

  /** A closed set of terms above ts. */
  ghost predicate IsReference(g: Grammar, info: Info, ts: seq<Term>, ref: seq<Term>) {
    && ValidGrammar(g) && ValidInfo(g, info) && ValidTerms(g, ref) && DistinctCores(ref)
    && Closed(g, info, ref) && Below(ts, ref)
  }

  lemma {:induction false} HandedMonotone(g: Grammar, info: Info, t: Term, u: Term)
    requires ValidGrammar(g) && ValidInfo(g, info) && ValidTerm(g, t) && ValidTerm(g, u)
    requires CoreOf(t) == CoreOf(u) && t.lk <= u.lk && t.dot < |g.rules[t.rule].rhs|
    ensures Handed(g, info, t) <= Handed(g, info, u)
  {
    assert ValidRule(g, g.rules[t.rule]);
    FirstMonotone(g, info, Rest(g, t), t.lk, u.lk);
  }

  /** What a term hands out, a reference above it has. */
  lemma {:induction false} ReferenceHas(g: Grammar, info: Info, ts: seq<Term>, ref: seq<Term>, n: nat, q: nat)
    requires IsReference(g, info, ts, ref) && ValidTerms(g, ts) && n < |ts|
    requires ts[n].dot < |g.rules[ts[n].rule].rhs| && q < |g.rules|
    requires g.rules[q].lhs == g.rules[ts[n].rule].rhs[ts[n].dot]
    ensures TermBelow(Term(q, 0, Handed(g, info, ts[n])), ref)
  {
    assert ValidTerm(g, ts[n]) && TermBelow(ts[n], ref);
    var j :| 0 <= j < |ref| && CoreOf(ref[j]) == CoreOf(ts[n]) && ts[n].lk <= ref[j].lk;
    assert ValidTerm(g, ref[j]) && ClosedFor(g, info, ref, ref[j]);
    HandedMonotone(g, info, ts[n], ref[j]);
    assert Covers(ref, q, Handed(g, info, ref[j]));
    var m :| 0 <= m < |ref| && CoreOf(ref[m]) == (q, 0) && Handed(g, info, ref[j]) <= ref[m].lk;
  }

  lemma {:induction false} BelowBoth(t: Term, lk: set<Sym>, ref: seq<Term>)
    requires DistinctCores(ref) && TermBelow(t, ref) && TermBelow(t.(lk := lk), ref)
    ensures TermBelow(t.(lk := t.lk + lk), ref)
  {
    var i :| 0 <= i < |ref| && CoreOf(ref[i]) == CoreOf(t) && t.lk <= ref[i].lk;
    var j :| 0 <= j < |ref| && CoreOf(ref[j]) == CoreOf(t) && lk <= ref[j].lk;
    assert i == j;
  }

  lemma {:induction false} MergedBelow(
    g: Grammar, info: Info, ts: seq<Term>, us: seq<Term>, n: nat, m: nat, s: Sym, j: nat, ref: seq<Term>)
    requires IsReference(g, info, ts, ref) && ValidTerms(g, ts) && n < |ts| && Expects(g, ts[n], s)
    requires ValidTerm(g, ts[n]) && m < |ts| && IsBlock(g, ts, m, s, j)
    requires MergedUpTo(ts, us, m, j, Handed(g, info, ts[n]))
    ensures Below(us, ref)
  {
    var lk := Handed(g, info, ts[n]);
    forall i | 0 <= i < |us|
      ensures TermBelow(us[i], ref)
    {
      assert TermBelow(ts[i], ref);
      if m <= i < m + j {
        assert CoreOf(ts[i]) == (ts[m].rule + i - m, 0) && ValidTerm(g, ts[i]);
        assert g.rules[ts[i].rule].lhs == s;
        ReferenceHas(g, info, ts, ref, n, ts[i].rule);
        BelowBoth(ts[i], lk, ref);
      }
    }
  }

  lemma {:induction false} AppendedBelow(g: Grammar, info: Info, ts: seq<Term>, n: nat, s: Sym, r: nat, ref: seq<Term>)
    requires IsReference(g, info, ts, ref) && ValidTerms(g, ts) && n < |ts| && Expects(g, ts[n], s)
    requires ValidTerm(g, ts[n]) && r <= |g.rules|
    ensures Below(ts + BlockFrom(g, s, r, Handed(g, info, ts[n])), ref)
  {
    var lk := Handed(g, info, ts[n]);
    var us := ts + BlockFrom(g, s, r, lk);
    forall i | 0 <= i < |us|
      ensures TermBelow(us[i], ref)
    {
      AppendedAt(g, ts, s, r, lk, i);
      if i < |ts| {
        assert TermBelow(ts[i], ref);
      } else {
        ReferenceHas(g, info, ts, ref, n, r + i - |ts|);
      }
    }
  }

  lemma {:induction false} BlockCovers(g: Grammar, info: Info, ts: seq<Term>, m: nat, s: Sym, j: nat, n: nat)
    requires ValidGrammar(g) && ValidInfo(g, info) && ValidTerms(g, ts) && n < |ts| && Expects(g, ts[n], s)
    requires ValidTerm(g, ts[n]) && m < |ts| && IsBlock(g, ts, m, s, j)
    requires MergedUpTo(ts, ts, m, j, Handed(g, info, ts[n]))
    ensures ClosedFor(g, info, ts, ts[n])
  {
    var lk := Handed(g, info, ts[n]);
    forall q | 0 <= q < |g.rules| && g.rules[q].lhs == s
      ensures Covers(ts, q, lk)
    {
      var i := m + q - ts[m].rule;
      assert CoreOf(ts[i]) == (q, 0) && ts[i] == ts[i].(lk := ts[i].lk + lk);
    }
  }

  // ---------- The loop ----------

  /** ts lies below every closed set above ts0. */
  ghost predicate Least(g: Grammar, info: Info, ts0: seq<Term>, ts: seq<Term>) {
    forall ref :: IsReference(g, info, ts0, ref) ==> Below(ts, ref)
  }

  /** us came from ts by adding what was missing; chg tells if anything was. */
  predicate Progress(g: Grammar, ts: seq<Term>, us: seq<Term>, chg: bool) {
    && MissingRules(g, us) <= MissingRules(g, ts)
    && MissingLookaheads(g, us) <= MissingLookaheads(g, ts)
    && (!chg ==> us == ts)
    && (chg ==> MissingRules(g, us) < MissingRules(g, ts) || MissingLookaheads(g, us) < MissingLookaheads(g, ts))
    && (|us| > |ts| ==> MissingRules(g, us) < MissingRules(g, ts))
  }

  /** Everything one term's contribution keeps. */
  ghost predicate Contributed(g: Grammar, info: Info, ts: seq<Term>, us: seq<Term>, smap: seq<nat>, chg: bool) {
    && ItemSet(g, us) && SmapOk(g, us, smap) && Grown(ts, us)
    && Progress(g, ts, us, chg) && Least(g, info, ts, us)
  }

  method MergeLookaheads(g: Grammar, info: Info, ts: seq<Term>, smap: seq<nat>, n: nat, s: Sym, lk: set<Sym>)
    returns (us: seq<Term>, chg: bool)
    requires ValidGrammar(g) && ValidInfo(g, info) && ItemSet(g, ts) && SmapOk(g, ts, smap) && n < |ts|
    requires ValidTerm(g, ts[n]) && Expects(g, ts[n], s) && SYM0 < s < g.nsy && smap[s - SYM0] != 0
    requires lk == Handed(g, info, ts[n]) && lk <= Tokens(g)
    ensures Contributed(g, info, ts, us, smap, chg)
    ensures !chg ==> ClosedFor(g, info, ts, ts[n])
  {
    var m := smap[s - SYM0];
    assert SmapEntry(g, ts, smap, s - SYM0, |ts|);
    ghost var j;
    us, chg, j := MergeBlock(g, ts, m, s, lk);
    MergedKeeps(g, ts, us, m, j, lk, smap);
    GrownMissesLess(g, ts, us);
    forall ref | IsReference(g, info, ts, ref)
      ensures Below(us, ref)
    {
      MergedBelow(g, info, ts, us, n, m, s, j, ref);
    }
    if chg {
      ChangeAddsLookahead(g, ts, us);
    } else {
      BlockCovers(g, info, ts, m, s, j, n);
    }
  }

  method AppendRules(g: Grammar, info: Info, ts: seq<Term>, smap: seq<nat>, n: nat, s: Sym, lk: set<Sym>)
    returns (us: seq<Term>)
    requires ValidGrammar(g) && Defined(g) && ValidInfo(g, info) && ItemSet(g, ts) && SmapOk(g, ts, smap) && n < |ts|
    requires ValidTerm(g, ts[n]) && Expects(g, ts[n], s) && SYM0 < s < g.nsy && smap[s - SYM0] == 0
    requires lk == Handed(g, info, ts[n]) && lk <= Tokens(g)
    ensures Contributed(g, info, ts, us, smap[s - SYM0 := |ts|], true)
  {
    var r := Rfind(g, s);
    ghost var added := ts + BlockFrom(g, s, r, lk);
    us := ts;
    var q := r;
    while q < |g.rules| && g.rules[q].lhs == s
      invariant r <= q <= |g.rules|
      invariant us + BlockFrom(g, s, q, lk) == added
    {
      us := us + [Term(q, 0, lk)];
      q := q + 1;
    }
    assert us == us + BlockFrom(g, s, q, lk);
    AppendedAll(g, info, ts, smap, n, s, r, lk);
  }

  lemma {:induction false} AppendedAll(g: Grammar, info: Info, ts: seq<Term>, smap: seq<nat>, n: nat, s: Sym, r: nat, lk: set<Sym>)
    requires ValidGrammar(g) && ValidInfo(g, info) && ItemSet(g, ts) && SmapOk(g, ts, smap) && n < |ts|
    requires ValidTerm(g, ts[n]) && Expects(g, ts[n], s) && SYM0 < s < g.nsy && smap[s - SYM0] == 0
    requires lk == Handed(g, info, ts[n]) && lk <= Tokens(g) && IsFirstRule(g, s, r)
    ensures Contributed(g, info, ts, ts + BlockFrom(g, s, r, lk), smap[s - SYM0 := |ts|], true)
  {
    AppendedKeeps(g, ts, n, smap, s - SYM0, r, lk);
    GrownMissesLess(g, ts, ts + BlockFrom(g, s, r, lk));
    FreshRule(g, ts, smap, s - SYM0, r, lk);
    forall ref | IsReference(g, info, ts, ref)
      ensures Below(ts + BlockFrom(g, s, r, lk), ref)
    {
      AppendedBelow(g, info, ts, n, s, r, ref);
    }
  }

  lemma {:induction false} NothingContributed(g: Grammar, info: Info, ts: seq<Term>, smap: seq<nat>)
    requires ItemSet(g, ts) && SmapOk(g, ts, smap)
    ensures Contributed(g, info, ts, ts, smap, false)
  {
  }

  /** Let term n contribute; tell whether anything changed. */
  method CloseTerm(g: Grammar, info: Info, ts: seq<Term>, smap: seq<nat>, n: nat)
    returns (us: seq<Term>, smap': seq<nat>, chg: bool)
    requires ValidGrammar(g) && Defined(g) && ValidInfo(g, info)
    requires ItemSet(g, ts) && SmapOk(g, ts, smap) && n < |ts|
    ensures Contributed(g, info, ts, us, smap', chg)
    ensures !chg ==> ClosedFor(g, info, ts, ts[n])
  {
    var t := ts[n];
    assert ValidTerm(g, t) && ValidRule(g, g.rules[t.rule]);
    if t.dot == |g.rules[t.rule].rhs| || g.rules[t.rule].rhs[t.dot] < SYM0 {
      NoRules(g, info, ts, t);
      NothingContributed(g, info, ts, smap);
      return ts, smap, false;
    }
    var s := g.rules[t.rule].rhs[t.dot];
    assert IsNonterminal(g, s) && s != SYM0;
    var lk := Handed(g, info, t);
    FirstTokens(g, info, Rest(g, t), t.lk);
    if smap[s - SYM0] != 0 {
      us, chg := MergeLookaheads(g, info, ts, smap, n, s, lk);
      smap' := smap;
    } else {
      us := AppendRules(g, info, ts, smap, n, s, lk);
      smap', chg := smap[s - SYM0 := |ts|], true;
    }
  }

  lemma {:induction false} NoRules(g: Grammar, info: Info, ts: seq<Term>, t: Term)
    requires ValidGrammar(g) && ValidInfo(g, info) && ValidTerm(g, t)
    requires t.dot == |g.rules[t.rule].rhs| || g.rules[t.rule].rhs[t.dot] < SYM0
    ensures ClosedFor(g, info, ts, t)
  {
    forall r | 0 <= r < |g.rules|
      ensures g.rules[r].lhs >= SYM0
    {
      assert ValidRule(g, g.rules[r]);
    }
  }

  lemma {:induction false} FreshRule(g: Grammar, ts: seq<Term>, smap: seq<nat>, s: nat, r: nat, lk: set<Sym>)
    requires Blocked(g, ts) && SmapOk(g, ts, smap) && 0 < s < |smap| && smap[s] == 0
    requires IsFirstRule(g, SYM0 + s, r)
    ensures MissingRules(g, ts + BlockFrom(g, SYM0 + s, r, lk)) < MissingRules(g, ts)
  {
    var us := ts + BlockFrom(g, SYM0 + s, r, lk);
    BlockIs(g, SYM0 + s, r, lk);
    GrownMissesLess(g, ts, us);
    AppendedAt(g, ts, SYM0 + s, r, lk, |ts|);
    assert HasFront(us, r);
    forall i | 0 <= i < |ts|
      ensures CoreOf(ts[i]) != (r, 0)
    {
      NoneOf(g, ts, smap, s, i);
    }
    assert r in MissingRules(g, ts) && r !in MissingRules(g, us);
  }

  lemma {:induction false} ContributedTwice(
    g: Grammar, info: Info, ts0: seq<Term>, ts: seq<Term>, us: seq<Term>, smap: seq<nat>, a: bool, b: bool)
    requires Grown(ts0, ts) && Progress(g, ts0, ts, a) && Least(g, info, ts0, ts)
    requires Contributed(g, info, ts, us, smap, b)
    ensures Contributed(g, info, ts0, us, smap, a || b)
  {
    GrownTransitive(ts0, ts, us);
    ReferenceStays(g, info, ts0, ts, us);
  }

  /** What the pass keeps: the first n terms have contributed. */
  ghost predicate PassInv(g: Grammar, info: Info, ts0: seq<Term>, ts: seq<Term>, smap: seq<nat>, chg: bool, n: nat) {
    && ValidGrammar(g) && ValidInfo(g, info) && n <= |ts| && Contributed(g, info, ts0, ts, smap, chg)
    && (!chg ==> forall k :: 0 <= k < n ==> ClosedFor(g, info, ts, ts[k]))
  }

  lemma {:induction false} PassStep(
    g: Grammar, info: Info, ts0: seq<Term>, ts: seq<Term>, smap: seq<nat>, chg: bool, n: nat,
    us: seq<Term>, smap': seq<nat>, c: bool)
    requires PassInv(g, info, ts0, ts, smap, chg, n) && n < |ts|
    requires Contributed(g, info, ts, us, smap', c) && (!c ==> ClosedFor(g, info, ts, ts[n]))
    ensures PassInv(g, info, ts0, us, smap', chg || c, n + 1)
    ensures MissingRules(g, us) < MissingRules(g, ts) || (MissingRules(g, us) == MissingRules(g, ts) && |us| == |ts|)
  {
    ContributedTwice(g, info, ts0, ts, us, smap', chg, c);
  }

  /** Let every term contribute once. */
  method ClosePass(g: Grammar, info: Info, ts0: seq<Term>, smap0: seq<nat>)
    returns (ts: seq<Term>, smap: seq<nat>, chg: bool)
    requires ValidGrammar(g) && Defined(g) && ValidInfo(g, info)
    requires ItemSet(g, ts0) && SmapOk(g, ts0, smap0)
    ensures Contributed(g, info, ts0, ts, smap, chg)
    ensures !chg ==> Closed(g, info, ts)
  {
    ts, smap, chg := ts0, smap0, false;
    NothingContributed(g, info, ts, smap);
    var n := 0;
    while n < |ts|
      invariant PassInv(g, info, ts0, ts, smap, chg, n)
      decreases MissingRules(g, ts), |ts| - n
    {
      var us, smap', c := CloseTerm(g, info, ts, smap, n);
      PassStep(g, info, ts0, ts, smap, chg, n, us, smap', c);
      ts, smap, chg := us, smap', chg || c;
      n := n + 1;
    }
  }

  /** Close an item set.  The result holds the given terms, is closed, and is
      least: it lies below every closed set of terms that lies above the given ones. */
  method Iclose(g: Grammar, info: Info, ts0: seq<Term>) returns (ts: seq<Term>)
    requires ValidGrammar(g) && Defined(g) && ValidInfo(g, info) && ItemSet(g, ts0)
    ensures ItemSet(g, ts) && Grown(ts0, ts) && Closed(g, info, ts)
    ensures Least(g, info, ts0, ts)
  {
    var smap := InitSmap(g, ts0);
    ts := ts0;
    NothingContributed(g, info, ts, smap);
    var chg := true;
    while chg
      invariant ItemSet(g, ts) && SmapOk(g, ts, smap) && Grown(ts0, ts) && Least(g, info, ts0, ts)
      invariant !chg ==> Closed(g, info, ts)
      decreases MissingRules(g, ts), MissingLookaheads(g, ts), chg
    {
      ghost var before := ts;
      ts, smap, chg := ClosePass(g, info, ts, smap);
      GrownTransitive(ts0, before, ts);
      ReferenceStays(g, info, ts0, before, ts);
    }
  }

  lemma {:induction false} ReferenceStays(g: Grammar, info: Info, ts0: seq<Term>, ts: seq<Term>, us: seq<Term>)
    requires Least(g, info, ts0, ts) && Least(g, info, ts, us)
    ensures Least(g, info, ts0, us)
  {
    forall ref | IsReference(g, info, ts0, ref)
      ensures Below(us, ref)
    {
      assert IsReference(g, info, ts, ref);
    }
  }
}
