/**
  Which nonterminals derive the empty string, and which tokens can begin what a
  symbol derives: computed by iteration to a fixpoint, and exact.
*/
module FirstSets {
  import opened Grammars

  /** The computed tables, one entry per symbol number. */
  datatype Info = Info(nul: seq<bool>, fst: seq<set<Sym>>)

  predicate ValidInfo(g: Grammar, info: Info) {
    && |info.nul| == |info.fst| == g.nsy
    && (forall s :: 0 <= s < g.nsy ==> info.fst[s] <= Tokens(g))
    && (forall s :: 0 <= s < g.ntk && s < g.nsy ==> !info.nul[s])
  }

  function Tokens(g: Grammar): set<Sym> {
    set t: nat | t < g.ntk && IsToken(g, t)
  }

  /** Tokens that can begin the string; those of `last` if all of it can vanish. */
  function First(g: Grammar, info: Info, a: seq<Sym>, last: set<Sym>): set<Sym>
    requires ValidInfo(g, info) && ValidString(g, a)
  {
    if a == [] then last
    else if a[0] < g.ntk then {a[0]}
    else
      assert ValidSym(g, a[0]);
      (if info.nul[a[0]] then First(g, info, a[1..], last) else {}) + info.fst[a[0]]
  }

  predicate AllNul(g: Grammar, info: Info, a: seq<Sym>)
    requires ValidInfo(g, info) && ValidString(g, a)
  {
    forall i :: 0 <= i < |a| ==> ValidSym(g, a[i]) && a[i] < g.nsy && info.nul[a[i]]
  }

  // ---------- What the tables mean ----------

  const NOTHING: seq<Sym> := []

  ghost predicate CanVanish(g: Grammar, a: seq<Sym>) { Derives(g, a, []) }

  ghost predicate CanBegin(g: Grammar, a: seq<Sym>, t: Sym) {
    exists b :: Derives(g, a, [t] + b)
  }

  ghost predicate SoundAt(g: Grammar, info: Info, s: Sym)
    requires ValidInfo(g, info) && s < g.nsy
  {
    && (info.nul[s] ==> CanVanish(g, [s]))
    && (forall t :: t in info.fst[s] ==> CanBegin(g, [s], t))
  }

  ghost predicate SoundInfo(g: Grammar, info: Info)
    requires ValidInfo(g, info)
  {
    forall s :: 0 <= s < g.nsy ==> SoundAt(g, info, s)
  }

  /** The tables already hold what the rule adds to them. */
  predicate ClosedRule(g: Grammar, info: Info, r: nat)
    requires ValidGrammar(g) && ValidInfo(g, info) && r < |g.rules|
  {
    assert ValidRule(g, g.rules[r]);
    var rule := g.rules[r];
    && (AllNul(g, info, rule.rhs) ==> info.nul[rule.lhs])
    && First(g, info, rule.rhs, {}) <= info.fst[rule.lhs]
  }

  predicate ClosedInfo(g: Grammar, info: Info)
    requires ValidGrammar(g) && ValidInfo(g, info)
  {
    forall r :: 0 <= r < |g.rules| ==> ClosedRule(g, info, r)
  }

  lemma {:induction false} FirstTokens(g: Grammar, info: Info, a: seq<Sym>, last: set<Sym>)
    requires ValidInfo(g, info) && ValidString(g, a) && last <= Tokens(g)
    ensures First(g, info, a, last) <= Tokens(g)
  {
    if a != [] {
      assert ValidSym(g, a[0]);
      FirstTokens(g, info, a[1..], last);
    }
  }

  lemma {:induction false} AllNulVanishes(g: Grammar, info: Info, a: seq<Sym>)
    requires ValidInfo(g, info) && ValidString(g, a) && SoundInfo(g, info) && AllNul(g, info, a)
    ensures CanVanish(g, a)
  {
    if a == [] {
      DerivesSelf(g, []);
    } else {
      assert SoundAt(g, info, a[0]);
      AllNulVanishes(g, info, a[1..]);
      DerivesConcat(g, [a[0]], [], a[1..], []);
      assert [a[0]] + a[1..] == a && NOTHING + NOTHING == NOTHING;
    }
  }

  lemma {:induction false} BeginConcat(g: Grammar, a: seq<Sym>, c: seq<Sym>, t: Sym)
    requires CanBegin(g, a, t)
    ensures CanBegin(g, a + c, t)
  {
    var b :| Derives(g, a, [t] + b);
    DerivesSelf(g, c);
    DerivesConcat(g, a, [t] + b, c, c);
    assert [t] + b + c == [t] + (b + c);
  }

  /** Tables that are sound for single symbols are sound for strings. */
  lemma {:induction false} FirstSound(g: Grammar, info: Info, a: seq<Sym>, last: set<Sym>, t: Sym)
    requires ValidInfo(g, info) && ValidString(g, a) && SoundInfo(g, info)
    requires t in First(g, info, a, last)
    ensures CanBegin(g, a, t) || (t in last && CanVanish(g, a))
  {
    if a == [] {
      DerivesSelf(g, []);
    } else {
      assert ValidSym(g, a[0]);
      assert [a[0]] + a[1..] == a;
      if a[0] < g.ntk {
        DerivesSelf(g, a);
        assert a == [t] + a[1..];
      } else {
        assert SoundAt(g, info, a[0]);
        if t in info.fst[a[0]] {
          BeginConcat(g, [a[0]], a[1..], t);
        } else {
          FirstSound(g, info, a[1..], last, t);
          if CanBegin(g, a[1..], t) {
            var b :| Derives(g, a[1..], [t] + b);
            DerivesConcat(g, [a[0]], [], a[1..], [t] + b);
            assert [] + ([t] + b) == [t] + b;
          } else {
            DerivesConcat(g, [a[0]], [], a[1..], []);
            assert NOTHING + NOTHING == NOTHING;
          }
        }
      }
    }
  }

  // ---------- Completeness at the fixpoint ----------

  lemma {:induction false} VanishingIsNul(g: Grammar, info: Info, a: seq<Sym>, n: nat)
    requires ValidGrammar(g) && ValidInfo(g, info) && ClosedInfo(g, info) && ValidString(g, a)
    requires DerivesIn(g, a, [], n)
    ensures AllNul(g, info, a)
    decreases n
  {
    if n > 0 {
      var c :| Step(g, a, c) && DerivesIn(g, c, [], n - 1);
      var i: nat, r: nat :| StepAt(g, a, c, i, r);
      StepValid(g, a, c, i, r);
      VanishingIsNul(g, info, c, n - 1);
      NulStep(g, info, a, c, i, r);
    }
  }

  lemma {:induction false} NulStep(g: Grammar, info: Info, a: seq<Sym>, c: seq<Sym>, i: nat, r: nat)
    requires ValidGrammar(g) && ValidInfo(g, info) && ClosedInfo(g, info) && ValidString(g, a) && ValidString(g, c)
    requires StepAt(g, a, c, i, r) && AllNul(g, info, c)
    ensures AllNul(g, info, a)
  {
    var rhs := g.rules[r].rhs;
    assert ValidRule(g, g.rules[r]) && ClosedRule(g, info, r);
    forall k | 0 <= k < |rhs|
      ensures ValidSym(g, rhs[k]) && rhs[k] < g.nsy && info.nul[rhs[k]]
    {
      assert c[i + k] == rhs[k];
    }
    assert AllNul(g, info, rhs);
    forall k | 0 <= k < |a|
      ensures ValidSym(g, a[k]) && a[k] < g.nsy && info.nul[a[k]]
    {
      if k < i {
        assert c[k] == a[k];
      } else if k > i {
        assert c[k - 1 + |rhs|] == a[k];
      }
    }
  }

  lemma {:induction false} StepValid(g: Grammar, a: seq<Sym>, c: seq<Sym>, i: nat, r: nat)
    requires ValidGrammar(g) && ValidString(g, a) && StepAt(g, a, c, i, r)
    ensures ValidString(g, c) && ValidString(g, g.rules[r].rhs) && ValidString(g, a[..i]) && ValidString(g, a[i + 1..])
  {
    assert ValidRule(g, g.rules[r]);
  }

  lemma {:induction false} FirstAppend(g: Grammar, info: Info, a: seq<Sym>, b: seq<Sym>, last: set<Sym>)
    requires ValidInfo(g, info) && ValidString(g, a) && ValidString(g, b)
    ensures ValidString(g, a + b)
    ensures First(g, info, a + b, last) == First(g, info, a, First(g, info, b, last))
  {
    if a == [] {
      assert a + b == b;
    } else {
      assert (a + b)[1..] == a[1..] + b;
      FirstAppend(g, info, a[1..], b, last);
    }
  }

  lemma {:induction false} FirstSplit(g: Grammar, info: Info, a: seq<Sym>, last: set<Sym>)
    requires ValidInfo(g, info) && ValidString(g, a)
    ensures First(g, info, a, last) == First(g, info, a, {}) + if AllNul(g, info, a) then last else {}
  {
    if a != [] {
      assert ValidSym(g, a[0]);
      FirstSplit(g, info, a[1..], last);
      if AllNul(g, info, a) {
        assert AllNul(g, info, a[1..]);
      } else if a[0] >= g.ntk && info.nul[a[0]] {
        assert !AllNul(g, info, a[1..]);
      }
    }
  }

  lemma {:induction false} FirstMonotone(g: Grammar, info: Info, a: seq<Sym>, less: set<Sym>, more: set<Sym>)
    requires ValidInfo(g, info) && ValidString(g, a) && less <= more
    ensures First(g, info, a, less) <= First(g, info, a, more)
  {
    FirstSplit(g, info, a, less);
    FirstSplit(g, info, a, more);
  }

  lemma {:induction false} BeginningIsFirst(g: Grammar, info: Info, a: seq<Sym>, t: Sym, b: seq<Sym>, n: nat)
    requires ValidGrammar(g) && ValidInfo(g, info) && ClosedInfo(g, info) && ValidString(g, a)
    requires DerivesIn(g, a, [t] + b, n) && t < g.ntk
    ensures t in First(g, info, a, {})
    decreases n
  {
    if n == 0 {
    } else {
      var c :| Step(g, a, c) && DerivesIn(g, c, [t] + b, n - 1);
      var i: nat, r: nat :| StepAt(g, a, c, i, r);
      StepValid(g, a, c, i, r);
      BeginningIsFirst(g, info, c, t, b, n - 1);
      var x, y, rule := a[..i], a[i + 1..], g.rules[r];
      assert ValidRule(g, rule) && ClosedRule(g, info, r);
      FirstOfReplaced(g, info, x, r, y);
      assert a == x + ([rule.lhs] + y);
    }
  }

  /** Replacing a nonterminal by a right side of its own adds nothing to the first set. */
  lemma {:induction false} FirstOfReplaced(g: Grammar, info: Info, x: seq<Sym>, r: nat, y: seq<Sym>)
    requires ValidGrammar(g) && ValidInfo(g, info) && ValidString(g, x) && ValidString(g, y)
    requires r < |g.rules| && ValidRule(g, g.rules[r]) && ClosedRule(g, info, r)
    ensures First(g, info, x + g.rules[r].rhs + y, {}) <= First(g, info, x + ([g.rules[r].lhs] + y), {})
  {
    var rule, tail := g.rules[r], First(g, info, y, {});
    FirstAppend(g, info, x + rule.rhs, y, {});
    FirstAppend(g, info, x, rule.rhs, tail);
    FirstSplit(g, info, rule.rhs, tail);
    FirstAppend(g, info, x, [rule.lhs] + y, {});
    assert ([rule.lhs] + y)[1..] == y;
    assert First(g, info, rule.rhs, tail) <= First(g, info, [rule.lhs] + y, {});
    FirstMonotone(g, info, x, First(g, info, rule.rhs, tail), First(g, info, [rule.lhs] + y, {}));
  }

  ghost predicate ExactInfo(g: Grammar, info: Info)
    requires ValidGrammar(g) && ValidInfo(g, info)
  {
    SoundInfo(g, info) && ClosedInfo(g, info)
  }

  /** At a sound fixpoint, First is exact on every string of symbols. */
  lemma {:induction false} FirstExact(g: Grammar, info: Info, a: seq<Sym>, last: set<Sym>, t: Sym)
    requires ValidGrammar(g) && ValidInfo(g, info) && ExactInfo(g, info) && ValidString(g, a)
    requires t < g.ntk
    ensures t in First(g, info, a, last) <==> CanBegin(g, a, t) || (t in last && CanVanish(g, a))
    ensures AllNul(g, info, a) <==> CanVanish(g, a)
  {
    FirstSplit(g, info, a, last);
    if CanVanish(g, a) {
      var n: nat :| DerivesIn(g, a, [], n);
      VanishingIsNul(g, info, a, n);
    }
    if AllNul(g, info, a) {
      AllNulVanishes(g, info, a);
    }
    if CanBegin(g, a, t) {
      var b :| Derives(g, a, [t] + b);
      var n: nat :| DerivesIn(g, a, [t] + b, n);
      BeginningIsFirst(g, info, a, t, b, n);
    }
    if t in First(g, info, a, last) {
      FirstSound(g, info, a, last, t);
    }
  }

  // ---------- The iteration ----------

  function MissingNul(info: Info): set<Sym> {
    set s: nat | s < |info.nul| && !info.nul[s]
  }

  function MissingFirst(g: Grammar, info: Info): set<(Sym, Sym)>
  {
    set s: nat, t: nat | s < |info.fst| && t < g.ntk && t !in info.fst[s] :: (s, t)
  }

  /** A rule whose right side can vanish makes its left side nullable: still sound. */
  lemma {:induction false} NulApplied(g: Grammar, info: Info, r: nat)
    requires ValidGrammar(g) && r < |g.rules| && ValidRule(g, g.rules[r])
    requires ValidInfo(g, info) && SoundInfo(g, info) && AllNul(g, info, g.rules[r].rhs)
    ensures var x := g.rules[r].lhs;
      var j := info.(nul := info.nul[x := true]);
      && ValidInfo(g, j) && SoundInfo(g, j)
      && MissingNul(j) <= MissingNul(info)
      && (!info.nul[x] ==> MissingNul(j) < MissingNul(info))
  {
    var x := g.rules[r].lhs;
    var j := info.(nul := info.nul[x := true]);
    AllNulVanishes(g, info, g.rules[r].rhs);
    DerivesRule(g, r, []);
    forall s | 0 <= s < g.nsy
      ensures SoundAt(g, j, s)
    {
      assert SoundAt(g, info, s);
    }
    if !info.nul[x] {
      assert x in MissingNul(info) && x !in MissingNul(j);
    }
  }

  /** What can begin a rule's right side can begin its left side: still sound. */
  lemma {:induction false} FirstApplied(g: Grammar, info: Info, r: nat)
    requires ValidGrammar(g) && r < |g.rules| && ValidRule(g, g.rules[r])
    requires ValidInfo(g, info) && SoundInfo(g, info)
    ensures var x, ts := g.rules[r].lhs, First(g, info, g.rules[r].rhs, {});
      var j := info.(fst := info.fst[x := info.fst[x] + ts]);
      && ValidInfo(g, j) && SoundInfo(g, j)
      && MissingFirst(g, j) <= MissingFirst(g, info)
      && (!(ts <= info.fst[x]) ==> MissingFirst(g, j) < MissingFirst(g, info))
  {
    var rule, x := g.rules[r], g.rules[r].lhs;
    var ts := First(g, info, rule.rhs, {});
    FirstTokens(g, info, rule.rhs, {});
    forall t | t in ts
      ensures CanBegin(g, [x], t)
    {
      FirstSound(g, info, rule.rhs, {}, t);
      var b :| Derives(g, rule.rhs, [t] + b);
      DerivesRule(g, r, [t] + b);
    }
    var j := info.(fst := info.fst[x := info.fst[x] + ts]);
    forall s | 0 <= s < g.nsy
      ensures SoundAt(g, j, s)
    {
      assert SoundAt(g, info, s);
    }
    if !(ts <= info.fst[x]) {
      var t :| t in ts && t !in info.fst[x];
      assert (x, t) in MissingFirst(g, info) && (x, t) !in MissingFirst(g, j);
    }
  }

  class Symbols {
    const g: Grammar
    var info: Info

    constructor (g: Grammar)
      requires ValidGrammar(g)
      ensures this.g == g
      ensures info == Info(seq(g.nsy, i => false), seq(g.nsy, i => {}))
    {
      this.g := g;
      info := Info(seq(g.nsy, i => false), seq(g.nsy, i => {}));
    }

    /** Let one rule add to the tables; tell whether it added anything. */
    method ApplyRule(r: nat) returns (chg: bool)
      requires ValidGrammar(g) && r < |g.rules| && ValidInfo(g, info) && SoundInfo(g, info)
      modifies this`info
      ensures ValidInfo(g, info) && SoundInfo(g, info)
      ensures !chg ==> info == old(info) && ClosedRule(g, info, r)
      ensures MissingNul(info) <= MissingNul(old(info))
      ensures MissingFirst(g, info) <= MissingFirst(g, old(info))
      ensures chg ==> MissingNul(info) < MissingNul(old(info)) || MissingFirst(g, info) < MissingFirst(g, old(info))
    {
      assert ValidRule(g, g.rules[r]);
      var rule := g.rules[r];
      var x := rule.lhs;
      ghost var info0 := info;
      chg := false;
      var i := 0;
      while i < |rule.rhs| && info.nul[rule.rhs[i]]
        invariant 0 <= i <= |rule.rhs|
        invariant forall k :: 0 <= k < i ==> info.nul[rule.rhs[k]]
      {
        i := i + 1;
      }
      if i == |rule.rhs| {
        NulApplied(g, info, r);
        chg := !info.nul[x];
        info := info.(nul := info.nul[x := true]);
      }
      var ts := First(g, info, rule.rhs, {});
      FirstApplied(g, info, r);
      if !(ts <= info.fst[x]) {
        chg := true;
      }
      ghost var info1 := info;
      info := info.(fst := info.fst[x := info.fst[x] + ts]);
      if !chg {
        assert info1.nul == info0.nul;
        assert info.fst[x] == info1.fst[x];
        assert info.fst == info0.fst;
      }
    }

    /** Compute both tables; they come out exact. */
    method Ginit()
      requires ValidGrammar(g)
      requires info == Info(seq(g.nsy, i => false), seq(g.nsy, i => {}))
      modifies this`info
      ensures ValidInfo(g, info) && ExactInfo(g, info)
    {
      var chg := true;
      while chg
        invariant ValidInfo(g, info) && SoundInfo(g, info)
        invariant !chg ==> ClosedInfo(g, info)
        decreases MissingNul(info), MissingFirst(g, info), chg
      {
        ghost var before := info;
        chg := false;
        var r := 0;
        while r < |g.rules|
          invariant 0 <= r <= |g.rules| && ValidInfo(g, info) && SoundInfo(g, info)
          invariant MissingNul(info) <= MissingNul(before)
          invariant MissingFirst(g, info) <= MissingFirst(g, before)
          invariant !chg ==> info == before && forall k :: 0 <= k < r ==> ClosedRule(g, info, k)
          invariant chg ==>
            MissingNul(info) < MissingNul(before) || MissingFirst(g, info) < MissingFirst(g, before)
        {
          var c := ApplyRule(r);
          chg := chg || c;
          r := r + 1;
        }
      }
    }
  }
}
