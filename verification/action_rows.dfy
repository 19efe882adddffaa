/**
  The uncompressed parser tables: conflict resolution by precedence, the action
  row of each state, the goto column of each nonterminal, and the extraction of
  a row's most frequent entry as its default.
*/
module ActionRows {
  import opened Options
  import opened Grammars
  import opened Automata

  datatype Assoc = ANone | ALeft | ARight | ANonassoc

  /** Precedences of rules and tokens, 0 for none.  `stray` is whatever the
      memory in front of the rule table holds where a rule's precedence would be. */
  datatype Precedence = Precedence(rule: seq<nat>, token: seq<nat>, assoc: seq<Assoc>, stray: nat)

  predicate ValidPrecedence(g: Grammar, p: Precedence) {
    |p.rule| == |g.rules| && |p.token| == |p.assoc| == g.ntk
  }

  /** The table entry for reducing by rule r; Red(Red(x)) is x. */
  function Red(n: int): int { -(n + 2) }

  /** Keep the shift (ARight), the reduction (ALeft) or neither (ANonassoc). */
  function Resolve(p: Precedence, rulePrec: nat, s: Sym): (a: Assoc)
    requires s < |p.token| == |p.assoc|
    ensures a != ANone
  {
    if rulePrec == 0 || p.token[s] == 0 then ARight
    else if rulePrec == p.token[s] then
      if p.assoc[s] == ANone then ARight else p.assoc[s]
    else if rulePrec < p.token[s] then ARight
    else ALeft
  }

  function RulePrec(p: Precedence, r: int): nat {
    if 0 <= r < |p.rule| then p.rule[r] else p.stray
  }

  /** One term's effect on a state's entry for token s: 0 none, positive shift,
      -1 error, below -1 reduce. */
  function Combine(g: Grammar, p: Precedence, q: State, t: Term, s: Sym, cur: int): int
    requires ValidPrecedence(g, p) && s < g.ntk && s < |q.gtbl|
    requires ValidTerm(g, t) && (Expects(g, t, s) ==> q.gtbl[s].Some?)
  {
    if Expects(g, t, s) then
      var id := q.gtbl[s].value + 1;
      var act := if cur != 0 && cur != id then Resolve(p, RulePrec(p, Red(cur)), s) else ARight;
      match act
      case ARight => id
      case ANonassoc => -1
      case _ => cur
    else if IsComplete(g, t) && s in t.lk then
      var act := if cur == 0 then ALeft else if cur < 0 then ARight else Resolve(p, RulePrec(p, t.rule), s);
      match act
      case ALeft => Red(t.rule)
      case ANonassoc => -1
      case _ => cur
    else cur
  }

  predicate Ready(g: Grammar, p: Precedence, q: State) {
    && 0 < g.ntk <= g.nsy && ValidPrecedence(g, p) && |q.gtbl| == g.nsy
    && (forall i :: 0 <= i < |q.ts| ==> ReadyTerm(g, q, q.ts[i]))
  }

  predicate ReadyTerm(g: Grammar, q: State, t: Term)
    requires |q.gtbl| == g.nsy
  {
    ValidTerm(g, t) && forall s :: 0 <= s < g.nsy && Expects(g, t, s) ==> q.gtbl[s].Some?
  }

  /** The entry after the first n terms. */
  function Entry(g: Grammar, p: Precedence, q: State, s: Sym, n: nat): int
    requires Ready(g, p, q) && s < g.ntk && n <= |q.ts|
  {
    if n == 0 then 0
    else
      assert ReadyTerm(g, q, q.ts[n - 1]);
      Combine(g, p, q, q.ts[n - 1], s, Entry(g, p, q, s, n - 1))
  }

  // ---------- What entries mean ----------

  /** The entry stands for something the state can do on token s. */
  ghost predicate Legal(g: Grammar, q: State, s: Sym, e: int) {
    && (e > 0 ==> s < |q.gtbl| && q.gtbl[s] == Some(e - 1))
    && (e < -1 ==> Reduces(g, q, Red(e), s))
  }

  ghost predicate Reduces(g: Grammar, q: State, r: int, s: Sym) {
    exists i :: 0 <= i < |q.ts| && q.ts[i].rule == r && IsComplete(g, q.ts[i]) && s in q.ts[i].lk
  }

  /** One of the first n terms acts on s. */
  ghost predicate Acts(g: Grammar, q: State, s: Sym, n: nat)
    requires n <= |q.ts|
  {
    exists i :: 0 <= i < n && ActsOn(g, q.ts[i], s)
  }

  predicate ActsOn(g: Grammar, t: Term, s: Sym) {
    Expects(g, t, s) || (IsComplete(g, t) && s in t.lk)
  }

  /** Every entry is legal, and an entry is empty only if no term acts on the token. */
  lemma {:induction false} EntryLegal(g: Grammar, p: Precedence, q: State, s: Sym, n: nat)
    requires Ready(g, p, q) && s < g.ntk && n <= |q.ts|
    ensures Legal(g, q, s, Entry(g, p, q, s, n))
    ensures Entry(g, p, q, s, n) == 0 <==> !Acts(g, q, s, n)
  {
    if n > 0 {
      EntryLegal(g, p, q, s, n - 1);
      var t := q.ts[n - 1];
      assert ReadyTerm(g, q, t);
      assert Acts(g, q, s, n) <==> Acts(g, q, s, n - 1) || ActsOn(g, t, s);
      if IsComplete(g, t) && s in t.lk {
        assert Reduces(g, q, t.rule, s);
      }
    }
  }

  /** A shift and a reduction on the same token are resolved the same way in
      whichever order the state lists them. */
  lemma {:induction false} ResolutionOrder(g: Grammar, p: Precedence, q: State, t: Term, u: Term, s: Sym)
    requires ValidPrecedence(g, p) && s < g.ntk && s < |q.gtbl| && q.gtbl[s].Some?
    requires ValidTerm(g, t) && ValidTerm(g, u)
    requires Expects(g, t, s) && IsComplete(g, u) && s in u.lk
    ensures var shift, reduce := q.gtbl[s].value + 1, Red(u.rule);
      var e := Combine(g, p, q, u, s, Combine(g, p, q, t, s, 0));
      && e == Combine(g, p, q, t, s, Combine(g, p, q, u, s, 0))
      && (e == shift || e == reduce || e == -1)
      && (p.rule[u.rule] == 0 || p.token[s] == 0 || p.rule[u.rule] < p.token[s] ==> e == shift)
      && (p.rule[u.rule] > p.token[s] > 0 ==> e == reduce)
      && (p.rule[u.rule] == p.token[s] > 0 ==>
            e == match p.assoc[s] case ALeft => reduce case ANonassoc => -1 case _ => shift)
  {
  }

  // ---------- Several terms on one token ----------

  predicate ReducesOn(g: Grammar, t: Term, s: Sym) { IsComplete(g, t) && s in t.lk }

  /** One of the first n terms shifts s. */
  predicate ShiftsBy(g: Grammar, q: State, s: Sym, n: nat)
    requires n <= |q.ts|
  {
    exists i :: 0 <= i < n && Expects(g, q.ts[i], s)
  }

  /** No term before the i-th reduces on s. */
  predicate FirstReduction(g: Grammar, q: State, s: Sym, i: nat)
    requires i < |q.ts|
  {
    ReducesOn(g, q.ts[i], s) && forall j :: 0 <= j < i ==> !ReducesOn(g, q.ts[j], s)
  }

  /** Without a shift, the first listed reduction stands, and later ones change nothing. */
  lemma {:induction false} FirstReductionStands(g: Grammar, p: Precedence, q: State, s: Sym, i: nat, n: nat)
    requires Ready(g, p, q) && s < g.ntk && i < n <= |q.ts|
    requires FirstReduction(g, q, s, i) && !ShiftsBy(g, q, s, n)
    ensures Entry(g, p, q, s, n) == Red(q.ts[i].rule)
    decreases n
  {
    assert ReadyTerm(g, q, q.ts[n - 1]);
    assert !Expects(g, q.ts[n - 1], s);
    assert !ShiftsBy(g, q, s, n - 1);
    if n - 1 > i {
      FirstReductionStands(g, p, q, s, i, n - 1);
    } else {
      NothingYet(g, p, q, s, i);
    }
  }

  lemma {:induction false} NothingYet(g: Grammar, p: Precedence, q: State, s: Sym, n: nat)
    requires Ready(g, p, q) && s < g.ntk && n <= |q.ts|
    requires forall j :: 0 <= j < n ==> !ActsOn(g, q.ts[j], s)
    ensures Entry(g, p, q, s, n) == 0
  {
    EntryLegal(g, p, q, s, n);
  }

  /** Beside a shift, a reduction is weighed against it if it is the first of all, or
      comes after a term that shifts; any other comes too late and is dropped. */
  predicate Weighed(g: Grammar, q: State, s: Sym, i: nat)
    requires i < |q.ts|
  {
    ReducesOn(g, q.ts[i], s) && (FirstReduction(g, q, s, i) || ShiftsBy(g, q, s, i))
  }

  function Verdict(p: Precedence, q: State, s: Sym, i: nat): Assoc
    requires i < |q.ts| && s < |p.token| == |p.assoc| && q.ts[i].rule < |p.rule|
  {
    Resolve(p, p.rule[q.ts[i].rule], s)
  }

  /** All weighed reductions among the first n terms lose against the shift. */
  predicate AllLose(g: Grammar, p: Precedence, q: State, s: Sym, n: nat)
    requires Ready(g, p, q) && s < g.ntk && n <= |q.ts|
  {
    forall i :: 0 <= i < n && Weighed(g, q, s, i) ==> ReadyTerm(g, q, q.ts[i]) && Verdict(p, q, s, i) == ARight
  }

  /** A shift stays, if every reduction that is weighed against it loses. */
  lemma {:induction false} ShiftStands(g: Grammar, p: Precedence, q: State, s: Sym, n: nat)
    requires Ready(g, p, q) && s < g.ntk && n <= |q.ts| && ShiftsBy(g, q, s, n) && AllLose(g, p, q, s, n)
    ensures s < |q.gtbl| && q.gtbl[s].Some? && Entry(g, p, q, s, n) == q.gtbl[s].value + 1
    decreases n
  {
    var t := q.ts[n - 1];
    assert ReadyTerm(g, q, t);
    if ShiftsBy(g, q, s, n - 1) {
      ShiftStands(g, p, q, s, n - 1);
      assert ReducesOn(g, t, s) ==> Weighed(g, q, s, n - 1);
    } else {
      assert Expects(g, t, s);
      FirstShift(g, p, q, s, n - 1);
    }
  }

  /** The first shift meets the first reduction, if there was one. */
  lemma {:induction false} FirstShift(g: Grammar, p: Precedence, q: State, s: Sym, n: nat)
    requires Ready(g, p, q) && s < g.ntk && n < |q.ts| && !ShiftsBy(g, q, s, n) && AllLose(g, p, q, s, n)
    requires Expects(g, q.ts[n], s)
    ensures s < |q.gtbl| && q.gtbl[s].Some? && Entry(g, p, q, s, n + 1) == q.gtbl[s].value + 1
  {
    assert ReadyTerm(g, q, q.ts[n]);
    if i :| 0 <= i < n && FirstReduction(g, q, s, i) {
      FirstReductionStands(g, p, q, s, i, n);
      assert Weighed(g, q, s, i);
    } else {
      NoneIsFirst(g, q, s, n);
      NothingYet(g, p, q, s, n);
    }
  }

  lemma {:induction false} NoneIsFirst(g: Grammar, q: State, s: Sym, n: nat)
    requires n <= |q.ts| && forall i :: 0 <= i < n ==> !FirstReduction(g, q, s, i)
    ensures forall i :: 0 <= i < n ==> !ReducesOn(g, q.ts[i], s)
  {
    if n > 0 {
      NoneIsFirst(g, q, s, n - 1);
      assert !FirstReduction(g, q, s, n - 1);
    }
  }

  /** The first weighed reduction that beats the shift is the entry for good. */
  lemma {:induction false} WinnerStands(g: Grammar, p: Precedence, q: State, s: Sym, i: nat, n: nat)
    requires Ready(g, p, q) && s < g.ntk && i < n <= |q.ts| && Weighed(g, q, s, i) && AllLose(g, p, q, s, i)
    requires ReadyTerm(g, q, q.ts[i]) && Verdict(p, q, s, i) == ALeft
    ensures Entry(g, p, q, s, n) == Red(q.ts[i].rule)
    decreases n
  {
    assert ReadyTerm(g, q, q.ts[n - 1]);
    if n - 1 > i {
      WinnerStands(g, p, q, s, i, n - 1);
    } else if ShiftsBy(g, q, s, i) {
      ShiftStands(g, p, q, s, i);
    } else {
      FirstReductionStands(g, p, q, s, i, n);
    }
  }

  /** So is an error, if the first that does not lose has the shift's precedence and is
      not associative, up to the next term that shifts; the k-th is the last before. */
  lemma {:induction false} ErrorStands(g: Grammar, p: Precedence, q: State, s: Sym, i: nat, k: nat, n: nat)
    requires Ready(g, p, q) && s < g.ntk && i < n <= |q.ts| && Weighed(g, q, s, i) && AllLose(g, p, q, s, i)
    requires ReadyTerm(g, q, q.ts[i]) && Verdict(p, q, s, i) == ANonassoc
    requires k < n && Expects(g, q.ts[k], s) && forall j :: k < j < n ==> !Expects(g, q.ts[j], s)
    requires k > i ==> !ShiftsBy(g, q, s, k)
    ensures Entry(g, p, q, s, n) == -1
    decreases n
  {
    assert ReadyTerm(g, q, q.ts[n - 1]);
    if n - 1 > i && n - 1 > k {
      ErrorStands(g, p, q, s, i, k, n - 1);
    } else if k < i {
      assert ShiftsBy(g, q, s, i);
      ShiftStands(g, p, q, s, i);
    } else {
      FirstReductionStands(g, p, q, s, i, k);
    }
  }

  // ---------- Default extraction ----------

  function Count(t: seq<int>, x: int): nat {
    if t == [] then 0 else (if t[0] == x then 1 else 0) + Count(t[1..], x)
  }

  /** A table row with its default and its number of empty entries. */
  datatype Row = Row(def: int, ndef: nat, t: seq<int>)

  /** Entries that may become the default. */
  predicate Eligible(x: int, top: int) { x < top && x != 0 }

  /** r is row t with its most frequent eligible entry, if any, taken out as default. */
  predicate IsDefaulted(t: seq<int>, top: int, r: Row) {
    && |r.t| == |t|
    && r.ndef == Count(r.t, 0)
    && ((r.def == -1 && r.t == t && (forall x :: x in t ==> !Eligible(x, top)))
        || (r.def in t && Eligible(r.def, top)
            && (forall x :: x in t && Eligible(x, top) ==> Count(t, x) <= Count(t, r.def))
            && (forall n :: 0 <= n < |t| ==> r.t[n] == if t[n] == r.def then 0 else t[n])))
  }

  lemma {:induction false} CountAppend(t: seq<int>, u: seq<int>, x: int)
    ensures Count(t + u, x) == Count(t, x) + Count(u, x)
  {
    if t == [] {
      assert t + u == u;
    } else {
      assert (t + u)[1..] == t[1..] + u;
      CountAppend(t[1..], u, x);
    }
  }

  lemma {:induction false} CountSnoc(t: seq<int>, n: nat, x: int)
    requires n < |t|
    ensures Count(t[..n + 1], x) == Count(t[..n], x) + if t[n] == x then 1 else 0
    ensures Count(t[n..], x) == Count(t[n + 1..], x) + if t[n] == x then 1 else 0
    ensures Count(t, x) == Count(t[..n], x) + Count(t[n..], x)
  {
    assert t[..n + 1] == t[..n] + [t[n]] && t[n..] == [t[n]] + t[n + 1..] && t == t[..n] + t[n..];
    CountAppend(t[..n], [t[n]], x);
    CountAppend(t[..n], t[n..], x);
  }

  lemma {:induction false} CountPositive(t: seq<int>, x: int)
    ensures Count(t, x) > 0 <==> x in t
  {
    if t != [] {
      CountPositive(t[1..], x);
    }
  }

  /** How often t[n] occurs from position n on. */
  method CountFrom(t: seq<int>, n: nat) returns (cnt: nat)
    requires n < |t|
    ensures cnt == Count(t[n..], t[n])
  {
    cnt := 1;
    var m := n + 1;
    assert t[n..] == [t[n]] + t[n + 1..];
    while m < |t|
      invariant n < m <= |t|
      invariant cnt + Count(t[m..], t[n]) == Count(t[n..], t[n])
    {
      CountSnoc(t, m, t[n]);
      if t[m] == t[n] {
        cnt := cnt + 1;
      }
      m := m + 1;
    }
  }

  /** The most frequent eligible entry, or none. */
  method MostFrequent(t: seq<int>, top: int) returns (def: int, max: nat, zeros: nat)
    ensures zeros == Count(t, 0)
    ensures max == 0 ==> def == -1 && forall x :: x in t ==> !Eligible(x, top)
    ensures max != 0 ==> def in t && Eligible(def, top) && max == Count(t, def)
    ensures forall x :: x in t && Eligible(x, top) ==> Count(t, x) <= max
  {
    def, max, zeros := -1, 0, 0;
    var n := 0;
    while n < |t|
      invariant 0 <= n <= |t| && zeros == Count(t[..n], 0)
      invariant max == 0 ==> def == -1
      invariant max != 0 ==> def in t[..n] && Eligible(def, top) && max == Count(t, def)
      invariant forall k :: 0 <= k < n && Eligible(t[k], top) ==> Count(t, t[k]) <= max
    {
      var x := t[n];
      CountSnoc(t, n, 0);
      CountSnoc(t, n, x);
      if x == 0 {
        zeros := zeros + 1;
      }
      if !(x >= top || x == 0) {
        var cnt := CountFrom(t, n);
        CountPositive(t[..n], x);
        if cnt > max {
          assert x !in t[..n];
          def, max := x, cnt;
        }
      }
      assert t[n] in t[..n + 1] && forall y :: y in t[..n] ==> y in t[..n + 1];
      n := n + 1;
    }
    assert t[..n] == t;
    forall x | x in t
      ensures Count(t, x) > 0
    {
      CountPositive(t, x);
    }
  }

  /** Take a row's most frequent eligible entry out as its default. */
  method SetDef(t: seq<int>, top: int) returns (r: Row)
    ensures IsDefaulted(t, top, r)
  {
    var def, max, ndef := MostFrequent(t, top);
    var row := t;
    if max != 0 {
      var n := 0;
      while n < |row|
        invariant 0 <= n <= |row| == |t|
        invariant forall k :: 0 <= k < n ==> row[k] == if t[k] == def then 0 else t[k]
        invariant forall k :: n <= k < |t| ==> row[k] == t[k]
        invariant ndef == Count(row[..n], 0) + Count(row[n..], 0)
      {
        ghost var before := row;
        CountSnoc(before, n, 0);
        if row[n] == def {
          row := row[n := 0];
          ndef := ndef + 1;
        }
        assert row[..n] == before[..n] && row[n + 1..] == before[n + 1..];
        CountSnoc(row, n, 0);
        n := n + 1;
      }
      assert row[..n] == row && row[n..] == [];
    }
    r := Row(def, ndef, row);
  }

  // ---------- Filling the tables ----------

  /** The action row of a state: term after term, entry after entry. */
  method ActionRow(g: Grammar, p: Precedence, q: State) returns (row: seq<int>)
    requires Ready(g, p, q)
    ensures |row| == g.ntk
    ensures forall s :: 0 <= s < g.ntk ==> row[s] == Entry(g, p, q, s, |q.ts|)
  {
    row := seq(g.ntk, s => 0);
    var m := 0;
    while m < |q.ts|
      invariant 0 <= m <= |q.ts| && |row| == g.ntk
      invariant forall s :: 0 <= s < g.ntk ==> row[s] == Entry(g, p, q, s, m)
    {
      assert ReadyTerm(g, q, q.ts[m]);
      // only a reduction can already stand where a shift is entered
      forall s | 0 <= s < g.ntk && Expects(g, q.ts[m], s)
        ensures row[s] <= 0 || row[s] == q.gtbl[s].value + 1
      {
        EntryLegal(g, p, q, s, m);
      }
      row := TblSet(g, p, q, q.ts[m], row);
      m := m + 1;
    }
  }

  /** Enter one term into the row. */
  method TblSet(g: Grammar, p: Precedence, q: State, t: Term, tbl: seq<int>) returns (row: seq<int>)
    requires Ready(g, p, q) && ReadyTerm(g, q, t) && |tbl| == g.ntk
    ensures |row| == g.ntk
    ensures forall s :: 0 <= s < g.ntk ==> row[s] == Combine(g, p, q, t, s, tbl[s])
  {
    row := tbl;
    if t.dot < |g.rules[t.rule].rhs| {
      var s := g.rules[t.rule].rhs[t.dot];
      if s >= g.ntk {
        return;
      }
      assert Expects(g, t, s);
      var act := ARight;
      if row[s] != 0 && row[s] != q.gtbl[s].value + 1 {
        act := Resolve(p, RulePrec(p, Red(row[s])), s);
      }
      match act {
        case ARight => row := row[s := q.gtbl[s].value + 1];
        case ANonassoc => row := row[s := -1];
        case _ =>
      }
    } else {
      var s := 0;
      while s < g.ntk
        invariant 0 <= s <= g.ntk && |row| == g.ntk
        invariant forall k :: 0 <= k < s ==> row[k] == Combine(g, p, q, t, k, tbl[k])
        invariant forall k :: s <= k < g.ntk ==> row[k] == tbl[k]
      {
        if s in t.lk {
          var act;
          if row[s] == 0 {
            act := ALeft;
          } else if row[s] < 0 {
            act := ARight;
          } else {
            act := Resolve(p, RulePrec(p, t.rule), s);
          }
          match act {
            case ALeft => row := row[s := Red(t.rule)];
            case ANonassoc => row := row[s := -1];
            case _ =>
          }
        }
        s := s + 1;
      }
    }
  }

  /** The goto column of symbol x: state number plus one, or 0. */
  function GotoEntry(q: State, x: Sym): int
    requires x < |q.gtbl|
  {
    if q.gtbl[x].Some? then q.gtbl[x].value + 1 else 0
  }

  predicate ReadyAll(g: Grammar, p: Precedence, a: Automaton) {
    && MAX_TK < g.nsy
    && forall k :: 0 <= k < |a.states| ==> Ready(g, p, a.states[k])
  }

  /** The undefaulted action row of state k. */
  function EntryRow(g: Grammar, p: Precedence, a: Automaton, k: nat): (row: seq<int>)
    requires ReadyAll(g, p, a) && k < |a.states|
    ensures |row| == g.ntk
    ensures forall s :: 0 <= s < g.ntk ==> row[s] == Entry(g, p, a.states[k], s, |a.states[k].ts|)
  {
    assert Ready(g, p, a.states[k]);
    seq(g.ntk, s requires 0 <= s < g.ntk => Entry(g, p, a.states[k], s, |a.states[k].ts|))
  }

  /** The undefaulted goto column of nonterminal number h. */
  function GotoColumn(g: Grammar, p: Precedence, a: Automaton, h: nat): (column: seq<int>)
    requires ReadyAll(g, p, a) && h < g.nsy - MAX_TK
    ensures |column| == |a.states|
    ensures forall k :: 0 <= k < |a.states| ==> Ready(g, p, a.states[k]) && column[k] == GotoEntry(a.states[k], MAX_TK + h)
  {
    assert forall k :: 0 <= k < |a.states| ==> Ready(g, p, a.states[k]);
    seq(|a.states|, k requires 0 <= k < |a.states| && |a.states[k].gtbl| == g.nsy => GotoEntry(a.states[k], MAX_TK + h))
  }

  /** Rows of the action table and columns of the goto table. */
  datatype Tables = Tables(actions: seq<Row>, gotos: seq<Row>)

  /** The tables hold every state's entries, with defaults taken out. */
  predicate IsTables(g: Grammar, p: Precedence, a: Automaton, t: Tables)
    requires ReadyAll(g, p, a)
  {
    && |t.actions| == |a.states| && |t.gotos| == g.nsy - MAX_TK
    && (forall k :: 0 <= k < |t.actions| ==> IsActionRow(g, p, a, k, t.actions[k]))
    && (forall h :: 0 <= h < |t.gotos| ==> IsDefaulted(GotoColumn(g, p, a, h), |a.states| + 1, t.gotos[h]))
  }

  /** The default of an action row is kept as a rule number, -1 for none. */
  predicate IsActionRow(g: Grammar, p: Precedence, a: Automaton, k: nat, r: Row)
    requires ReadyAll(g, p, a) && k < |a.states|
  {
    IsDefaulted(EntryRow(g, p, a, k), -1, r.(def := Red(r.def)))
  }

  /** Fill and default both tables. */
  method TblGen(g: Grammar, p: Precedence, a: Automaton) returns (t: Tables)
    requires ReadyAll(g, p, a)
    ensures IsTables(g, p, a, t)
  {
    var actions: seq<Row> := [];
    var n := 0;
    while n < |a.states|
      invariant 0 <= n <= |a.states| && |actions| == n
      invariant forall k :: 0 <= k < n ==> IsActionRow(g, p, a, k, actions[k])
    {
      assert Ready(g, p, a.states[n]);
      var row := ActionRow(g, p, a.states[n]);
      assert row == EntryRow(g, p, a, n);
      var r := SetDef(row, -1);
      assert r.(def := Red(r.def)).(def := Red(Red(r.def))) == r;
      actions := actions + [r.(def := Red(r.def))];
      n := n + 1;
    }
    var gotos: seq<Row> := [];
    n := MAX_TK;
    while n < g.nsy
      invariant MAX_TK <= n <= g.nsy && |gotos| == n - MAX_TK
      invariant forall h :: 0 <= h < |gotos| ==> IsDefaulted(GotoColumn(g, p, a, h), |a.states| + 1, gotos[h])
    {
      var column: seq<int> := [];
      var m := 0;
      while m < |a.states|
        invariant 0 <= m <= |a.states| && |column| == m
        invariant column == GotoColumn(g, p, a, n - MAX_TK)[..m]
      {
        assert Ready(g, p, a.states[m]);
        column := column + [GotoEntry(a.states[m], n)];
        m := m + 1;
      }
      assert column == GotoColumn(g, p, a, n - MAX_TK);
      var r := SetDef(column, |a.states| + 1);
      gotos := gotos + [r];
      n := n + 1;
    }
    t := Tables(actions, gotos);
  }
}
