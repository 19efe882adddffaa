/**
  LR automata as the table generator sees them: numbered states of dotted rules
  with lookaheads, and a goto table.
*/
module Automata {
  import opened Options
  import opened Grammars

  /** A dotted rule with its lookahead tokens. */
  datatype Term = Term(rule: nat, dot: nat, lk: set<Sym>)

  datatype State = State(ts: seq<Term>, gtbl: seq<Option<nat>>)

  datatype Automaton = Automaton(states: seq<State>, ini: nat)

  predicate ValidTerm(g: Grammar, t: Term) {
    && t.rule < |g.rules| && t.dot <= |g.rules[t.rule].rhs|
    && forall a :: a in t.lk ==> a < g.ntk
  }

  /** The symbol after the dot is x. */
  predicate Expects(g: Grammar, t: Term, x: Sym) {
    t.rule < |g.rules| && t.dot < |g.rules[t.rule].rhs| && g.rules[t.rule].rhs[t.dot] == x
  }

  predicate IsComplete(g: Grammar, t: Term) {
    t.rule < |g.rules| && t.dot == |g.rules[t.rule].rhs|
  }

  predicate Has(q: State, rule: nat, dot: nat) {
    exists i :: 0 <= i < |q.ts| && q.ts[i].rule == rule && q.ts[i].dot == dot
  }

  ghost predicate ExpectsSome(g: Grammar, q: State, x: Sym) {
    exists i :: 0 <= i < |q.ts| && Expects(g, q.ts[i], x)
  }

  predicate ValidState(g: Grammar, a: Automaton, q: State) {
    && |q.gtbl| == g.nsy
    && (forall x :: 0 <= x < g.nsy && q.gtbl[x].Some? ==> q.gtbl[x].value < |a.states| && q.gtbl[x].value != a.ini)
    && (forall i :: 0 <= i < |q.ts| ==> ValidTerm(g, q.ts[i]))
  }

  /** The goto of q over x is exactly q's terms that expect x, moved past x. */
  ghost predicate GotoExact(g: Grammar, a: Automaton, q: State, x: Sym)
    requires x < |q.gtbl|
    requires q.gtbl[x].Some? ==> q.gtbl[x].value < |a.states|
  {
    && (q.gtbl[x].Some? <==> ExpectsSome(g, q, x))
    && (q.gtbl[x].Some? ==>
          var p := a.states[q.gtbl[x].value];
          && (forall i :: 0 <= i < |q.ts| && Expects(g, q.ts[i], x) ==> Has(p, q.ts[i].rule, q.ts[i].dot + 1))
          && (forall i :: 0 <= i < |p.ts| && p.ts[i].dot > 0 ==> CameFrom(g, q, p.ts[i], x)))
  }

  /** q holds the term with its dot one to the left, before x. */
  predicate CameFrom(g: Grammar, q: State, t: Term, x: Sym) {
    && t.dot > 0 && Has(q, t.rule, t.dot - 1)
    && t.rule < |g.rules| && t.dot <= |g.rules[t.rule].rhs| && g.rules[t.rule].rhs[t.dot - 1] == x
  }

  /** Every term with its dot in front is the start term of the initial state, or
      is there because some term expects its left side. */
  ghost predicate Justified(g: Grammar, a: Automaton, k: nat, t: Term)
    requires k < |a.states|
  {
    t.dot == 0 && t.rule < |g.rules| ==>
      if t.rule == 0 then k == a.ini else ExpectsSome(g, a.states[k], g.rules[t.rule].lhs)
  }

  /** What the parser needs of the automaton. */
  ghost predicate ValidAutomaton(g: Grammar, a: Automaton) {
    && a.ini < |a.states|
    && (forall k :: 0 <= k < |a.states| ==> SoundState(g, a, k))
    && (forall i :: 0 <= i < |a.states[a.ini].ts| ==> a.states[a.ini].ts[i].dot == 0)
  }

  ghost predicate SoundState(g: Grammar, a: Automaton, k: nat)
    requires k < |a.states|
  {
    var q := a.states[k];
    && ValidState(g, a, q)
    && (forall x :: 0 <= x < g.nsy ==> GotoExact(g, a, q, x))
    && (forall i :: 0 <= i < |q.ts| ==> Justified(g, a, k, q.ts[i]))
  }
}
