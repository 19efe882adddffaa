/**
  The tables as the generated parser holds them, how it looks entries up, and
  that every lookup finds what the uncompressed tables said.
*/
module PackedTables {
  import opened Options
  import opened Grammars
  import opened Automata
  import opened ActionRows
  import opened Compression

  datatype Packed = Packed(
    ini: nat, ntoks: nat, r1: seq<nat>, r2: seq<nat>,
    adef: seq<int>, gdef: seq<int>, adsp: seq<int>, gdsp: seq<int>, act: seq<int>, chk: seq<int>)

  /** State s's cell for token tk (-1 when none was read), if the check says it is one. */
  function ActionLookup(t: Packed, s: nat, tk: int): Option<int>
    requires s < |t.adsp| && |t.act| == |t.chk|
  {
    var n := t.adsp[s] + tk;
    if n < 0 || n >= |t.act| || t.chk[n] != tk then None else Some(t.act[n])
  }

  /** The state to go to from s over nonterminal number h, the column's default included. */
  function GotoLookup(t: Packed, h: nat, s: nat): int
    requires h < |t.gdsp| == |t.gdef| && |t.act| == |t.chk|
  {
    var n := t.gdsp[h] + s;
    if n < 0 || n >= |t.act| || t.chk[n] != t.ntoks + h then t.gdef[h] else t.act[n]
  }

  /** How an entry is written out: states are numbered from 0 again. */
  function Out(e: int): int { if e >= 0 then e - 1 else e }

  /** Lookups of state k for token s give its entry; a missing cell means the
      entry is empty or is the state's default reduction. */
  predicate ActionAgrees(t: Packed, k: nat, s: Sym, e: int)
    requires k < |t.adsp| == |t.adef| && |t.act| == |t.chk|
  {
    match ActionLookup(t, k, s)
    case Some(v) => e != 0 && v == Out(e)
    case None => e == 0 || (t.adef[k] >= 0 && e == Red(t.adef[k]))
  }

  predicate Shaped(g: Grammar, a: Automaton, t: Packed) {
    && t.ini == a.ini && t.ntoks == g.ntk && MAX_TK < g.nsy
    && |t.r1| == |t.r2| == |g.rules|
    && (forall r :: 0 <= r < |g.rules| ==> t.r1[r] == |g.rules[r].rhs| && t.r2[r] + MAX_TK == g.rules[r].lhs)
    && |t.adef| == |t.adsp| == |a.states| && |t.gdef| == |t.gdsp| == g.nsy - MAX_TK
    && |t.act| == |t.chk|
  }

  /** The packed tables implement the rows computed from the automaton. */
  predicate Implements(g: Grammar, p: Precedence, a: Automaton, t: Packed)
    requires ReadyAll(g, p, a)
  {
    && Shaped(g, a, t)
    && (forall k :: 0 <= k < |a.states| ==> ActionsAgree(g, p, a, t, k))
    && (forall h :: 0 <= h < |t.gdsp| ==> GotosAgree(g, p, a, t, h))
  }

  predicate ActionsAgree(g: Grammar, p: Precedence, a: Automaton, t: Packed, k: nat)
    requires ReadyAll(g, p, a) && Shaped(g, a, t) && k < |a.states|
  {
    && (forall s :: 0 <= s < g.ntk ==> ActionAgrees(t, k, s, EntryRow(g, p, a, k)[s]))
    // the default is one of the row's own reductions
    && (t.adef[k] == -1 || (t.adef[k] >= 0 && Red(t.adef[k]) in EntryRow(g, p, a, k)))
    // a state that only knows its default needs no token, and asks for none
    && t.adsp[k] + g.ntk >= 0
    && (t.adsp[k] + g.ntk == 0 ==> forall s :: 0 <= s < g.ntk ==> ActionLookup(t, k, s) == None)
  }

  predicate GotosAgree(g: Grammar, p: Precedence, a: Automaton, t: Packed, h: nat)
    requires ReadyAll(g, p, a) && Shaped(g, a, t) && h < |t.gdsp|
  {
    forall k :: 0 <= k < |a.states| && GotoColumn(g, p, a, h)[k] != 0 ==>
      GotoLookup(t, h, k) == GotoColumn(g, p, a, h)[k] - 1
  }

  // ---------- From placed rows to lookups ----------

  /** act and chk as written out: the used cells, with states renumbered. */
  predicate WrittenOut(act: seq<int>, chk: seq<int>, actsz: nat, act': seq<int>, chk': seq<int>) {
    && |act| == |chk| && actsz <= |act| && |act'| == |chk'| == actsz
    && (forall m :: actsz <= m < |chk| ==> chk[m] < 0)
    && (forall m :: 0 <= m < actsz ==> act'[m] == Out(act[m]) && chk'[m] == chk[m])
  }

  lemma {:induction false} ActionsFound(
    g: Grammar, p: Precedence, a: Automaton, k: nat, r: Row, act: seq<int>, chk: seq<int>, actsz: nat, t: Packed)
    requires ReadyAll(g, p, a) && Shaped(g, a, t) && k < |a.states|
    requires IsActionRow(g, p, a, k, r) && IsActionPlaced(r.t, t.adsp[k], act, chk)
    requires t.adef[k] == r.def && WrittenOut(act, chk, actsz, t.act, t.chk)
    ensures ActionsAgree(g, p, a, t, k)
  {
    var row, def := EntryRow(g, p, a, k), Red(r.def);
    forall s | 0 <= s < g.ntk
      ensures ActionAgrees(t, k, s, row[s])
    {
      assert Decodes(r.t[s], s, t.adsp[k] + s, act, chk);
    }
    if t.adsp[k] + g.ntk == 0 {
      assert AllZero(r.t);
    }
  }

  lemma {:induction false} GotosFound(
    g: Grammar, p: Precedence, a: Automaton, h: nat, r: Row, act: seq<int>, chk: seq<int>, actsz: nat, t: Packed)
    requires ReadyAll(g, p, a) && Shaped(g, a, t) && h < |t.gdsp|
    requires IsDefaulted(GotoColumn(g, p, a, h), |a.states| + 1, r)
    requires IsGotoPlaced(r.t, g.ntk + h, t.gdsp[h], act, chk)
    requires t.gdef[h] == (if r.def > 0 then r.def - 1 else r.def) && WrittenOut(act, chk, actsz, t.act, t.chk)
    ensures GotosAgree(g, p, a, t, h)
  {
    var column := GotoColumn(g, p, a, h);
    forall k | 0 <= k < |a.states| && column[k] != 0
      ensures GotoLookup(t, h, k) == column[k] - 1
    {
      assert Decodes(r.t[k], g.ntk + h, t.gdsp[h] + k, act, chk);
      assert column[k] > 0;
    }
  }

  // ---------- Generating the packed tables ----------

  lemma {:induction false} TableRoom(nst: nat, ntk: nat, nsy: nat, nnt: nat)
    requires ntk <= MAX_TK && nsy == MAX_TK + nnt
    ensures nst * ntk <= nst * nsy && nst * ntk + nnt * nst <= nst * nsy
    ensures nst * (ntk + nnt) == nst * ntk + nnt * nst
  {
    assert nst * nsy == nst * ntk + nst * (nsy - ntk);
    assert nst * nnt <= nst * (nsy - ntk);
    assert nst * nnt == nnt * nst;
  }

  /** Compress both tables. */
  method ActGen(g: Grammar, p: Precedence, a: Automaton, t: Tables)
    returns (adsp: seq<int>, gdsp: seq<int>, act: seq<int>, chk: seq<int>, actsz: nat)
    requires ValidGrammar(g) && ReadyAll(g, p, a) && IsTables(g, p, a, t)
    ensures ActionsPlaced(t.actions, adsp, act, chk) && GotosPlaced(t.gotos, g.ntk, gdsp, act, chk)
    ensures |act| == |chk| == |a.states| * g.nsy
    ensures actsz <= |a.states| * (g.ntk + |t.gotos|) && actsz <= |act|
    ensures forall m :: actsz <= m < |chk| ==> chk[m] < 0
  {
    var nst := |a.states|;
    TableRoom(nst, g.ntk, g.nsy, |t.gotos|);
    var c := new Compressor(g.ntk, nst * g.nsy);
    forall k | 0 <= k < |t.actions|
      ensures |t.actions[k].t| == g.ntk && t.actions[k].ndef == Count(t.actions[k].t, 0)
    {
      assert IsActionRow(g, p, a, k, t.actions[k]);
    }
    adsp := c.FillActions(t.actions);
    gdsp := c.FillGotos(t.gotos, nst, t.actions, adsp);
    act, chk, actsz := c.act, c.chk, c.actsz;
  }

  /** Write the tables out for the parser: rule lengths and left sides, defaults,
      displacements, and the used cells with states numbered from 0. */
  method TblOut(g: Grammar, p: Precedence, a: Automaton, t: Tables,
                adsp: seq<int>, gdsp: seq<int>, act: seq<int>, chk: seq<int>, actsz: nat) returns (packed: Packed)
    requires ValidGrammar(g) && ReadyAll(g, p, a) && IsTables(g, p, a, t)
    requires ActionsPlaced(t.actions, adsp, act, chk) && GotosPlaced(t.gotos, g.ntk, gdsp, act, chk)
    requires |act| == |chk| && actsz <= |act| && forall m :: actsz <= m < |chk| ==> chk[m] < 0
    ensures Implements(g, p, a, packed) && |packed.act| == actsz
  {
    var r1, r2 := RuleArrays(g);
    var adef: seq<int> := [];
    while |adef| < |t.actions|
      invariant |adef| <= |t.actions| && forall k :: 0 <= k < |adef| ==> adef[k] == t.actions[k].def
    {
      adef := adef + [t.actions[|adef|].def];
    }
    var gdef: seq<int> := [];
    while |gdef| < |t.gotos|
      invariant |gdef| <= |t.gotos|
      invariant forall h :: 0 <= h < |gdef| ==> gdef[h] == if t.gotos[h].def > 0 then t.gotos[h].def - 1 else t.gotos[h].def
    {
      var def := t.gotos[|gdef|].def;
      assert IsDefaulted(GotoColumn(g, p, a, |gdef|), |a.states| + 1, t.gotos[|gdef|]);
      assert def > 0 || def == -1;
      if def > 0 {
        def := def - 1;
      }
      gdef := gdef + [def];
    }
    var out := act[..actsz];
    var n := 0;
    while n < actsz
      invariant 0 <= n <= actsz == |out|
      invariant forall m :: 0 <= m < actsz ==> out[m] == if m < n then Out(act[m]) else act[m]
    {
      if out[n] >= 0 {
        out := out[n := out[n] - 1];
      }
      n := n + 1;
    }
    packed := Packed(a.ini, g.ntk, r1, r2, adef, gdef, adsp, gdsp, out, chk[..actsz]);
    forall k | 0 <= k < |a.states|
      ensures ActionsAgree(g, p, a, packed, k)
    {
      ActionsFound(g, p, a, k, t.actions[k], act, chk, actsz, packed);
    }
    forall h | 0 <= h < |packed.gdsp|
      ensures GotosAgree(g, p, a, packed, h)
    {
      GotosFound(g, p, a, h, t.gotos[h], act, chk, actsz, packed);
    }
  }

  method RuleArrays(g: Grammar) returns (r1: seq<nat>, r2: seq<nat>)
    requires ValidGrammar(g)
    ensures |r1| == |r2| == |g.rules|
    ensures forall r :: 0 <= r < |g.rules| ==> r1[r] == |g.rules[r].rhs| && r2[r] + MAX_TK == g.rules[r].lhs
  {
    r1, r2 := [], [];
    while |r1| < |g.rules|
      invariant |r1| == |r2| <= |g.rules|
      invariant forall r :: 0 <= r < |r1| ==> r1[r] == |g.rules[r].rhs| && r2[r] + MAX_TK == g.rules[r].lhs
    {
      assert ValidRule(g, g.rules[|r1|]);
      r1, r2 := r1 + [|g.rules[|r1|].rhs|], r2 + [g.rules[|r1|].lhs - MAX_TK];
    }
  }
}
