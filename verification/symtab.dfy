/**
  The scopes of one namespace of the symbol table.  A scope's hash table is kept
  when the scope is left, and cleared only when a symbol is next entered at the
  same depth; seen from outside, the namespace is a stack of maps.
*/
module Symtab {
  import opened HashChains
  import opened HashTables

  /** A symbol; id tells apart symbols of the same name. */
  datatype Symbol = Symbol(name: string, id: nat)

  type Names = map<string, Symbol>

  // ---------- The stack of maps ----------

  /** Search from the innermost scope outwards. */
  function Resolve(stack: seq<Names>, name: string): Data<Symbol> {
    if stack == [] then NoData
    else
      var inner := stack[|stack| - 1];
      if name in inner then Has(inner[name]) else Resolve(stack[..|stack| - 1], name)
  }

  /** The answer is the name's symbol in scope i, and no scope further in has the name. */
  predicate FoundIn(stack: seq<Names>, name: string, found: Data<Symbol>, i: int) {
    && 0 <= i < |stack| && name in stack[i] && found == Has(stack[i][name])
    && forall j :: i < j < |stack| ==> name !in stack[j]
  }

  /** What a search is for: the symbol of the innermost scope that has the name, and
      nothing exactly if no scope has it. */
  ghost predicate FindsInnermost(stack: seq<Names>, name: string, found: Data<Symbol>) {
    if found.Has? then exists i :: FoundIn(stack, name, found, i)
    else forall i :: 0 <= i < |stack| ==> name !in stack[i]
  }

  lemma {:induction false} ResolveFinds(stack: seq<Names>, name: string)
    ensures FindsInnermost(stack, name, Resolve(stack, name))
  {
    if stack != [] {
      var n := |stack| - 1;
      var outer := stack[..n];
      if name in stack[n] {
        assert FoundIn(stack, name, Resolve(stack, name), n);
      } else {
        ResolveFinds(outer, name);
        if i :| FoundIn(outer, name, Resolve(outer, name), i) {
          assert FoundIn(stack, name, Resolve(stack, name), i);
        } else {
          forall i | 0 <= i < |stack|
            ensures name !in stack[i]
          {
            assert i < n ==> outer[i] == stack[i];
          }
        }
      }
    }
  }

  /** Enter a symbol unless the scope has one of that name. */
  function Entered(names: Names, sym: Symbol): Names {
    if sym.name in names then names else names[sym.name := sym]
  }

  lemma {:induction false} ResolveUpTo(stack: seq<Names>, n: nat, name: string)
    requires n <= |stack| && forall i :: n <= i < |stack| ==> name !in stack[i]
    ensures Resolve(stack, name) == Resolve(stack[..n], name)
    decreases |stack|
  {
    if n < |stack| {
      var outer := stack[..|stack| - 1];
      ResolveUpTo(outer, n, name);
      assert outer[..n] == stack[..n];
    } else {
      assert stack[..n] == stack;
    }
  }

  // ---------- Scopes ----------

  datatype ScopeState = Created | Dirty | Initialized

  type Table = HashTable<string, Symbol>

  /** The table holds what was entered when the scope was last in use, so its content
      counts only in state Initialized. */
  datatype Scope = Scope(state: ScopeState, table: HashTable?<string, Symbol>)

  function TableOf(s: Scope): set<Table> { if s.table == null then {} else {s.table} }

  /** What a table is made with: the key of a symbol is its name, and symbols are
      stored as they are. */
  datatype Kind = Kind(key: Symbol -> string, hash: string -> nat, same: Symbol -> Symbol)

  ghost predicate ValidKind(k: Kind) {
    && (forall s: Symbol {:trigger k.key(s)} :: k.key(s) == s.name)
    && (forall s: Symbol {:trigger k.same(s)} :: k.same(s) == s)
  }

  /** A scope has a table from the first symbol entered at its depth on. */
  ghost predicate ScopeOk(s: Scope, k: Kind)
    reads TableOf(s)
  {
    && (s.table != null <==> s.state != Created)
    && (s.table != null ==> s.table.Valid() && Kind(s.table.key, s.table.hash, s.table.add) == k)
  }

  /** What a scope shows. */
  ghost function NamesOf(s: Scope): Names
    reads TableOf(s)
  {
    if s.state == Initialized && s.table != null then s.table.contents else map[]
  }

  /** All scopes are well-formed, with tables of their own out of the given ones, and
      the entered scopes show what the stack says. */
  ghost predicate Shows(scopes: seq<Scope>, stack: seq<Names>, k: Kind, tables: set<Table>)
    reads tables
  {
    && |stack| <= |scopes|
    && (forall i :: 0 <= i < |scopes| && scopes[i].table != null ==> scopes[i].table in tables)
    && (forall i :: 0 <= i < |scopes| ==> ScopeOk(scopes[i], k))
    && (forall i, j :: 0 <= i < |scopes| && 0 <= j < |scopes| && i != j && scopes[i].table != null ==>
          scopes[i].table != scopes[j].table)
    && (forall i :: 0 <= i < |stack| ==> stack[i] == NamesOf(scopes[i]))
  }

  /** Entering a scope that was left before: what it held must not be seen. */
  lemma {:induction false} Reentered(scopes: seq<Scope>, stack: seq<Names>, k: Kind, tables: set<Table>, after: seq<Scope>)
    requires Shows(scopes, stack, k, tables) && |stack| < |scopes|
    requires var s := scopes[|stack|];
      after == scopes[|stack| := if s.state == Initialized then s.(state := Dirty) else s]
    ensures Shows(after, stack + [map[]], k, tables)
  {
    assert ScopeOk(scopes[|stack|], k);
  }

  /** Entering a scope deeper than any before. */
  lemma {:induction false} EnteredNew(scopes: seq<Scope>, stack: seq<Names>, k: Kind, tables: set<Table>)
    requires Shows(scopes, stack, k, tables) && |stack| == |scopes|
    ensures Shows(scopes + [Scope(Created, null)], stack + [map[]], k, tables)
  {
  }

  /** Slots for a scope that is the n-th from the outside. */
  function HashCap(n: nat): (cap: nat)
    requires n > 0
    ensures cap > 0
  {
    var caps := [256, 16, 128, 64, 32, 16];
    if n < |caps| then caps[n - 1] else 8
  }

  class Namespace {
    const kind: Kind
    var scopes: seq<Scope>      // entered and left ones
    var depth: nat              // how many are entered
    var maxScopeDepth: nat
    var referenced: set<Symbol>
    ghost var stack: seq<Names>
    ghost var tables: set<Table>

    ghost predicate Valid()
      reads this`scopes, this`depth, this`maxScopeDepth, this`stack, this`tables, tables
    {
      ValidKind(kind) && depth == |stack| && |scopes| == maxScopeDepth && Shows(scopes, stack, kind, tables)
    }

    constructor (hash: string -> nat)
      ensures Valid() && stack == [] && tables == {} && referenced == {}
    {
      kind := Kind((s: Symbol) => s.name, hash, (s: Symbol) => s);
      scopes, depth, maxScopeDepth, referenced, stack, tables := [], 0, 0, {}, [], {};
    }

    // ---------- Entering and leaving ----------

    method PushScope()
      requires Valid()
      modifies this`scopes, this`depth, this`maxScopeDepth, this`stack
      ensures Valid() && stack == old(stack) + [map[]]
    {
      if depth < maxScopeDepth {
        depth := depth + 1;
        ghost var before := scopes;
        if scopes[depth - 1].state == Initialized {
          scopes := scopes[depth - 1 := scopes[depth - 1].(state := Dirty)];
        }
        Reentered(before, stack, kind, tables, scopes);
      } else {
        EnteredNew(scopes, stack, kind, tables);
        maxScopeDepth := maxScopeDepth + 1;
        scopes := scopes + [Scope(Created, null)];
        depth := depth + 1;
      }
      stack := stack + [map[]];
    }

    /** Leave the innermost scope; leaving the last one destroys all tables. */
    method PopScope()
      requires Valid() && depth > 0
      modifies this`scopes, this`depth, this`maxScopeDepth, this`stack, this`tables, tables
      ensures Valid() && stack == old(stack)[..old(depth) - 1] && tables <= old(tables)
      ensures depth == 0 ==> scopes == [] && tables == {}
    {
      if depth == 1 {
        DestroyTables();
        maxScopeDepth := 0;
        scopes, depth, tables := [], 0, {};
      } else {
        depth := depth - 1;
      }
      stack := stack[..|stack| - 1];
    }

    method DestroyTables()
      requires Valid()
      modifies tables
    {
      var i := 0;
      while i < |scopes|
        invariant 0 <= i <= |scopes|
        invariant forall h :: i <= h < |scopes| ==> ScopeOk(scopes[h], kind)
      {
        if scopes[i].state != Created {
          var freed := scopes[i].table.Destroy();
        }
        i := i + 1;
      }
    }

    // ---------- Symbols ----------

    /** Look in one scope. */
    method LookupIn(i: nat, name: string) returns (found: Data<Symbol>)
      requires Valid() && i < depth
      ensures found == if name in stack[i] then Has(stack[i][name]) else NoData
    {
      assert ScopeOk(scopes[i], kind) && stack[i] == NamesOf(scopes[i]);
      found := NoData;
      if scopes[i].state == Initialized {
        found := scopes[i].table.Lookup(name);
      }
    }

    method Search(name: string) returns (found: Data<Symbol>)
      requires Valid()
      ensures found == Resolve(stack, name) && FindsInnermost(stack, name, found)
    {
      ResolveFinds(stack, name);
      var i := depth;
      while i > 0
        invariant 0 <= i <= depth && forall h :: i <= h < depth ==> name !in stack[h]
      {
        i := i - 1;
        found := LookupIn(i, name);
        if found.Has? {
          ResolveUpTo(stack, i + 1, name);
          assert stack[..i + 1][i] == stack[i];
          return;
        }
      }
      ResolveUpTo(stack, 0, name);
      assert stack[..0] == [];
      found := NoData;
    }

    /** Find a symbol and mark it as used. */
    method SymLookup(name: string) returns (found: Data<Symbol>)
      requires Valid()
      modifies this`referenced
      ensures Valid() && found == Resolve(stack, name) && FindsInnermost(stack, name, found)
      ensures referenced == if found.Has? then old(referenced) + {found.d} else old(referenced)
    {
      found := Search(name);
      if found.Has? {
        referenced := referenced + {found.d};
      }
    }

    /** A table for the scope that holds what the scope shows: made, cleared, or as it is. */
    method UsableTable(s: Scope) returns (t: Table)
      requires ScopeOk(s, kind) && depth > 0 && ValidKind(kind)
      modifies TableOf(s)
      ensures t.Valid() && Kind(t.key, t.hash, t.add) == kind
      ensures t.contents == old(NamesOf(s)) && (if s.table == null then fresh(t) else t == s.table)
    {
      if s.state == Created {
        t := new HashTable(HashCap(depth), kind.key, kind.hash, kind.same);
      } else {
        t := s.table;
        if s.state == Dirty {
          t.Clear();
        }
      }
    }

    /** The scope with the symbol entered. */
    method EnterInto(s: Scope, sym: Symbol) returns (after: Scope)
      requires ScopeOk(s, kind) && depth > 0 && ValidKind(kind)
      modifies TableOf(s)
      ensures ScopeOk(after, kind) && NamesOf(after) == Entered(old(NamesOf(s)), sym)
      ensures after.table != null && (if s.table == null then fresh(after.table) else after.table == s.table)
    {
      var t := UsableTable(s);
      var stored := t.Insert(sym);
      after := Scope(Initialized, t);
    }

    /** Put a scope in the place of one that is not looked at any more. */
    method Install(i: nat, after: Scope, ghost others: set<Table>)
      requires ValidKind(kind) && i < depth == |stack| && |scopes| == maxScopeDepth
      requires ShowsBut(scopes, stack, kind, others, i)
      requires ScopeOk(after, kind) && after.table != null && after.table !in others
      modifies this`scopes, this`stack, this`tables
      ensures Valid() && stack == old(stack)[i := NamesOf(after)] && tables == others + {after.table}
    {
      scopes, stack, tables := scopes[i := after], stack[i := NamesOf(after)], others + {after.table};
    }

    /** Enter a symbol in the innermost scope, unless it has one of that name. */
    method SymMakeVisible(sym: Symbol)
      requires Valid() && depth > 0
      modifies this`scopes, this`stack, this`tables, TableOf(scopes[depth - 1])
      ensures Valid() && depth == old(depth) && stack == old(stack)[depth - 1 := Entered(old(stack)[depth - 1], sym)]
      ensures fresh(tables - old(tables))
    {
      var i, s := depth - 1, scopes[depth - 1];
      assert ScopeOk(s, kind) && stack[i] == NamesOf(s);
      ghost var others := tables - TableOf(s);
      var after := EnterInto(s, sym);
      Install(i, after, others);
    }

    // ---------- Runs ----------

    method Perform(op: Op) returns (answers: seq<Data<Symbol>>)
      requires Valid() && (op.Pop? || op.Show? ==> stack != [])
      modifies this, tables
      ensures Valid() && stack == StackStep(old(stack), op) && answers == Answers(old(stack), op)
      ensures fresh(tables - old(tables))
    {
      answers := [];
      match op {
        case Push => PushScope();
        case Pop => PopScope();
        case Show(sym) => SymMakeVisible(sym);
        case Find(name) =>
          var found := SymLookup(name);
          answers := [found];
      }
    }

    /** Any sequence of operations does to the namespace what it does to a stack of maps. */
    method Run(ops: seq<Op>) returns (answers: seq<Data<Symbol>>)
      requires Valid() && Possible(stack, ops)
      modifies this, tables
      ensures Valid() && (stack, answers) == StackRun(old(stack), ops)
      ensures fresh(tables - old(tables))
    {
      answers := [];
      var i := 0;
      assert ops[0..] == ops && answers + StackRun(stack, ops).1 == StackRun(stack, ops).1;
      while i < |ops|
        invariant 0 <= i <= |ops| && Valid() && fresh(tables - old(tables)) && Possible(stack, ops[i..])
        invariant GoesOn(old(stack), ops, stack, answers, i)
      {
        RunsOn(old(stack), ops, stack, answers, i);
        var more := Perform(ops[i]);
        answers := answers + more;
        i := i + 1;
      }
      assert ops[i..] == [] && answers + [] == answers;
    }
  }

  /** The same as Shows, but scope i is not looked at. */
  ghost predicate ShowsBut(scopes: seq<Scope>, stack: seq<Names>, k: Kind, others: set<Table>, i: nat)
    reads others
  {
    && i < |stack| <= |scopes|
    && (forall h :: 0 <= h < |scopes| && h != i && scopes[h].table != null ==> scopes[h].table in others)
    && (forall h :: 0 <= h < |scopes| && h != i ==> ScopeOk(scopes[h], k))
    && (forall h, j :: 0 <= h < |scopes| && 0 <= j < |scopes| && h != j && h != i && j != i && scopes[h].table != null ==>
          scopes[h].table != scopes[j].table)
    && (forall h :: 0 <= h < |stack| && h != i ==> stack[h] == NamesOf(scopes[h]))
  }

  // ---------- Operations on the stack of maps ----------

  datatype Op = Push | Pop | Show(sym: Symbol) | Find(name: string)

  function StackStep(stack: seq<Names>, op: Op): seq<Names>
    requires op.Pop? || op.Show? ==> stack != []
  {
    match op
    case Push => stack + [map[]]
    case Pop => stack[..|stack| - 1]
    case Show(sym) => stack[|stack| - 1 := Entered(stack[|stack| - 1], sym)]
    case Find(name) => stack
  }

  function Answers(stack: seq<Names>, op: Op): seq<Data<Symbol>> {
    if op.Find? then [Resolve(stack, op.name)] else []
  }

  /** No scope is left, and nothing entered, outside of all scopes. */
  predicate Possible(stack: seq<Names>, ops: seq<Op>)
    decreases |ops|
  {
    ops == [] ||
      ((ops[0].Pop? || ops[0].Show? ==> stack != []) && Possible(StackStep(stack, ops[0]), ops[1..]))
  }

  /** The stack after the operations, and what the searches found. */
  function StackRun(stack: seq<Names>, ops: seq<Op>): (seq<Names>, seq<Data<Symbol>>)
    requires Possible(stack, ops)
    decreases |ops|
  {
    if ops == [] then (stack, [])
    else
      var (after, rest) := StackRun(StackStep(stack, ops[0]), ops[1..]);
      (after, Answers(stack, ops[0]) + rest)
  }

  /** The first i operations led from one stack to another and gave the answers. */
  predicate GoesOn(start: seq<Names>, ops: seq<Op>, stack: seq<Names>, answers: seq<Data<Symbol>>, i: nat)
    requires i <= |ops| && Possible(start, ops) && Possible(stack, ops[i..])
  {
    var (after, rest) := StackRun(stack, ops[i..]);
    StackRun(start, ops) == (after, answers + rest)
  }

  lemma {:induction false} RunsOn(start: seq<Names>, ops: seq<Op>, stack: seq<Names>, answers: seq<Data<Symbol>>, i: nat)
    requires i < |ops| && Possible(start, ops) && Possible(stack, ops[i..]) && GoesOn(start, ops, stack, answers, i)
    ensures (ops[i].Pop? || ops[i].Show? ==> stack != []) && Possible(StackStep(stack, ops[i]), ops[i + 1..])
    ensures GoesOn(start, ops, StackStep(stack, ops[i]), answers + Answers(stack, ops[i]), i + 1)
  {
    assert ops[i..][0] == ops[i] && ops[i..][1..] == ops[i + 1..];
    var rest := StackRun(StackStep(stack, ops[i]), ops[i + 1..]).1;
    assert answers + (Answers(stack, ops[i]) + rest) == (answers + Answers(stack, ops[i])) + rest;
  }

  // ---------- What programs rely on ----------

  /** Every answer of a run is the innermost symbol of the name at the time of the
      search: the answer to the last operation, after any others. */
  lemma {:induction false} AnswersInnermost(stack: seq<Names>, ops: seq<Op>, name: string)
    requires Possible(stack, ops)
    ensures Possible(stack, ops + [Find(name)])
    ensures var (after, answers) := StackRun(stack, ops);
      var (after', answers') := StackRun(stack, ops + [Find(name)]);
      && after' == after && |answers'| == |answers| + 1 && answers'[..|answers|] == answers
      && FindsInnermost(after, name, answers'[|answers|])
    decreases |ops|
  {
    if ops == [] {
      assert [Find(name)][1..] == [];
      ResolveFinds(stack, name);
    } else {
      var next := StackStep(stack, ops[0]);
      assert (ops + [Find(name)])[1..] == ops[1..] + [Find(name)];
      AnswersInnermost(next, ops[1..], name);
    }
  }

  /** A symbol entered in a new scope hides whatever the outer scopes hold of its name,
      one entered after it in the same scope does not, and leaving the scope brings
      back what the name meant before. */
  lemma {:induction false} Shadows(stack: seq<Names>, sym: Symbol, second: Symbol)
    requires second.name == sym.name
    ensures var inner := StackStep(StackStep(stack, Push), Show(sym));
      && Answers(inner, Find(sym.name)) == [Has(sym)]
      && Answers(StackStep(inner, Show(second)), Find(sym.name)) == [Has(sym)]
      && StackStep(inner, Pop) == stack
      && forall name :: name != sym.name ==> Answers(inner, Find(name)) == Answers(stack, Find(name))
  {
    var inner := StackStep(StackStep(stack, Push), Show(sym));
    assert inner[..|stack|] == stack;
  }

  /** Whatever happens inside a scope, once it is left names mean what they meant before. */
  lemma {:induction false} ScopesNest(stack: seq<Names>, ops: seq<Op>, n: nat)
    requires n <= |stack| && Possible(stack, ops) && StaysAbove(stack, ops, n)
    ensures var after := StackRun(stack, ops).0; n <= |after| && after[..n] == stack[..n]
    decreases |ops|
  {
    if ops != [] {
      var next := StackStep(stack, ops[0]);
      ScopesNest(next, ops[1..], n);
      assert next[..n] == stack[..n];
    }
  }

  /** The operations leave the n outer scopes alone: they neither leave them nor enter
      symbols in them. */
  predicate StaysAbove(stack: seq<Names>, ops: seq<Op>, n: nat)
    requires Possible(stack, ops)
    decreases |ops|
  {
    ops == [] ||
      ((ops[0].Pop? || ops[0].Show? ==> |stack| > n) && StaysAbove(StackStep(stack, ops[0]), ops[1..], n))
  }
}
