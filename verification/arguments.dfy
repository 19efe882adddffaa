/**
  Where arguments go: section 3.2.3 of the System V AMD64 ABI, for parameters whose
  eightbytes have been classified.
*/
module Arguments {
  datatype Class = NoClass | Integer | Sse | SseUp | X87 | X87Up | Memory

  /** A parameter of n eightbytes and their classes. */
  datatype Param = Param(n: nat, eightbyte: seq<Class>)

  const MAX_INTEGER_ARGS: nat := 6
  const MAX_SSE_ARGS: nat := 8
  const MAX_REGISTER_ARGS: nat := MAX_INTEGER_ARGS + MAX_SSE_ARGS

  /** A class that names a register file. */
  predicate InFile(c: Class) { c == Integer || c == Sse }

  predicate Candidate(p: Param)
    requires |p.eightbyte| == 4
  {
    InFile(p.eightbyte[0])
  }

  /** A classified parameter: if it may go in registers, all of its eightbytes may. */
  predicate ValidParam(p: Param) {
    && |p.eightbyte| == 4 && p.n > 0
    && (Candidate(p) ==> p.n <= 4 && forall e :: 0 <= e < 4 ==> (InFile(p.eightbyte[e]) <==> e < p.n))
  }

  predicate ValidParams(ps: seq<Param>) { forall i :: 0 <= i < |ps| ==> ValidParam(ps[i]) }

  /** How many of the first e eightbytes are of a class. */
  function Count(p: Param, c: Class, e: nat): (k: nat)
    requires e <= |p.eightbyte|
    ensures k <= e
  {
    if e == 0 then 0 else Count(p, c, e - 1) + if p.eightbyte[e - 1] == c then 1 else 0
  }

  lemma {:induction false} CountMonotone(p: Param, c: Class, d: nat, e: nat)
    requires d <= e <= |p.eightbyte|
    ensures Count(p, c, d) <= Count(p, c, e)
    ensures d < e && p.eightbyte[d] == c ==> Count(p, c, d) < Count(p, c, e)
    decreases e
  {
    if d < e {
      CountMonotone(p, c, d, e - 1);
    }
  }

  /** Registers of both files and bytes of stack handed out so far, and how many
      parameters got registers. */
  datatype Cursor = Cursor(ints: nat, sses: nat, mem: nat, taken: nat)

  /** Enough registers are left for the whole parameter. */
  predicate Fits(c: Cursor, p: Param)
    requires ValidParam(p)
  {
    && Candidate(p)
    && c.ints + Count(p, Integer, 4) <= MAX_INTEGER_ARGS && c.sses + Count(p, Sse, 4) <= MAX_SSE_ARGS
  }

  function Next(c: Cursor, p: Param): Cursor
    requires ValidParam(p)
  {
    if Fits(c, p) then Cursor(c.ints + Count(p, Integer, 4), c.sses + Count(p, Sse, 4), c.mem, c.taken + 1)
    else c.(mem := c.mem + 8 * p.n)
  }

  /** The state after the first k parameters.  A result in memory takes the first
      integer register. */
  function After(ps: seq<Param>, memoryResult: bool, k: nat): Cursor
    requires ValidParams(ps) && k <= |ps|
  {
    if k == 0 then Cursor(if memoryResult then 1 else 0, 0, 0, 0)
    else Next(After(ps, memoryResult, k - 1), ps[k - 1])
  }

  lemma {:induction false} MemEights(ps: seq<Param>, memoryResult: bool, k: nat)
    requires ValidParams(ps) && k <= |ps|
    ensures After(ps, memoryResult, k).mem % 8 == 0
    decreases k
  {
    if k > 0 {
      MemEights(ps, memoryResult, k - 1);
    }
  }

  datatype Location = IntReg(k: nat) | SseReg(k: nat) | Stack(offset: nat)

  /** Where eightbyte e of parameter i is passed. */
  function Place(ps: seq<Param>, memoryResult: bool, i: nat, e: nat): Location
    requires ValidParams(ps) && i < |ps| && e < ps[i].n
  {
    var c, p := After(ps, memoryResult, i), ps[i];
    if !Fits(c, p) then Stack(c.mem + 8 * e)
    else if p.eightbyte[e] == Integer then IntReg(c.ints + Count(p, Integer, e))
    else SseReg(c.sses + Count(p, Sse, e))
  }

  // ---------- No two eightbytes share a place ----------

  lemma {:induction false} CursorGrows(ps: seq<Param>, memoryResult: bool, j: nat, k: nat)
    requires ValidParams(ps) && j <= k <= |ps|
    ensures var a, b := After(ps, memoryResult, j), After(ps, memoryResult, k);
      a.ints <= b.ints && a.sses <= b.sses && a.mem <= b.mem && a.taken <= b.taken
    decreases k
  {
    if j < k {
      CursorGrows(ps, memoryResult, j, k - 1);
    }
  }

  /** Registers never run over, and no more parameters get any than there are registers. */
  lemma {:induction false} CursorBounded(ps: seq<Param>, memoryResult: bool, k: nat)
    requires ValidParams(ps) && k <= |ps|
    ensures var c := After(ps, memoryResult, k);
      c.ints <= MAX_INTEGER_ARGS && c.sses <= MAX_SSE_ARGS && c.taken <= c.ints + c.sses <= MAX_REGISTER_ARGS
    decreases k
  {
    if k > 0 {
      CursorBounded(ps, memoryResult, k - 1);
      var p := ps[k - 1];
      if Fits(After(ps, memoryResult, k - 1), p) {
        CountMonotone(p, p.eightbyte[0], 0, 4);
      }
    }
  }

  /** The place of an eightbyte lies between what was handed out before its parameter
      and what was handed out after it. */
  lemma {:induction false} PlaceBetween(ps: seq<Param>, memoryResult: bool, i: nat, e: nat)
    requires ValidParams(ps) && i < |ps| && e < ps[i].n
    ensures var a, b := After(ps, memoryResult, i), After(ps, memoryResult, i + 1);
      match Place(ps, memoryResult, i, e)
      case IntReg(k) => a.ints <= k < b.ints && Fits(a, ps[i])
      case SseReg(k) => a.sses <= k < b.sses && Fits(a, ps[i])
      case Stack(o) => a.mem <= o && o + 8 <= b.mem && !Fits(a, ps[i])
  {
    var p := ps[i];
    if Fits(After(ps, memoryResult, i), p) {
      CountMonotone(p, p.eightbyte[e], e, 4);
    }
  }

  lemma {:induction false} PlacesDiffer(ps: seq<Param>, memoryResult: bool, i: nat, e: nat, j: nat, f: nat)
    requires ValidParams(ps) && i < |ps| && j < |ps| && e < ps[i].n && f < ps[j].n && (i, e) != (j, f)
    ensures Place(ps, memoryResult, i, e) != Place(ps, memoryResult, j, f)
  {
    if j < i || (i == j && f < e) {
      PlacesDifferUp(ps, memoryResult, j, f, i, e);
    } else {
      PlacesDifferUp(ps, memoryResult, i, e, j, f);
    }
  }

  lemma {:induction false} PlacesDifferUp(ps: seq<Param>, memoryResult: bool, i: nat, e: nat, j: nat, f: nat)
    requires ValidParams(ps) && i <= j < |ps| && e < ps[i].n && f < ps[j].n && (i == j ==> e < f)
    ensures Place(ps, memoryResult, i, e) != Place(ps, memoryResult, j, f)
  {
    PlaceBetween(ps, memoryResult, i, e);
    PlaceBetween(ps, memoryResult, j, f);
    if i < j {
      CursorGrows(ps, memoryResult, i + 1, j);
    } else if Fits(After(ps, memoryResult, i), ps[i]) {
      CountMonotone(ps[i], ps[i].eightbyte[e], e, f);
    }
  }

  // ---------- What section 3.2.3 says ----------

  lemma {:induction false} CountIs(p: Param, c: Class, e: nat)
    requires e <= |p.eightbyte|
    ensures Count(p, c, e) == multiset(p.eightbyte[..e])[c]
    decreases e
  {
    if e > 0 {
      CountIs(p, c, e - 1);
      assert p.eightbyte[..e] == p.eightbyte[..e - 1] + [p.eightbyte[e - 1]];
    } else {
      assert p.eightbyte[..e] == [];
    }
  }

  /** A parameter in registers has no eightbyte of their classes beyond its own. */
  lemma {:induction false} CountRest(p: Param, c: Class, e: nat)
    requires ValidParam(p) && Candidate(p) && InFile(c) && p.n <= e <= 4
    ensures Count(p, c, 4) == Count(p, c, e)
    decreases 4 - e
  {
    if e < 4 {
      CountRest(p, c, e + 1);
    }
  }

  predicate InRegisters(ps: seq<Param>, memoryResult: bool, i: nat)
    requires ValidParams(ps) && i < |ps|
  {
    !Place(ps, memoryResult, i, 0).Stack?
  }

  /** Registers for a class that parameters before the i-th have got. */
  function RegistersUsed(ps: seq<Param>, memoryResult: bool, c: Class, i: nat): nat
    requires ValidParams(ps) && i <= |ps|
  {
    if i == 0 then 0
    else
      var more := if InRegisters(ps, memoryResult, i - 1) then Count(ps[i - 1], c, ps[i - 1].n) else 0;
      RegistersUsed(ps, memoryResult, c, i - 1) + more
  }

  /** Bytes that parameters before the i-th take on the stack. */
  function StackUsed(ps: seq<Param>, memoryResult: bool, i: nat): nat
    requires ValidParams(ps) && i <= |ps|
  {
    if i == 0 then 0
    else StackUsed(ps, memoryResult, i - 1) + if InRegisters(ps, memoryResult, i - 1) then 0 else 8 * ps[i - 1].n
  }

  /** There are six registers for class INTEGER, one of which a result in memory takes,
      and eight for class SSE.  A parameter whose eightbytes are of these classes gets
      registers exactly if all of it finds room, and then the lowest that are free;
      any other is on the stack, next to those before it. */
  predicate FollowsAbi(ps: seq<Param>, memoryResult: bool, i: nat)
    requires ValidParams(ps) && i < |ps|
  {
    var p := ps[i];
    var ints := RegistersUsed(ps, memoryResult, Integer, i) + if memoryResult then 1 else 0;
    var sses := RegistersUsed(ps, memoryResult, Sse, i);
    && (InRegisters(ps, memoryResult, i) <==>
          && (p.eightbyte[0] == Integer || p.eightbyte[0] == Sse)
          && ints + Count(p, Integer, p.n) <= 6 && sses + Count(p, Sse, p.n) <= 8)
    && forall e :: 0 <= e < p.n ==>
         Place(ps, memoryResult, i, e) ==
           if !InRegisters(ps, memoryResult, i) then Stack(StackUsed(ps, memoryResult, i) + 8 * e)
           else if p.eightbyte[e] == Integer then IntReg(ints + Count(p, Integer, e))
           else SseReg(sses + Count(p, Sse, e))
  }

  lemma {:induction false} CursorIsUsed(ps: seq<Param>, memoryResult: bool, i: nat)
    requires ValidParams(ps) && i <= |ps|
    ensures var c := After(ps, memoryResult, i);
      && c.ints == RegistersUsed(ps, memoryResult, Integer, i) + (if memoryResult then 1 else 0)
      && c.sses == RegistersUsed(ps, memoryResult, Sse, i) && c.mem == StackUsed(ps, memoryResult, i)
    decreases i
  {
    if i > 0 {
      CursorIsUsed(ps, memoryResult, i - 1);
      if Fits(After(ps, memoryResult, i - 1), ps[i - 1]) {
        CountRest(ps[i - 1], Integer, ps[i - 1].n);
        CountRest(ps[i - 1], Sse, ps[i - 1].n);
      }
    }
  }

  lemma {:induction false} PlacesFollowAbi(ps: seq<Param>, memoryResult: bool, i: nat)
    requires ValidParams(ps) && i < |ps|
    ensures FollowsAbi(ps, memoryResult, i)
  {
    CursorIsUsed(ps, memoryResult, i);
    if Candidate(ps[i]) {
      CountRest(ps[i], Integer, ps[i].n);
      CountRest(ps[i], Sse, ps[i].n);
    }
  }

  predicate Words(ps: seq<Param>) {
    ValidParams(ps) && forall j :: 0 <= j < |ps| ==> ps[j].n == 1 && ps[j].eightbyte[0] == Integer
  }

  /** One-word integers: the first six in registers, the others next to one another on
      the stack. */
  lemma {:induction false} WordArguments(ps: seq<Param>, i: nat)
    requires Words(ps) && i < |ps|
    ensures Place(ps, false, i, 0) == if i < 6 then IntReg(i) else Stack(8 * (i - 6))
  {
    WordsUsed(ps, i);
    CountIs(ps[i], Integer, 1);
    CountRest(ps[i], Integer, 1);
    CountRest(ps[i], Sse, 1);
  }

  lemma {:induction false} WordsUsed(ps: seq<Param>, i: nat)
    requires Words(ps) && i <= |ps|
    ensures var c := After(ps, false, i);
      c.ints == (if i < 6 then i else 6) && c.sses == 0 && c.mem == if i < 6 then 0 else 8 * (i - 6)
    decreases i
  {
    if i > 0 {
      WordsUsed(ps, i - 1);
      CountRest(ps[i - 1], Integer, 1);
      CountRest(ps[i - 1], Sse, 1);
    }
  }
}
