/**
  The callee's side of a call: registers for temporaries, stack slots for parameters
  and locals, and the moving of register arguments into the frame.
*/
module Frames {
  import opened Arguments
  import opened Calls

  /** A local variable of n eightbytes.  Integer temporaries may live in a register;
      statics and arrays of variable length have no slot in the frame. */
  datatype Local = Local(n: nat, temporary: bool, framed: bool)

  /** What decides a frame's layout; slots[j] is local j's register, 0 for none. */
  datatype Frame = Frame(ps: seq<Param>, memoryResult: bool, locals: seq<Local>, slots: seq<nat>, regs: nat)

  predicate ValidFrame(f: Frame) {
    ValidParams(f.ps) && |f.slots| == |f.locals| && forall j :: 0 <= j < |f.slots| ==> f.slots[j] <= f.regs
  }

  /** Local j needs a slot. */
  predicate Framed(f: Frame, j: nat)
    requires ValidFrame(f) && j < |f.locals|
  {
    f.locals[j].framed && f.slots[j] == 0
  }

  /** Whether parameter i comes in registers. */
  predicate Spilled(f: Frame, i: nat)
    requires ValidFrame(f) && i < |f.ps|
  {
    Fits(After(f.ps, f.memoryResult, i), f.ps[i])
  }

  // ---------- Layout ----------

  /** Bytes of slots for the register parameters among the first k. */
  function ParamBytes(f: Frame, k: nat): nat
    requires ValidFrame(f) && k <= |f.ps|
  {
    if k == 0 then 0 else ParamBytes(f, k - 1) + if Spilled(f, k - 1) then 8 * f.ps[k - 1].n else 0
  }

  function LocalBytes(f: Frame, k: nat): nat
    requires ValidFrame(f) && k <= |f.locals|
  {
    if k == 0 then 0 else LocalBytes(f, k - 1) + if Framed(f, k - 1) then 8 * f.locals[k - 1].n else 0
  }

  /** Bytes below %rbp before the first parameter's slot. */
  function Head(f: Frame): nat { 8 * f.regs + if f.memoryResult then 8 else 0 }

  /** What the frame holds below %rbp. */
  datatype Item = Saved(j: nat) | ResultAddress | ParamSlot(i: nat) | LocalSlot(j: nat)

  predicate Exists(f: Frame, x: Item)
    requires ValidFrame(f)
  {
    match x
    case Saved(j) => j < f.regs
    case ResultAddress => f.memoryResult
    case ParamSlot(i) => i < |f.ps| && Spilled(f, i)
    case LocalSlot(j) => j < |f.locals| && Framed(f, j)
  }

  /** How far below %rbp an item starts, and how long it is. */
  function Depth(f: Frame, x: Item): nat
    requires ValidFrame(f) && Exists(f, x)
  {
    match x
    case Saved(j) => 8 * j
    case ResultAddress => 8 * f.regs
    case ParamSlot(i) => Head(f) + ParamBytes(f, i)
    case LocalSlot(j) => Head(f) + ParamBytes(f, |f.ps|) + LocalBytes(f, j)
  }

  function Length(f: Frame, x: Item): nat
    requires ValidFrame(f) && Exists(f, x)
  {
    match x
    case Saved(_) => 8
    case ResultAddress => 8
    case ParamSlot(i) => 8 * f.ps[i].n
    case LocalSlot(j) => 8 * f.locals[j].n
  }

  /** The item's lowest address, from %rbp. */
  function Offset(f: Frame, x: Item): int
    requires ValidFrame(f) && Exists(f, x)
  {
    -(Depth(f, x) + Length(f, x))
  }

  /** Bytes from %rbp down to the last slot. */
  function Contents(f: Frame): nat
    requires ValidFrame(f)
  {
    Head(f) + ParamBytes(f, |f.ps|) + LocalBytes(f, |f.locals|)
  }

  // ---------- No two items overlap ----------

  /** Every item starts at a multiple of eight. */
  lemma {:induction false} SlotsAligned(f: Frame, x: Item)
    requires ValidFrame(f) && Exists(f, x)
    ensures Offset(f, x) % 8 == 0
  {
    match x {
      case ParamSlot(i) => BytesAligned(f, i, 0);
      case LocalSlot(j) => BytesAligned(f, |f.ps|, j);
      case _ =>
    }
  }

  lemma {:induction false} BytesAligned(f: Frame, i: nat, j: nat)
    requires ValidFrame(f) && i <= |f.ps| && j <= |f.locals|
    ensures ParamBytes(f, i) % 8 == 0 && LocalBytes(f, j) % 8 == 0
    decreases i + j
  {
    if i > 0 {
      BytesAligned(f, i - 1, j);
    }
    if j > 0 {
      BytesAligned(f, i, j - 1);
    }
  }

  lemma {:induction false} ParamBytesGrow(f: Frame, i: nat, k: nat)
    requires ValidFrame(f) && i <= k <= |f.ps|
    ensures ParamBytes(f, i) <= ParamBytes(f, k)
    decreases k
  {
    if i < k {
      ParamBytesGrow(f, i, k - 1);
    }
  }

  lemma {:induction false} LocalBytesGrow(f: Frame, i: nat, k: nat)
    requires ValidFrame(f) && i <= k <= |f.locals|
    ensures LocalBytes(f, i) <= LocalBytes(f, k)
    decreases k
  {
    if i < k {
      LocalBytesGrow(f, i, k - 1);
    }
  }

  /** The order of items from %rbp down. */
  predicate Above(x: Item, y: Item) {
    match (x, y)
    case (Saved(j), Saved(k)) => j < k
    case (ParamSlot(i), ParamSlot(k)) => i < k
    case (LocalSlot(j), LocalSlot(k)) => j < k
    case (Saved(_), _) => true
    case (ResultAddress, ParamSlot(_)) => true
    case (ResultAddress, LocalSlot(_)) => true
    case (ParamSlot(_), LocalSlot(_)) => true
    case _ => false
  }

  lemma {:induction false} AboveEnds(f: Frame, x: Item, y: Item)
    requires ValidFrame(f) && Exists(f, x) && Exists(f, y) && Above(x, y)
    ensures Depth(f, x) + Length(f, x) <= Depth(f, y)
  {
    match x {
      case ParamSlot(i) => ParamBytesGrow(f, i + 1, if y.ParamSlot? then y.i else |f.ps|);
      case LocalSlot(j) => LocalBytesGrow(f, j + 1, y.j);
      case _ =>
    }
  }

  /** Different items do not overlap, and all of them lie in the frame. */
  lemma {:induction false} SlotsDisjoint(f: Frame, x: Item, y: Item)
    requires ValidFrame(f) && Exists(f, x) && Exists(f, y) && x != y
    ensures Offset(f, x) + Length(f, x) <= Offset(f, y) || Offset(f, y) + Length(f, y) <= Offset(f, x)
    ensures -(Contents(f) as int) <= Offset(f, x) && Offset(f, x) + Length(f, x) <= 0
  {
    if Above(x, y) {
      AboveEnds(f, x, y);
    } else {
      AboveEnds(f, y, x);
    }
    SlotInside(f, x);
  }

  lemma {:induction false} SlotInside(f: Frame, x: Item)
    requires ValidFrame(f) && Exists(f, x)
    ensures -(Contents(f) as int) <= Offset(f, x) && Offset(f, x) + Length(f, x) <= 0
  {
    match x {
      case ParamSlot(i) => ParamBytesGrow(f, i + 1, |f.ps|);
      case LocalSlot(j) => LocalBytesGrow(f, j + 1, |f.locals|);
      case _ =>
    }
  }

  // ---------- Assigning slots ----------

  /** Temporaries among the first j locals. */
  function Temporaries(locals: seq<Local>, j: nat): nat
    requires j <= |locals|
  {
    if j == 0 then 0 else Temporaries(locals, j - 1) + if locals[j - 1].temporary then 1 else 0
  }

  /** Give the first five integer temporaries a register each, in order, the others none. */
  method AllocateRegisters(locals: seq<Local>) returns (slots: seq<nat>, regs: nat)
    ensures |slots| == |locals| && regs <= TEMP_INT_REGS
    ensures forall j :: 0 <= j < |slots| ==>
      var k := Temporaries(locals, j);
      slots[j] == if locals[j].temporary && k < 5 then k + 1 else 0
    ensures var n := Temporaries(locals, |locals|); regs == if n < 5 then n else 5
    ensures forall j :: 0 <= j < |slots| ==> slots[j] <= regs
  {
    slots, regs := [], 0;
    while |slots| < |locals|
      invariant |slots| <= |locals|
      invariant forall j :: 0 <= j < |slots| ==>
        var k := Temporaries(locals, j);
        slots[j] == if locals[j].temporary && k < 5 then k + 1 else 0
      invariant var n := Temporaries(locals, |slots|); regs == if n < 5 then n else 5
      invariant forall j :: 0 <= j < |slots| ==> slots[j] <= regs
      decreases |locals| - |slots|
    {
      if locals[|slots|].temporary && regs < TEMP_INT_REGS {
        regs := regs + 1;
        slots := slots + [regs];
      } else {
        slots := slots + [0];
      }
    }
  }

  /** Where the callee finds parameter i, from %rbp. */
  function ParamOffset(f: Frame, i: nat): int
    requires ValidFrame(f) && i < |f.ps|
  {
    if Spilled(f, i) then Offset(f, ParamSlot(i)) else 16 + After(f.ps, f.memoryResult, i).mem
  }

  /** Offsets of all parameters; argpc remembers which came in registers. */
  method PlaceParams(f: Frame, argpc: array<nat>) returns (registerArgs: nat, offsets: seq<int>, stackOffset: int)
    requires ValidFrame(f) && argpc.Length == MAX_REGISTER_ARGS
    modifies argpc
    ensures Chosen(f.ps, f.memoryResult, argpc[..], |f.ps|) && registerArgs == After(f.ps, f.memoryResult, |f.ps|).taken
    ensures |offsets| == |f.ps| && forall i :: 0 <= i < |f.ps| ==> offsets[i] == ParamOffset(f, i)
    ensures stackOffset - 8 * f.regs == -(Head(f) + ParamBytes(f, |f.ps|))
  {
    var ints, sses, memOffset := if f.memoryResult then 1 else 0, 0, 16;
    registerArgs, offsets := 0, [];
    stackOffset := if f.memoryResult then -8 else 0;
    var i: nat := 0;
    while i < |f.ps|
      invariant 0 <= i <= |f.ps| && Chosen(f.ps, f.memoryResult, argpc[..], i) && memOffset >= 16
      invariant Cursor(ints, sses, memOffset - 16, registerArgs) == After(f.ps, f.memoryResult, i)
      invariant |offsets| == i && forall h :: 0 <= h < i ==> offsets[h] == ParamOffset(f, h)
      invariant stackOffset - 8 * f.regs == -(Head(f) + ParamBytes(f, i))
    {
      var ok;
      ok, ints, sses := AllocRegisterParams(f.ps[i], ints, sses, After(f.ps, f.memoryResult, i));
      ChosenNext(f.ps, f.memoryResult, argpc[..], i);
      if ok {
        ghost var was := argpc[..];
        argpc[registerArgs] := i;
        assert argpc[..] == was[registerArgs := i];
        registerArgs := registerArgs + 1;
        stackOffset := stackOffset - 8 * f.ps[i].n;
        offsets := offsets + [stackOffset - 8 * f.regs];
      } else {
        offsets := offsets + [memOffset];
        memOffset := memOffset + 8 * f.ps[i].n;
      }
      i := i + 1;
    }
  }

  /** Offsets of the locals that have a slot, 0 for the others. */
  method AllocateLocals(f: Frame, stackOffset0: int) returns (stackOffset: int, offsets: seq<int>)
    requires ValidFrame(f) && stackOffset0 - 8 * f.regs == -(Head(f) + ParamBytes(f, |f.ps|))
    ensures stackOffset - 8 * f.regs == -(Contents(f) as int)
    ensures |offsets| == |f.locals|
    ensures forall j :: 0 <= j < |f.locals| ==> offsets[j] == if Framed(f, j) then Offset(f, LocalSlot(j)) else 0
  {
    stackOffset, offsets := stackOffset0, [];
    while |offsets| < |f.locals|
      invariant |offsets| <= |f.locals|
      invariant stackOffset - 8 * f.regs == -(Head(f) + ParamBytes(f, |f.ps|) + LocalBytes(f, |offsets|))
      invariant forall j :: 0 <= j < |offsets| ==> offsets[j] == if Framed(f, j) then Offset(f, LocalSlot(j)) else 0
      decreases |f.locals| - |offsets|
    {
      var j := |offsets|;
      if f.locals[j].framed && f.slots[j] == 0 {
        stackOffset := stackOffset - 8 * f.locals[j].n;
        offsets := offsets + [stackOffset - 8 * f.regs];
      } else {
        offsets := offsets + [0];
      }
    }
  }

  // ---------- Entering ----------

  /** All eightbytes of parameter i are where the callee looks for them. */
  predicate Readable(f: Frame, mem: map<int, Value>, rbp: int, i: nat)
    requires ValidFrame(f) && i < |f.ps|
  {
    OnStack(mem, rbp + ParamOffset(f, i), i, f.ps[i].n)
  }

  /** The parameters passed in memory, and the first r passed in registers, are readable. */
  predicate ReadableUpTo(f: Frame, mem: map<int, Value>, rbp: int, r: nat)
    requires ValidFrame(f)
  {
    forall i :: 0 <= i < |f.ps| ==> ReadableIf(f, mem, rbp, r, i)
  }

  predicate ReadableIf(f: Frame, mem: map<int, Value>, rbp: int, r: nat, i: nat)
    requires ValidFrame(f) && i < |f.ps|
  {
    (Spilled(f, i) ==> After(f.ps, f.memoryResult, i).taken < r) ==> Readable(f, mem, rbp, i)
  }

  /** The first n registers for temporaries are saved below the address. */
  predicate SavedBelow(mem: map<int, Value>, top: int, temps: seq<Value>, n: nat) {
    n <= |temps| && forall j :: 0 <= j < n ==> top - 8 - 8 * j in mem && mem[top - 8 - 8 * j] == temps[j]
  }

  /** Save the registers that temporaries will use. */
  method PushTemporaries(m: Machine, regs: nat)
    requires m.Valid() && regs <= TEMP_INT_REGS
    modifies m`mem, m`rsp
    ensures m.rsp == old(m.rsp) - 8 * regs && KeptFrom(m.mem, old(m.mem), old(m.rsp))
    ensures SavedBelow(m.mem, old(m.rsp), m.temps, regs)
  {
    var i := 0;
    while i < regs
      invariant 0 <= i <= regs && m.rsp == old(m.rsp) - 8 * i && KeptFrom(m.mem, old(m.mem), old(m.rsp))
      invariant SavedBelow(m.mem, old(m.rsp), m.temps, i)
    {
      m.rsp := m.rsp - 8;
      m.mem := m.mem[m.rsp := m.temps[i]];
      i := i + 1;
    }
  }

  /** Round the frame up, so that %rsp stays a multiple of 16. */
  method Align(regOffset: nat, stackOffset0: int) returns (stackOffset: int)
    requires stackOffset0 <= 0
    ensures (regOffset - stackOffset) % 16 == 0 && stackOffset0 - 16 <= stackOffset <= stackOffset0
  {
    stackOffset := stackOffset0;
    if stackOffset - regOffset < 0 {
      var i := (regOffset - stackOffset) % 16;
      stackOffset := stackOffset - (16 - i);
    }
  }

  /** Store a register parameter into its slot. */
  method StoreFromRegisters(m: Machine, i: nat, p: Param, a: int, ints0: nat, sses0: nat)
    requires ValidParam(p) && Candidate(p) && Loaded(m.ints, m.sses, ints0, sses0, p, i, p.n)
    modifies m`mem
    ensures OnStack(m.mem, a, i, p.n)
    ensures KeptOutside(m.mem, old(m.mem), a, p.n)
  {
    var e, k, s := 0, ints0, sses0;
    while e < p.n
      invariant 0 <= e <= p.n && OnStack(m.mem, a, i, e)
      invariant k == ints0 + Count(p, Integer, e) && s == sses0 + Count(p, Sse, e)
      invariant KeptOutside(m.mem, old(m.mem), a, p.n)
    {
      assert InRegister(m.ints, m.sses, ints0, sses0, p, e, Slice(i, e));
      if p.eightbyte[e] == Integer {
        m.mem := m.mem[a + 8 * e := m.ints[k]];
        k := k + 1;
      } else {
        m.mem := m.mem[a + 8 * e := m.sses[s]];
        s := s + 1;
      }
      e := e + 1;
    }
  }

  /** Memory outside the n eightbytes from an address on is as it was. */
  predicate KeptOutside(mem: map<int, Value>, before: map<int, Value>, a: int, n: nat) {
    forall b :: b in before && (b < a || b >= a + 8 * n) ==> b in mem && mem[b] == before[b]
  }

  lemma {:induction false} SpillMore(f: Frame, before: map<int, Value>, mem: map<int, Value>, rbp: int, i: nat, r: nat)
    requires ValidFrame(f) && ChosenAt(f.ps, f.memoryResult, i, r, |f.ps|)
    requires ReadableUpTo(f, before, rbp, r)
    requires Readable(f, mem, rbp, i) && KeptOutside(mem, before, rbp + ParamOffset(f, i), f.ps[i].n)
    ensures ReadableUpTo(f, mem, rbp, r + 1)
  {
    var r' := r + 1;
    forall h | 0 <= h < |f.ps|
      ensures ReadableIf(f, mem, rbp, r', h)
    {
      if h != i {
        assert ReadableIf(f, before, rbp, r, h);
        if Spilled(f, h) {
          TakenDiffers(f, h, i);
        }
        if Readable(f, before, rbp, h) {
          StillReadable(f, before, mem, rbp, i, h);
        }
      }
    }
  }

  /** Storing parameter i leaves the others alone. */
  lemma {:induction false} StillReadable(f: Frame, before: map<int, Value>, mem: map<int, Value>, rbp: int, i: nat, h: nat)
    requires ValidFrame(f) && i < |f.ps| && h < |f.ps| && h != i && Spilled(f, i) && Readable(f, before, rbp, h)
    requires KeptOutside(mem, before, rbp + ParamOffset(f, i), f.ps[i].n)
    ensures Readable(f, mem, rbp, h)
  {
    if Spilled(f, h) {
      SlotsDisjoint(f, ParamSlot(h), ParamSlot(i));
    } else {
      SlotInside(f, ParamSlot(i));
    }
    var a := rbp + ParamOffset(f, h);
    forall e | 0 <= e < f.ps[h].n
      ensures a + 8 * e in mem && mem[a + 8 * e] == Slice(h, e)
    {
    }
  }

  lemma {:induction false} TakenDiffers(f: Frame, h: nat, i: nat)
    requires ValidFrame(f) && h < |f.ps| && i < |f.ps| && h != i && Spilled(f, h) && Spilled(f, i)
    ensures After(f.ps, f.memoryResult, h).taken != After(f.ps, f.memoryResult, i).taken
  {
    if h < i {
      CursorGrows(f.ps, f.memoryResult, h + 1, i);
    } else {
      CursorGrows(f.ps, f.memoryResult, i + 1, h);
    }
  }

  /** Move the r-th register parameter to its slot. */
  method SpillOne(m: Machine, f: Frame, i: nat, offset: int, k: nat, s: nat, ghost r: nat)
    requires ValidFrame(f) && ChosenAt(f.ps, f.memoryResult, i, r, |f.ps|) && offset == ParamOffset(f, i)
    requires CursorIs(f.ps, f.memoryResult, i, r, k, s) && LoadedAt(f.ps, f.memoryResult, m.ints, m.sses, i, r + 1)
    requires ReadableUpTo(f, m.mem, m.rbp, r)
    modifies m`mem
    ensures ReadableUpTo(f, m.mem, m.rbp, r + 1) && KeptFrom(m.mem, old(m.mem), m.rbp - Head(f))
  {
    StoreFromRegisters(m, i, f.ps[i], m.rbp + offset, k, s);
    SpillMore(f, old(m.mem), m.mem, m.rbp, i, r);
  }

  /** Move the register parameters to their slots. */
  method SpillRegisters(m: Machine, f: Frame, argpc: seq<nat>, offsets: seq<int>, registerArgs: nat)
    requires ValidFrame(f) && Chosen(f.ps, f.memoryResult, argpc, |f.ps|)
    requires registerArgs == After(f.ps, f.memoryResult, |f.ps|).taken
    requires RegistersLoaded(f.ps, f.memoryResult, m.ints, m.sses, registerArgs)
    requires |offsets| == |f.ps| && forall i :: 0 <= i < |f.ps| ==> offsets[i] == ParamOffset(f, i)
    requires ReadableUpTo(f, m.mem, m.rbp, 0)
    modifies m`mem
    ensures ReadableUpTo(f, m.mem, m.rbp, registerArgs) && KeptFrom(m.mem, old(m.mem), m.rbp - Head(f))
  {
    var k, s := if f.memoryResult then 1 else 0, 0;
    FirstCursor(f.ps, f.memoryResult);
    var r := 0;
    while r < registerArgs
      invariant 0 <= r <= registerArgs && RegCursor(f.ps, f.memoryResult, r, k, s)
      invariant ReadableUpTo(f, m.mem, m.rbp, r) && KeptFrom(m.mem, old(m.mem), m.rbp - Head(f))
    {
      var i := argpc[r];
      assert ChosenAt(f.ps, f.memoryResult, i, r, |f.ps|) && CursorIs(f.ps, f.memoryResult, i, r, k, s);
      assert LoadedAt(f.ps, f.memoryResult, m.ints, m.sses, i, registerArgs);
      SpillOne(m, f, i, offsets[i], k, s, r);
      NextCursor(f.ps, f.memoryResult, i, r, k, s);
      k, s := CountRegisterClassifications(f.ps[i], k, s);
      r := r + 1;
    }
  }

  lemma {:induction false} PassedApart(
    f: Frame, mem: map<int, Value>, ints: seq<Value>, sses: seq<Value>, rbp: int)
    requires ValidFrame(f) && AllPassed(f.ps, f.memoryResult, mem, ints, sses, rbp + 16)
    ensures RegistersLoaded(f.ps, f.memoryResult, ints, sses, After(f.ps, f.memoryResult, |f.ps|).taken)
    ensures ReadableUpTo(f, mem, rbp, 0)
  {
    forall i | 0 <= i < |f.ps|
      ensures PassedAt(f, mem, ints, sses, rbp, i)
    {
      forall e | 0 <= e < f.ps[i].n
        ensures PassedPart(f, mem, ints, sses, rbp, i, e)
      {
        assert Holds(mem, ints, sses, rbp + 16, Place(f.ps, f.memoryResult, i, e), Slice(i, e));
      }
    }
    var total := After(f.ps, f.memoryResult, |f.ps|).taken;
    forall i | 0 <= i < |f.ps|
      ensures LoadedAt(f.ps, f.memoryResult, ints, sses, i, total) && ReadableIf(f, mem, rbp, 0, i)
    {
      assert PassedAt(f, mem, ints, sses, rbp, i);
      ArrivedAt(f, mem, ints, sses, rbp, i);
    }
  }

  lemma {:induction false} ArrivedAt(f: Frame, mem: map<int, Value>, ints: seq<Value>, sses: seq<Value>, rbp: int, i: nat)
    requires ValidFrame(f) && i < |f.ps| && PassedAt(f, mem, ints, sses, rbp, i)
    ensures var c := After(f.ps, f.memoryResult, i);
      if Spilled(f, i) then Loaded(ints, sses, c.ints, c.sses, f.ps[i], i, f.ps[i].n)
      else Readable(f, mem, rbp, i)
  {
    var c, p := After(f.ps, f.memoryResult, i), f.ps[i];
    if Spilled(f, i) {
      forall e | 0 <= e < p.n
        ensures InRegister(ints, sses, c.ints, c.sses, p, e, Slice(i, e))
      {
        assert PassedPart(f, mem, ints, sses, rbp, i, e);
      }
    } else {
      var a := rbp + ParamOffset(f, i);
      forall e | 0 <= e < p.n
        ensures a + 8 * e in mem && mem[a + 8 * e] == Slice(i, e)
      {
        assert PassedPart(f, mem, ints, sses, rbp, i, e);
      }
    }
  }

  /** Parameter i arrived, in registers or above the frame. */
  predicate PassedAt(f: Frame, mem: map<int, Value>, ints: seq<Value>, sses: seq<Value>, rbp: int, i: nat)
    requires ValidFrame(f) && i < |f.ps|
  {
    forall e :: 0 <= e < f.ps[i].n ==> PassedPart(f, mem, ints, sses, rbp, i, e)
  }

  predicate PassedPart(f: Frame, mem: map<int, Value>, ints: seq<Value>, sses: seq<Value>, rbp: int, i: nat, e: nat)
    requires ValidFrame(f) && i < |f.ps| && e < f.ps[i].n
  {
    var c, p := After(f.ps, f.memoryResult, i), f.ps[i];
    if Spilled(f, i) then InRegister(ints, sses, c.ints, c.sses, p, e, Slice(i, e))
    else rbp + 16 + c.mem + 8 * e in mem && mem[rbp + 16 + c.mem + 8 * e] == Slice(i, e)
  }

  /** Decide where everything goes. */
  method LayOut(ps: seq<Param>, memoryResult: bool, locals: seq<Local>, argpc: array<nat>)
    returns (f: Frame, registerArgs: nat, offsets: seq<int>, localOffsets: seq<int>, stackOffset: int)
    requires ValidParams(ps) && argpc.Length == MAX_REGISTER_ARGS
    modifies argpc
    ensures ValidFrame(f) && f.ps == ps && f.memoryResult == memoryResult && f.locals == locals && f.regs <= TEMP_INT_REGS
    ensures Chosen(ps, memoryResult, argpc[..], |ps|) && registerArgs == After(ps, memoryResult, |ps|).taken
    ensures |offsets| == |ps| && forall i :: 0 <= i < |ps| ==> offsets[i] == ParamOffset(f, i)
    ensures |localOffsets| == |locals|
    ensures forall j :: 0 <= j < |locals| ==> localOffsets[j] == if Framed(f, j) then Offset(f, LocalSlot(j)) else 0
    ensures stackOffset - 8 * f.regs == -(Contents(f) as int)
  {
    var slots, regs := AllocateRegisters(locals);
    f := Frame(ps, memoryResult, locals, slots, regs);
    registerArgs, offsets, stackOffset := PlaceParams(f, argpc);
    stackOffset, localOffsets := AllocateLocals(f, stackOffset);
  }

  /** Make room for the frame, and keep where the result goes. */
  method Reserve(m: Machine, f: Frame, stackOffset0: int)
    requires m.Valid() && ValidFrame(f) && f.regs <= TEMP_INT_REGS && m.rsp == m.rbp && m.rbp % 16 == 0
    requires stackOffset0 - 8 * f.regs == -(Contents(f) as int)
    modifies m`mem, m`rsp
    ensures m.rsp % 16 == 0 && m.rsp <= m.rbp - Contents(f) && KeptFrom(m.mem, old(m.mem), m.rbp)
    ensures SavedBelow(m.mem, m.rbp, m.temps, f.regs)
    ensures f.memoryResult ==> ResultKept(f, m.mem, m.rbp, m.ints)
  {
    PushTemporaries(m, f.regs);
    var stackOffset := Align(8 * f.regs, stackOffset0);
    m.rsp := m.rsp + stackOffset;
    if f.memoryResult {
      m.mem := m.mem[m.rbp - 8 - 8 * f.regs := m.ints[0]];
    }
  }

  /** The address for the result, passed in the first integer register, is in its slot. */
  predicate ResultKept(f: Frame, mem: map<int, Value>, rbp: int, ints: seq<Value>)
    requires ValidFrame(f) && f.memoryResult && |ints| > 0
  {
    var a := rbp + Offset(f, ResultAddress);
    a in mem && mem[a] == ints[0]
  }

  /** Set up the frame.  Afterwards every eightbyte of every parameter is where its
      offset says, wherever it was passed, and the stack pointer is aligned and below
      all slots. */
  method Enter(m: Machine, ps: seq<Param>, memoryResult: bool, locals: seq<Local>)
    returns (f: Frame, offsets: seq<int>, localOffsets: seq<int>)
    requires m.Valid() && ValidParams(ps) && m.rsp == m.rbp && m.rbp % 16 == 0
    requires AllPassed(ps, memoryResult, m.mem, m.ints, m.sses, m.rbp + 16)
    modifies m`mem, m`rsp
    ensures ValidFrame(f) && f.ps == ps && f.memoryResult == memoryResult && f.locals == locals && f.regs <= TEMP_INT_REGS
    ensures |offsets| == |ps| && forall i :: 0 <= i < |ps| ==> offsets[i] == ParamOffset(f, i)
    ensures forall i :: 0 <= i < |ps| ==> Readable(f, m.mem, m.rbp, i)
    ensures |localOffsets| == |locals|
    ensures forall j :: 0 <= j < |locals| ==> localOffsets[j] == if Framed(f, j) then Offset(f, LocalSlot(j)) else 0
    ensures memoryResult ==> ResultKept(f, m.mem, m.rbp, m.ints)
    ensures SavedBelow(m.mem, m.rbp, m.temps, f.regs)
    ensures m.rsp % 16 == 0 && m.rsp <= m.rbp - Contents(f) && KeptFrom(m.mem, old(m.mem), m.rbp)
  {
    var argpc := new nat[MAX_REGISTER_ARGS];
    var registerArgs, stackOffset;
    f, registerArgs, offsets, localOffsets, stackOffset := LayOut(ps, memoryResult, locals, argpc);
    Reserve(m, f, stackOffset);
    PassedKept(f, old(m.mem), m.mem, m.ints, m.sses, m.rbp);
    PassedApart(f, m.mem, m.ints, m.sses, m.rbp);
    SpillRegisters(m, f, argpc[..], offsets, registerArgs);
    AllReadable(f, m.mem, m.rbp);
  }

  lemma {:induction false} PassedKept(
    f: Frame, before: map<int, Value>, mem: map<int, Value>, ints: seq<Value>, sses: seq<Value>, rbp: int)
    requires ValidFrame(f) && AllPassed(f.ps, f.memoryResult, before, ints, sses, rbp + 16) && KeptFrom(mem, before, rbp + 16)
    ensures AllPassed(f.ps, f.memoryResult, mem, ints, sses, rbp + 16)
  {
    forall i, e | 0 <= i < |f.ps| && 0 <= e < f.ps[i].n
      ensures Holds(mem, ints, sses, rbp + 16, Place(f.ps, f.memoryResult, i, e), Slice(i, e))
    {
      assert Holds(before, ints, sses, rbp + 16, Place(f.ps, f.memoryResult, i, e), Slice(i, e));
    }
  }

  lemma {:induction false} AllReadable(f: Frame, mem: map<int, Value>, rbp: int)
    requires ValidFrame(f) && ReadableUpTo(f, mem, rbp, After(f.ps, f.memoryResult, |f.ps|).taken)
    ensures forall i :: 0 <= i < |f.ps| ==> Readable(f, mem, rbp, i)
  {
    forall i | 0 <= i < |f.ps|
      ensures Readable(f, mem, rbp, i)
    {
      CursorGrows(f.ps, f.memoryResult, i + 1, |f.ps|);
      assert ReadableIf(f, mem, rbp, After(f.ps, f.memoryResult, |f.ps|).taken, i);
    }
  }

  // ---------- Caller and callee together ----------

  /** The call and the first two instructions of the callee. */
  method EnterCall(m: Machine, ps: seq<Param>, memoryResult: bool)
    requires m.Valid() && ValidParams(ps) && AllPassed(ps, memoryResult, m.mem, m.ints, m.sses, m.rsp)
    modifies m`mem, m`rsp, m`rbp
    ensures m.rsp == m.rbp == old(m.rsp) - 16 && KeptFrom(m.mem, old(m.mem), old(m.rsp))
    ensures AllPassed(ps, memoryResult, m.mem, m.ints, m.sses, m.rbp + 16)
    ensures m.rbp in m.mem && m.mem[m.rbp] == Address(old(m.rbp))
  {
    m.rsp := m.rsp - 8;
    m.mem := m.mem[m.rsp := Other];   // the return address
    m.rsp := m.rsp - 8;
    m.mem := m.mem[m.rsp := Address(m.rbp)];
    m.rbp := m.rsp;
    PassedKept(Frame(ps, memoryResult, [], [], 0), old(m.mem), m.mem, m.ints, m.sses, m.rbp);
  }

  /** Pass the arguments, call, and set up the callee's frame: the callee finds every
      eightbyte of every argument at the offsets it computed by itself. */
  method Call(m: Machine, ps: seq<Param>, memoryResult: bool, locals: seq<Local>)
    returns (f: Frame, offsets: seq<int>, localOffsets: seq<int>, memUsed: nat)
    requires m.Valid() && ValidParams(ps) && m.rsp % 16 == 0
    modifies m`mem, m`rsp, m`rbp, m`ints, m`sses
    ensures m.Valid() && ValidFrame(f) && f.ps == ps && f.locals == locals
    ensures |offsets| == |ps| && forall i :: 0 <= i < |ps| ==> offsets[i] == ParamOffset(f, i)
    ensures forall i :: 0 <= i < |ps| ==> Readable(f, m.mem, m.rbp, i)
    ensures |localOffsets| == |locals|
    ensures forall j :: 0 <= j < |locals| ==> localOffsets[j] == if Framed(f, j) then Offset(f, LocalSlot(j)) else 0
    ensures m.rbp == old(m.rsp) - memUsed - 16 && m.rbp % 16 == 0 && m.rsp % 16 == 0 && m.rsp <= m.rbp - Contents(f)
    ensures Returnable(f, m.mem, m.rbp, old(m.rbp), m.temps)
    ensures f.memoryResult == memoryResult && After(ps, memoryResult, |ps|).mem <= memUsed
    ensures KeptFrom(m.mem, old(m.mem), old(m.rsp))
  {
    memUsed := m.PushFunctionArguments(ps, memoryResult);
    EnterCall(m, ps, memoryResult);
    f, offsets, localOffsets := Enter(m, ps, memoryResult, locals);
  }

  // ---------- Whole calls ----------

  /** The frame holds what is given back on return: the caller's %rbp, and the saved registers. */
  predicate Returnable(f: Frame, mem: map<int, Value>, rbp: int, callerRbp: int, temps: seq<Value>) {
    f.regs <= TEMP_INT_REGS && rbp in mem && mem[rbp] == Address(callerRbp) && SavedBelow(mem, rbp, temps, f.regs)
  }

  /** What a function does between its entry and its return, as far as frames go: it
      assigns to eightbytes of its locals and parameters, and calls functions. */
  datatype Step =
    | SetLocal(j: nat, e: nat, v: Value)
    | SetParam(i: nat, e: nat, v: Value)
    | Invoke(callee: Activation)

  /** A function called with the given parameters, and all that it does. */
  datatype Activation = Activation(ps: seq<Param>, memoryResult: bool, locals: seq<Local>, body: seq<Step>)

  predicate ValidActivation(c: Activation) {
    && ValidParams(c.ps)
    && forall k :: 0 <= k < |c.body| ==>
         match c.body[k]
         case SetLocal(j, e, _) => j < |c.locals| && e < c.locals[j].n
         case SetParam(i, e, _) => i < |c.ps| && e < c.ps[i].n
         case Invoke(callee) => ValidActivation(callee)
  }

  /** The frame has what the step assigns to. */
  predicate HasPlace(f: Frame, s: Step) {
    && ValidFrame(f)
    && match s
       case SetLocal(j, e, _) => j < |f.locals| && e < f.locals[j].n
       case SetParam(i, e, _) => i < |f.ps| && e < f.ps[i].n
       case Invoke(_) => false
  }

  /** Memory after an assignment; a local in a register or without a slot is not there. */
  function MemoryAfter(f: Frame, s: Step, mem: map<int, Value>, rbp: int): map<int, Value>
    requires HasPlace(f, s)
  {
    match s
    case SetLocal(j, e, v) => if Framed(f, j) then mem[rbp + Offset(f, LocalSlot(j)) + 8 * e := v] else mem
    case SetParam(i, e, v) => mem[rbp + ParamOffset(f, i) + 8 * e := v]
  }

  /** The temporary registers after it. */
  function TempsAfter(f: Frame, s: Step, temps: seq<Value>): seq<Value>
    requires HasPlace(f, s) && f.regs <= |temps|
  {
    if s.SetLocal? && f.slots[s.j] != 0 then temps[f.slots[s.j] - 1 := s.v] else temps
  }

  /** The offsets computed on entry are those of the places that the caller filled, and
      of the frame's slots. */
  predicate PlacesKnown(f: Frame, offsets: seq<int>, localOffsets: seq<int>) {
    && ValidFrame(f) && |offsets| == |f.ps| && |localOffsets| == |f.locals|
    && (forall i :: 0 <= i < |f.ps| ==> offsets[i] == ParamOffset(f, i))
    && (forall j :: 0 <= j < |f.locals| ==> localOffsets[j] == if Framed(f, j) then Offset(f, LocalSlot(j)) else 0)
  }

  /** Carry out an assignment, at the offsets that were computed on entry. */
  method Set(m: Machine, f: Frame, offsets: seq<int>, localOffsets: seq<int>, s: Step)
    requires m.Valid() && HasPlace(f, s) && f.regs <= TEMP_INT_REGS
    requires PlacesKnown(f, offsets, localOffsets)
    modifies m`mem, m`temps
    ensures m.Valid() && m.mem == MemoryAfter(f, s, old(m.mem), m.rbp) && m.temps == TempsAfter(f, s, old(m.temps))
  {
    match s {
      case SetLocal(j, e, v) =>
        if f.slots[j] != 0 {
          m.temps := m.temps[f.slots[j] - 1 := v];
        } else if f.locals[j].framed {
          m.mem := m.mem[m.rbp + localOffsets[j] + 8 * e := v];
        }
      case SetParam(i, e, v) =>
        m.mem := m.mem[m.rbp + offsets[i] + 8 * e := v];
    }
  }

  /** Everything that the caller gets back is still there, and what lies above the
      arguments is as it was before the call. */
  predicate Intact(
    f: Frame, mem: map<int, Value>, rbp: int, now: seq<Value>,
    callerRbp: int, temps: seq<Value>, before: map<int, Value>, top: int)
  {
    && Returnable(f, mem, rbp, callerRbp, temps) && KeptFrom(mem, before, top)
    && |now| == |temps| && forall j :: f.regs <= j < |temps| ==> now[j] == temps[j]
  }

  /** No assignment to a local or a parameter touches what the caller gets back. */
  lemma {:induction false} SetKeepsIntact(
    f: Frame, s: Step, mem: map<int, Value>, rbp: int, now: seq<Value>,
    callerRbp: int, temps: seq<Value>, before: map<int, Value>, top: int)
    requires HasPlace(f, s) && Intact(f, mem, rbp, now, callerRbp, temps, before, top) && |temps| == TEMP_INT_REGS
    requires rbp + 16 + After(f.ps, f.memoryResult, |f.ps|).mem <= top
    ensures Intact(f, MemoryAfter(f, s, mem, rbp), rbp, TempsAfter(f, s, now), callerRbp, temps, before, top)
  {
    if s.SetParam? && !Spilled(f, s.i) {
      CursorGrows(f.ps, f.memoryResult, s.i + 1, |f.ps|);
    } else if s.SetParam? {
      SlotBelowSaved(f, ParamSlot(s.i));
    } else if Framed(f, s.j) {
      SlotBelowSaved(f, LocalSlot(s.j));
    }
  }

  lemma {:induction false} SlotBelowSaved(f: Frame, x: Item)
    requires ValidFrame(f) && Exists(f, x) && !x.Saved?
    ensures Offset(f, x) + Length(f, x) <= -8 * f.regs
  {
    SlotInside(f, x);
    forall k | 0 <= k < f.regs
      ensures Offset(f, x) + Length(f, x) <= -8 * k - 8
    {
      AboveEnds(f, Saved(k), x);
    }
  }

  /** Give back the saved registers and the caller's frame, and return. */
  method Leave(m: Machine, f: Frame, ghost callerRbp: int, ghost temps: seq<Value>)
    requires m.Valid() && Returnable(f, m.mem, m.rbp, callerRbp, temps)
    requires |temps| == |m.temps| && forall j :: f.regs <= j < |temps| ==> m.temps[j] == temps[j]
    modifies m`rsp, m`rbp, m`temps
    ensures m.Valid() && m.temps == temps && m.rbp == callerRbp && m.rsp == old(m.rbp) + 16
  {
    m.rsp := m.rbp - 8 * f.regs;
    var i := f.regs;
    while i > 0
      invariant 0 <= i <= f.regs && m.Valid() && m.rbp == old(m.rbp) && m.rsp == m.rbp - 8 * i
      invariant forall j :: i <= j < |temps| ==> m.temps[j] == temps[j]
    {
      i := i - 1;
      assert m.rsp == m.rbp - 8 - 8 * i && SavedBelow(m.mem, m.rbp, temps, f.regs);
      m.temps := m.temps[i := m.mem[m.rsp]];
      m.rsp := m.rsp + 8;
    }
    m.rsp := m.rbp;
    m.rbp := m.mem[m.rsp].a;
    m.rsp := m.rsp + 8;
    m.rsp := m.rsp + 8;
  }

  /** Everything between entry and return. */
  method RunBody(
    m: Machine, c: Activation, f: Frame, offsets: seq<int>, localOffsets: seq<int>,
    ghost callerRbp: int, ghost temps: seq<Value>, ghost before: map<int, Value>, ghost top: int) returns (at: seq<int>)
    requires m.Valid() && ValidActivation(c) && m.rsp % 16 == 0 && m.rsp <= m.rbp - 8 * f.regs
    requires PlacesKnown(f, offsets, localOffsets) && f.ps == c.ps && f.locals == c.locals
    requires Intact(f, m.mem, m.rbp, m.temps, callerRbp, temps, before, top)
    requires m.rbp + 16 + After(f.ps, f.memoryResult, |f.ps|).mem <= top
    modifies m
    ensures m.Valid() && m.rsp == old(m.rsp) && m.rbp == old(m.rbp)
    ensures Intact(f, m.mem, m.rbp, m.temps, callerRbp, temps, before, top)
    ensures |at| == CallsOf(c.body) && forall i :: 0 <= i < |at| ==> at[i] % 16 == 0
    decreases c, 0
  {
    ghost var rsp, rbp := m.rsp, m.rbp;
    at := [];
    var k := 0;
    assert c.body[..k] == [];
    while k < |c.body|
      invariant 0 <= k <= |c.body| && m.Valid() && m.rsp == rsp && m.rbp == rbp
      invariant Intact(f, m.mem, rbp, m.temps, callerRbp, temps, before, top)
      invariant |at| == CallsOf(c.body[..k]) && forall j :: 0 <= j < |at| ==> at[j] % 16 == 0
    {
      var s := c.body[k];
      CallsOfMore(c.body, k);
      if s.Invoke? {
        ghost var entered := m.mem;
        var more := Perform(m, s.callee);
        StillReturnable(f, entered, m.mem, rbp, rsp, callerRbp, temps);
        at := at + more;
      } else {
        SetKeepsIntact(f, s, m.mem, rbp, m.temps, callerRbp, temps, before, top);
        Set(m, f, offsets, localOffsets, s);
      }
      k := k + 1;
    }
    assert c.body[..k] == c.body;
  }

  /** A call from start to end, with all that the callee does, and with all calls that
      it makes in turn.  Every one of them finds an aligned stack pointer, and in the end
      the caller has its stack pointer, its frame, its registers and its memory back. */
  method Perform(m: Machine, c: Activation) returns (at: seq<int>)
    requires m.Valid() && ValidActivation(c) && m.rsp % 16 == 0
    modifies m
    ensures m.Valid() && m.rsp == old(m.rsp) && m.rbp == old(m.rbp) && m.temps == old(m.temps)
    ensures KeptFrom(m.mem, old(m.mem), old(m.rsp))
    ensures |at| == CallCount(c) && forall i :: 0 <= i < |at| ==> at[i] % 16 == 0
    decreases c, 1
  {
    ghost var callerRbp, temps, before, top := m.rbp, m.temps, m.mem, m.rsp;
    var f, offsets, localOffsets, memUsed := Call(m, c.ps, c.memoryResult, c.locals);
    var first := m.rbp + 16;   // the stack pointer at the call
    var more := RunBody(m, c, f, offsets, localOffsets, callerRbp, temps, before, top);
    at := [first] + more;
    Leave(m, f, callerRbp, temps);
    m.rsp := m.rsp + memUsed;
  }

  lemma {:induction false} StillReturnable(
    f: Frame, before: map<int, Value>, mem: map<int, Value>, rbp: int, rsp: int, callerRbp: int, temps: seq<Value>)
    requires Returnable(f, before, rbp, callerRbp, temps) && KeptFrom(mem, before, rsp) && rsp <= rbp - 8 * f.regs
    ensures Returnable(f, mem, rbp, callerRbp, temps)
  {
  }

  /** The number of calls in an activation, itself included. */
  function CallCount(c: Activation): nat
    decreases c, 1
  {
    1 + CallsOf(c.body)
  }

  function CallsOf(body: seq<Step>): nat
    decreases body, 0
  {
    if body == [] then 0 else CallsOf(body[..|body| - 1]) + StepCalls(body[|body| - 1])
  }

  function StepCalls(s: Step): nat
    decreases s, 0
  {
    if s.Invoke? then CallCount(s.callee) else 0
  }

  lemma {:induction false} CallsOfMore(body: seq<Step>, k: nat)
    requires k < |body|
    ensures CallsOf(body[..k + 1]) == CallsOf(body[..k]) + StepCalls(body[k])
  {
    assert body[..k + 1][..k] == body[..k];
  }
}
