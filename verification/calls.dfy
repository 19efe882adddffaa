/**
  Passing arguments, the caller's half: what it pushes and loads before the call
  instruction.  The callee's half is in frames.dfy.
*/
module Calls {
  import opened Arguments

  const TEMP_INT_REGS: nat := 5

  /** What a word of memory or a register holds: an eightbyte of an argument, a stack
      address, or something else. */
  datatype Value = Slice(arg: nat, e: nat) | Address(a: int) | Other

  /** The place holds the value; stack places count from base. */
  predicate Holds(mem: map<int, Value>, ints: seq<Value>, sses: seq<Value>, base: int, at: Location, v: Value) {
    match at
    case IntReg(k) => k < |ints| && ints[k] == v
    case SseReg(k) => k < |sses| && sses[k] == v
    case Stack(o) => base + o in mem && mem[base + o] == v
  }

  /** Every eightbyte of every argument is where it should be. */
  predicate AllPassed(ps: seq<Param>, memoryResult: bool, mem: map<int, Value>, ints: seq<Value>, sses: seq<Value>, base: int)
    requires ValidParams(ps)
  {
    forall i, e {:trigger Place(ps, memoryResult, i, e)} :: 0 <= i < |ps| && 0 <= e < ps[i].n ==>
      Holds(mem, ints, sses, base, Place(ps, memoryResult, i, e), Slice(i, e))
  }

  // ---------- The parameters that get registers ----------

  /** argpc lists the parameters among the first k that get registers, in order. */
  predicate Chosen(ps: seq<Param>, memoryResult: bool, argpc: seq<nat>, k: nat)
    requires ValidParams(ps) && k <= |ps|
  {
    && After(ps, memoryResult, k).taken <= |argpc|
    && (forall h :: 0 <= h < k ==> Indexed(ps, memoryResult, argpc, h))
    && (forall t :: 0 <= t < After(ps, memoryResult, k).taken ==> ChosenAt(ps, memoryResult, argpc[t], t, k))
  }

  predicate Indexed(ps: seq<Param>, memoryResult: bool, argpc: seq<nat>, h: nat)
    requires ValidParams(ps) && h < |ps|
  {
    var c := After(ps, memoryResult, h);
    Fits(c, ps[h]) ==> c.taken < |argpc| && argpc[c.taken] == h
  }

  predicate ChosenAt(ps: seq<Param>, memoryResult: bool, h: nat, t: nat, k: nat)
    requires ValidParams(ps) && k <= |ps|
  {
    h < k && Fits(After(ps, memoryResult, h), ps[h]) && After(ps, memoryResult, h).taken == t
  }

  /** Choose one more, or not. */
  lemma {:induction false} ChosenNext(ps: seq<Param>, memoryResult: bool, argpc: seq<nat>, k: nat)
    requires ValidParams(ps) && k < |ps| && Chosen(ps, memoryResult, argpc, k) && |argpc| == MAX_REGISTER_ARGS
    ensures var c := After(ps, memoryResult, k);
      if Fits(c, ps[k]) then c.taken < |argpc| && Chosen(ps, memoryResult, argpc[c.taken := k], k + 1)
      else Chosen(ps, memoryResult, argpc, k + 1)
  {
    CursorBounded(ps, memoryResult, k + 1);
    var c := After(ps, memoryResult, k);
    var after := if Fits(c, ps[k]) then argpc[c.taken := k] else argpc;
    forall h | 0 <= h < k + 1
      ensures Indexed(ps, memoryResult, after, h)
    {
      if h < k {
        assert Indexed(ps, memoryResult, argpc, h);
        CursorGrows(ps, memoryResult, h + 1, k);
      }
    }
    forall t | 0 <= t < After(ps, memoryResult, k + 1).taken
      ensures ChosenAt(ps, memoryResult, after[t], t, k + 1)
    {
      assert t < c.taken ==> ChosenAt(ps, memoryResult, argpc[t], t, k);
    }
  }

  /** No registers are handed out between one chosen parameter and the next. */
  lemma {:induction false} SameTaken(ps: seq<Param>, memoryResult: bool, j: nat, k: nat)
    requires ValidParams(ps) && j <= k <= |ps| && After(ps, memoryResult, j).taken == After(ps, memoryResult, k).taken
    ensures After(ps, memoryResult, j).ints == After(ps, memoryResult, k).ints
    ensures After(ps, memoryResult, j).sses == After(ps, memoryResult, k).sses
    decreases k
  {
    if j < k {
      CursorGrows(ps, memoryResult, j, k - 1);
      SameTaken(ps, memoryResult, j, k - 1);
    }
  }

  method CountRegisterClassifications(p: Param, ints0: nat, sses0: nat) returns (ints: nat, sses: nat)
    requires ValidParam(p)
    ensures ints == ints0 + Count(p, Integer, 4) && sses == sses0 + Count(p, Sse, 4)
  {
    ints, sses := ints0, sses0;
    var i := 0;
    while i < 4
      invariant 0 <= i <= 4 && ints == ints0 + Count(p, Integer, i) && sses == sses0 + Count(p, Sse, i)
    {
      match p.eightbyte[i] {
        case Integer => ints := ints + 1;
        case Sse => sses := sses + 1;
        case _ =>
      }
      i := i + 1;
    }
  }

  /** Hand out registers for a parameter if there are enough. */
  method AllocRegisterParams(p: Param, ints0: nat, sses0: nat, ghost c: Cursor) returns (ok: bool, ints: nat, sses: nat)
    requires ValidParam(p) && c.ints == ints0 && c.sses == sses0
    ensures ok == Fits(c, p) && ints == Next(c, p).ints && sses == Next(c, p).sses
  {
    ok, ints, sses := false, ints0, sses0;
    if p.eightbyte[0] == Integer || p.eightbyte[0] == Sse {
      var i, s := CountRegisterClassifications(p, ints, sses);
      if i <= MAX_INTEGER_ARGS && s <= MAX_SSE_ARGS {
        ok, ints, sses := true, i, s;
      }
    }
  }

  class Machine {
    var mem: map<int, Value>
    var rsp: int
    var rbp: int
    var ints: seq<Value>   // %rdi, %rsi, %rdx, %rcx, %r8, %r9
    var sses: seq<Value>   // %xmm0 to %xmm7
    var temps: seq<Value>  // %rbx, %r12 to %r15, which a function must give back

    predicate Valid()
      reads this
    {
      |ints| == MAX_INTEGER_ARGS && |sses| == MAX_SSE_ARGS && |temps| == TEMP_INT_REGS
    }

    // ---------- The caller ----------

    /** Push an argument; its first eightbyte ends up at the top of the stack. */
    method Push(i: nat, p: Param)
      requires Valid()
      modifies this`mem, this`rsp
      ensures rsp == old(rsp) - 8 * p.n
      ensures OnStack(mem, rsp, i, p.n) && KeptFrom(mem, old(mem), old(rsp))
    {
      var e := p.n;
      ghost var top := rsp - 8 * p.n;
      while e > 0
        invariant 0 <= e <= p.n && rsp == old(rsp) - 8 * (p.n - e)
        invariant forall f :: e <= f < p.n ==> top + 8 * f in mem && mem[top + 8 * f] == Slice(i, f)
        invariant KeptFrom(mem, old(mem), old(rsp))
      {
        e := e - 1;
        rsp := rsp - 8;
        mem := mem[rsp := Slice(i, e)];
      }
    }

    /** Load the eightbytes of an argument into the registers from the given ones on. */
    method LoadToRegisters(i: nat, p: Param, ints0: nat, sses0: nat)
      requires Valid() && ValidParam(p) && Fits(Cursor(ints0, sses0, 0, 0), p)
      modifies this`ints, this`sses
      ensures Valid() && Loaded(ints, sses, ints0, sses0, p, i, p.n)
      ensures KeptBelow(ints, old(ints), ints0) && KeptBelow(sses, old(sses), sses0)
    {
      var e, k, s := 0, ints0, sses0;
      while e < p.n
        invariant 0 <= e <= p.n && Valid() && Loaded(ints, sses, ints0, sses0, p, i, e)
        invariant k == ints0 + Count(p, Integer, e) && s == sses0 + Count(p, Sse, e)
        invariant KeptBelow(ints, old(ints), ints0) && KeptBelow(sses, old(sses), sses0)
      {
        LoadStep(ints, sses, ints0, sses0, p, i, e);
        if p.eightbyte[e] == Integer {
          ints := ints[k := Slice(i, e)];
          k := k + 1;
        } else {
          sses := sses[s := Slice(i, e)];
          s := s + 1;
        }
        e := e + 1;
      }
    }

    // ---------- Passing ----------

    /** Hand out register slots; remember in argpc which arguments got them. */
    method ChooseRegisters(ps: seq<Param>, memoryResult: bool, argpc: array<nat>) returns (registerArgs: nat, memUsed: nat)
      requires ValidParams(ps) && argpc.Length == MAX_REGISTER_ARGS
      modifies argpc
      ensures var c := After(ps, memoryResult, |ps|); registerArgs == c.taken <= MAX_REGISTER_ARGS && memUsed == c.mem
      ensures Chosen(ps, memoryResult, argpc[..], |ps|)
    {
      var ints, sses := if memoryResult then 1 else 0, 0;
      registerArgs, memUsed := 0, 0;
      var i: nat := 0;
      while i < |ps|
        invariant 0 <= i <= |ps| && Chosen(ps, memoryResult, argpc[..], i)
        invariant Cursor(ints, sses, memUsed, registerArgs) == After(ps, memoryResult, i)
      {
        var ok;
        ok, ints, sses := AllocRegisterParams(ps[i], ints, sses, After(ps, memoryResult, i));
        ChosenNext(ps, memoryResult, argpc[..], i);
        if ok {
          ghost var was := argpc[..];
          argpc[registerArgs] := i;
          assert argpc[..] == was[registerArgs := i];
          registerArgs := registerArgs + 1;
        } else {
          memUsed := memUsed + 8 * ps[i].n;
        }
        i := i + 1;
      }
      CursorBounded(ps, memoryResult, |ps|);
    }

    /** Push the arguments that got no registers, the last first. */
    method PushMemoryArguments(ps: seq<Param>, memoryResult: bool, argpc: seq<nat>, registerArgs: nat)
      requires Valid() && ValidParams(ps) && Chosen(ps, memoryResult, argpc, |ps|)
      requires registerArgs == After(ps, memoryResult, |ps|).taken
      modifies this`mem, this`rsp
      ensures rsp == old(rsp) - After(ps, memoryResult, |ps|).mem
      ensures Pushed(ps, memoryResult, mem, rsp, 0) && KeptFrom(mem, old(mem), old(rsp))
    {
      ghost var total := After(ps, memoryResult, |ps|).mem;
      ghost var base := rsp - total;
      var i, n := |ps|, registerArgs;
      while i > 0
        invariant 0 <= i <= |ps| && n == After(ps, memoryResult, i).taken
        invariant rsp == base + After(ps, memoryResult, i).mem && Pushed(ps, memoryResult, mem, base, i)
        invariant rsp <= old(rsp) && KeptFrom(mem, old(mem), old(rsp))
      {
        i := i - 1;
        NextPushed(ps, memoryResult, argpc, i);
        if n > 0 && argpc[n - 1] == i {
          PushedSame(ps, memoryResult, mem, base, i);
          n := n - 1;
        } else {
          ghost var before := mem;
          Push(i, ps[i]);
          PushedMore(ps, memoryResult, before, mem, base, i);
        }
      }
    }

    /** Load the arguments that got registers, the first first. */
    method LoadRegisterArguments(ps: seq<Param>, memoryResult: bool, argpc: seq<nat>, registerArgs: nat)
      requires Valid() && ValidParams(ps) && Chosen(ps, memoryResult, argpc, |ps|)
      requires registerArgs == After(ps, memoryResult, |ps|).taken
      modifies this`ints, this`sses
      ensures Valid() && RegistersLoaded(ps, memoryResult, ints, sses, registerArgs)
    {
      var k, s := if memoryResult then 1 else 0, 0;
      FirstCursor(ps, memoryResult);
      var r := 0;
      while r < registerArgs
        invariant 0 <= r <= registerArgs && Valid() && RegCursor(ps, memoryResult, r, k, s)
        invariant RegistersLoaded(ps, memoryResult, ints, sses, r)
      {
        var i := argpc[r];
        assert ChosenAt(ps, memoryResult, i, r, |ps|);
        ghost var ints0, sses0 := ints, sses;
        assert CursorIs(ps, memoryResult, i, r, k, s);
        LoadToRegisters(i, ps[i], k, s);
        LoadedMore(ps, memoryResult, ints0, sses0, ints, sses, i, r);
        NextCursor(ps, memoryResult, i, r, k, s);
        k, s := CountRegisterClassifications(ps[i], k, s);
        r := r + 1;
      }
    }

    /** Leave a gap above the arguments in memory if they would upset the alignment. */
    method Pad(bytes: nat) returns (memUsed: nat)
      requires Valid() && rsp % 16 == 0 && bytes % 8 == 0
      modifies this`rsp
      ensures rsp == old(rsp) - (memUsed - bytes) && bytes <= memUsed && (rsp - bytes) % 16 == 0
    {
      memUsed := bytes;
      if memUsed % 16 != 0 {
        memUsed := memUsed + 8;
        rsp := rsp - 8;
      }
    }

    /** Pass the arguments.  At the call, the stack pointer is aligned again. */
    method PushFunctionArguments(ps: seq<Param>, memoryResult: bool) returns (memUsed: nat)
      requires Valid() && ValidParams(ps) && rsp % 16 == 0
      modifies this`mem, this`rsp, this`ints, this`sses
      ensures Valid() && AllPassed(ps, memoryResult, mem, ints, sses, rsp)
      ensures rsp % 16 == 0 && rsp == old(rsp) - memUsed && KeptFrom(mem, old(mem), old(rsp))
      ensures After(ps, memoryResult, |ps|).mem <= memUsed
      ensures forall i :: 0 <= i < |ps| ==> FollowsAbi(ps, memoryResult, i)
    {
      forall i | 0 <= i < |ps|
        ensures FollowsAbi(ps, memoryResult, i)
      {
        PlacesFollowAbi(ps, memoryResult, i);
      }
      var argpc := new nat[MAX_REGISTER_ARGS];
      var registerArgs;
      registerArgs, memUsed := ChooseRegisters(ps, memoryResult, argpc);
      MemEights(ps, memoryResult, |ps|);
      memUsed := Pad(memUsed);
      PushMemoryArguments(ps, memoryResult, argpc[..], registerArgs);
      LoadRegisterArguments(ps, memoryResult, argpc[..], registerArgs);
      EverythingPassed(ps, memoryResult, mem, ints, sses, rsp);
    }
  }

  /** The parameters among the first r chosen ones are in their registers. */
  predicate RegistersLoaded(ps: seq<Param>, memoryResult: bool, ints: seq<Value>, sses: seq<Value>, r: nat)
    requires ValidParams(ps)
  {
    forall h :: 0 <= h < |ps| ==> LoadedAt(ps, memoryResult, ints, sses, h, r)
  }

  predicate LoadedAt(ps: seq<Param>, memoryResult: bool, ints: seq<Value>, sses: seq<Value>, h: nat, r: nat)
    requires ValidParams(ps) && h < |ps|
  {
    var c := After(ps, memoryResult, h);
    Fits(c, ps[h]) && c.taken < r ==> Loaded(ints, sses, c.ints, c.sses, ps[h], h, ps[h].n)
  }

  /** k and s registers of the two files are in use once r parameters have got theirs. */
  predicate RegCursor(ps: seq<Param>, memoryResult: bool, r: nat, k: nat, s: nat)
    requires ValidParams(ps)
  {
    forall h :: 0 <= h <= |ps| ==> CursorIs(ps, memoryResult, h, r, k, s)
  }

  predicate CursorIs(ps: seq<Param>, memoryResult: bool, h: nat, r: nat, k: nat, s: nat)
    requires ValidParams(ps) && h <= |ps|
  {
    var c := After(ps, memoryResult, h);
    c.taken == r ==> c.ints == k && c.sses == s
  }

  lemma {:induction false} FirstCursor(ps: seq<Param>, memoryResult: bool)
    requires ValidParams(ps)
    ensures RegCursor(ps, memoryResult, 0, if memoryResult then 1 else 0, 0)
  {
    var first := if memoryResult then 1 else 0;
    forall h | 0 <= h <= |ps|
      ensures CursorIs(ps, memoryResult, h, 0, first, 0)
    {
      if After(ps, memoryResult, h).taken == 0 {
        SameTaken(ps, memoryResult, 0, h);
      }
    }
  }

  lemma {:induction false} NextCursor(ps: seq<Param>, memoryResult: bool, i: nat, r: nat, k: nat, s: nat)
    requires ValidParams(ps) && i < |ps| && ChosenAt(ps, memoryResult, i, r, |ps|)
    requires RegCursor(ps, memoryResult, r, k, s)
    ensures RegCursor(ps, memoryResult, r + 1, k + Count(ps[i], Integer, 4), s + Count(ps[i], Sse, 4))
  {
    var k', s', r' := k + Count(ps[i], Integer, 4), s + Count(ps[i], Sse, 4), r + 1;
    assert CursorIs(ps, memoryResult, i, r, k, s);
    forall h | 0 <= h <= |ps|
      ensures CursorIs(ps, memoryResult, h, r', k', s')
    {
      if After(ps, memoryResult, h).taken == r' {
        if h <= i {
          CursorGrows(ps, memoryResult, h, i);
        } else {
          SameTaken(ps, memoryResult, i + 1, h);
        }
      }
    }
  }

  lemma {:induction false} LoadedMore(
    ps: seq<Param>, memoryResult: bool, ints0: seq<Value>, sses0: seq<Value>, ints: seq<Value>, sses: seq<Value>, i: nat, r: nat)
    requires ValidParams(ps) && i < |ps| && ChosenAt(ps, memoryResult, i, r, |ps|)
    requires RegistersLoaded(ps, memoryResult, ints0, sses0, r)
    requires var c := After(ps, memoryResult, i);
      && Loaded(ints, sses, c.ints, c.sses, ps[i], i, ps[i].n)
      && KeptBelow(ints, ints0, c.ints) && KeptBelow(sses, sses0, c.sses)
    ensures RegistersLoaded(ps, memoryResult, ints, sses, r + 1)
  {
    var r' := r + 1;
    forall h | 0 <= h < |ps|
      ensures LoadedAt(ps, memoryResult, ints, sses, h, r')
    {
      var c := After(ps, memoryResult, h);
      if Fits(c, ps[h]) && c.taken < r' {
        if h < i {
          CursorGrows(ps, memoryResult, h + 1, i);
          assert LoadedAt(ps, memoryResult, ints0, sses0, h, r);
          StillLoaded(ps[h], ints0, sses0, ints, sses, c, After(ps, memoryResult, i), h);
        } else if h > i {
          CursorGrows(ps, memoryResult, i + 1, h);
        }
      }
    }
  }

  lemma {:induction false} StillLoaded(
    p: Param, ints0: seq<Value>, sses0: seq<Value>, ints: seq<Value>, sses: seq<Value>, c: Cursor, d: Cursor, h: nat)
    requires ValidParam(p) && Fits(c, p) && Loaded(ints0, sses0, c.ints, c.sses, p, h, p.n)
    requires c.ints + Count(p, Integer, 4) <= d.ints && c.sses + Count(p, Sse, 4) <= d.sses
    requires KeptBelow(ints, ints0, d.ints) && KeptBelow(sses, sses0, d.sses)
    ensures Loaded(ints, sses, c.ints, c.sses, p, h, p.n)
  {
    forall e | 0 <= e < p.n
      ensures InRegister(ints, sses, c.ints, c.sses, p, e, Slice(h, e))
    {
      assert InRegister(ints0, sses0, c.ints, c.sses, p, e, Slice(h, e));
      CountMonotone(p, p.eightbyte[e], e, 4);
    }
  }

  lemma {:induction false} EverythingPassed(
    ps: seq<Param>, memoryResult: bool, mem: map<int, Value>, ints: seq<Value>, sses: seq<Value>, base: int)
    requires ValidParams(ps) && Pushed(ps, memoryResult, mem, base, 0)
    requires RegistersLoaded(ps, memoryResult, ints, sses, After(ps, memoryResult, |ps|).taken)
    ensures AllPassed(ps, memoryResult, mem, ints, sses, base)
  {
    forall i, e | 0 <= i < |ps| && 0 <= e < ps[i].n
      ensures Holds(mem, ints, sses, base, Place(ps, memoryResult, i, e), Slice(i, e))
    {
      var c, p := After(ps, memoryResult, i), ps[i];
      if Fits(c, p) {
        CursorGrows(ps, memoryResult, i + 1, |ps|);
        assert LoadedAt(ps, memoryResult, ints, sses, i, After(ps, memoryResult, |ps|).taken);
        assert InRegister(ints, sses, c.ints, c.sses, p, e, Slice(i, e));
      } else {
        assert PushedAt(ps, memoryResult, mem, base, i);
      }
    }
  }

  /** The arguments from i on that got no registers are on the stack, from base on. */
  predicate Pushed(ps: seq<Param>, memoryResult: bool, mem: map<int, Value>, base: int, i: nat)
    requires ValidParams(ps) && i <= |ps|
  {
    forall h :: i <= h < |ps| ==> PushedAt(ps, memoryResult, mem, base, h)
  }

  predicate PushedAt(ps: seq<Param>, memoryResult: bool, mem: map<int, Value>, base: int, h: nat)
    requires ValidParams(ps) && h < |ps|
  {
    var c := After(ps, memoryResult, h);
    !Fits(c, ps[h]) ==> OnStack(mem, base + c.mem, h, ps[h].n)
  }

  /** Memory from an address on is as it was. */
  predicate KeptFrom(mem: map<int, Value>, before: map<int, Value>, from: int) {
    forall a :: a >= from && a in before ==> a in mem && mem[a] == before[a]
  }

  lemma {:induction false} PushedSame(ps: seq<Param>, memoryResult: bool, mem: map<int, Value>, base: int, i: nat)
    requires ValidParams(ps) && i < |ps| && Fits(After(ps, memoryResult, i), ps[i])
    requires Pushed(ps, memoryResult, mem, base, i + 1)
    ensures Pushed(ps, memoryResult, mem, base, i)
  {
  }

  /** All eightbytes of argument h, from an address on. */
  predicate OnStack(mem: map<int, Value>, a: int, h: nat, n: nat) {
    forall e :: 0 <= e < n ==> a + 8 * e in mem && mem[a + 8 * e] == Slice(h, e)
  }

  /** Going down the list of chosen arguments in step with all of them. */
  lemma {:induction false} NextPushed(ps: seq<Param>, memoryResult: bool, argpc: seq<nat>, i: nat)
    requires ValidParams(ps) && i < |ps| && Chosen(ps, memoryResult, argpc, |ps|)
    ensures var c, n := After(ps, memoryResult, i), After(ps, memoryResult, i + 1).taken;
      && n <= |argpc| && (Fits(c, ps[i]) <==> n > 0 && argpc[n - 1] == i)
      && n == c.taken + (if Fits(c, ps[i]) then 1 else 0)
      && After(ps, memoryResult, i + 1).mem == c.mem + (if Fits(c, ps[i]) then 0 else 8 * ps[i].n)
  {
    var c, n := After(ps, memoryResult, i), After(ps, memoryResult, i + 1).taken;
    CursorGrows(ps, memoryResult, i + 1, |ps|);
    assert Indexed(ps, memoryResult, argpc, i);
    if n > 0 {
      assert ChosenAt(ps, memoryResult, argpc[n - 1], n - 1, |ps|);
    }
  }

  lemma {:induction false} PushedMore(
    ps: seq<Param>, memoryResult: bool, before: map<int, Value>, mem: map<int, Value>, base: int, i: nat)
    requires ValidParams(ps) && i < |ps| && !Fits(After(ps, memoryResult, i), ps[i])
    requires Pushed(ps, memoryResult, before, base, i + 1)
    requires OnStack(mem, base + After(ps, memoryResult, i).mem, i, ps[i].n)
    requires KeptFrom(mem, before, base + After(ps, memoryResult, i + 1).mem)
    ensures Pushed(ps, memoryResult, mem, base, i)
  {
    forall h | i <= h < |ps|
      ensures PushedAt(ps, memoryResult, mem, base, h)
    {
      if h > i {
        CursorGrows(ps, memoryResult, i + 1, h);
        assert PushedAt(ps, memoryResult, before, base, h);
        StackKept(before, mem, base + After(ps, memoryResult, h).mem, h, ps[h].n, base + After(ps, memoryResult, i + 1).mem);
      }
    }
  }

  /** What is on the stack in kept memory stays there. */
  lemma {:induction false} StackKept(before: map<int, Value>, mem: map<int, Value>, a: int, h: nat, n: nat, from: int)
    requires KeptFrom(mem, before, from) && a >= from
    ensures OnStack(before, a, h, n) ==> OnStack(mem, a, h, n)
  {
  }

  predicate Loaded(ints: seq<Value>, sses: seq<Value>, ints0: nat, sses0: nat, p: Param, i: nat, n: nat)
    requires ValidParam(p) && n <= p.n <= 4
  {
    forall e :: 0 <= e < n ==> InRegister(ints, sses, ints0, sses0, p, e, Slice(i, e))
  }

  predicate KeptBelow(now: seq<Value>, before: seq<Value>, n: nat) {
    |now| == |before| && forall k :: 0 <= k < n && k < |now| ==> now[k] == before[k]
  }

  lemma {:induction false} LoadStep(ints: seq<Value>, sses: seq<Value>, ints0: nat, sses0: nat, p: Param, i: nat, e: nat)
    requires ValidParam(p) && Fits(Cursor(ints0, sses0, 0, 0), p) && e < p.n && |ints| == MAX_INTEGER_ARGS && |sses| == MAX_SSE_ARGS
    requires Loaded(ints, sses, ints0, sses0, p, i, e)
    ensures var k, s := ints0 + Count(p, Integer, e), sses0 + Count(p, Sse, e);
      if p.eightbyte[e] == Integer then k < |ints| && Loaded(ints[k := Slice(i, e)], sses, ints0, sses0, p, i, e + 1)
      else p.eightbyte[e] == Sse && s < |sses| && Loaded(ints, sses[s := Slice(i, e)], ints0, sses0, p, i, e + 1)
  {
    CountMonotone(p, p.eightbyte[e], e, 4);
    LaterRegister(p, e);
    var k, s := ints0 + Count(p, Integer, e), sses0 + Count(p, Sse, e);
    var ints', sses' := if p.eightbyte[e] == Integer then ints[k := Slice(i, e)] else ints,
                        if p.eightbyte[e] == Integer then sses else sses[s := Slice(i, e)];
    forall f | 0 <= f < e + 1
      ensures InRegister(ints', sses', ints0, sses0, p, f, Slice(i, f))
    {
      if f < e {
        assert InRegister(ints, sses, ints0, sses0, p, f, Slice(i, f));
      }
    }
  }

  /** The register for eightbyte e of a parameter holds the value. */
  predicate InRegister(ints: seq<Value>, sses: seq<Value>, ints0: nat, sses0: nat, p: Param, e: nat, v: Value)
    requires ValidParam(p) && e < p.n <= 4
  {
    if p.eightbyte[e] == Integer then
      ints0 + Count(p, Integer, e) < |ints| && ints[ints0 + Count(p, Integer, e)] == v
    else
      sses0 + Count(p, Sse, e) < |sses| && sses[sses0 + Count(p, Sse, e)] == v
  }

  /** A later eightbyte goes into a later register of its file. */
  lemma {:induction false} LaterRegister(p: Param, e: nat)
    requires ValidParam(p) && e < 4
    ensures forall f :: 0 <= f < e && p.eightbyte[f] == p.eightbyte[e] ==>
      Count(p, p.eightbyte[e], f) < Count(p, p.eightbyte[e], e)
  {
    forall f | 0 <= f < e && p.eightbyte[f] == p.eightbyte[e]
      ensures Count(p, p.eightbyte[e], f) < Count(p, p.eightbyte[e], e)
    {
      CountMonotone(p, p.eightbyte[e], f, e);
    }
  }
}
