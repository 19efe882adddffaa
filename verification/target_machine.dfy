/**
  The target as one of the machines that the optimizer's results are about:
  integers in two's complement, conversions that cut off, objects as the bytes of
  memory, and bit-fields that keep all of their bits.
*/
module TargetMachine {
  import opened Arith
  import opened Ir
  import opened IrSemantics

  // ---------- Numbers of so many bits ----------

  function LowBits(n: nat, x: int): (bits: nat)
    ensures bits < Pow2(n)
  {
    x % Pow2(n)
  }

  predicate IsSigned(t: Type) { IsInteger(t) && TypeOf(t) != Bool && !t.isUnsigned }

  /** The number that n bits of the type stand for. */
  function Extend(t: Type, n: nat, bits: nat): int {
    if IsSigned(t) && n > 0 && bits >= Pow2(n - 1) then bits - Pow2(n) else bits
  }

  /** x cut to n bits of the type. */
  function Fit(t: Type, n: nat, x: int): int { Extend(t, n, LowBits(n, x)) }

  /** The numbers that n bits of the type can stand for. */
  predicate InRange(t: Type, n: nat, x: int) {
    if IsSigned(t) && n > 0 then 0 <= x + Pow2(n - 1) < Pow2(n) else 0 <= x < Pow2(n)
  }

  lemma {:induction false} FitInRange(t: Type, n: nat, x: int)
    ensures InRange(t, n, Fit(t, n, x)) && LowBits(n, Fit(t, n, x)) == LowBits(n, x)
  {
    var bits := LowBits(n, x);
    assert x == Pow2(n) * (x / Pow2(n)) + bits;
    DivModUnique(bits, Pow2(n), 0, bits);
    DivModUnique(bits - Pow2(n), Pow2(n), -1, bits);
  }

  lemma {:induction false} InRangeFits(t: Type, n: nat, x: int)
    requires InRange(t, n, x)
    ensures Fit(t, n, x) == x
  {
    if x >= 0 {
      DivModUnique(x, Pow2(n), 0, x);
    } else {
      DivModUnique(x, Pow2(n), -1, x + Pow2(n));
    }
  }

  lemma {:induction false} RangeGrows(t: Type, n: nat, more: nat, x: int)
    requires 0 < n <= more && InRange(t, n, x)
    ensures InRange(t, more, x)
  {
    PowMonotone(n, more);
    PowMonotone(n - 1, more - 1);
  }

  /** Cutting to more bits first makes no difference. */
  lemma {:induction false} LowOfMore(n: nat, more: nat, x: int)
    requires n <= more
    ensures LowBits(n, LowBits(more, x)) == LowBits(n, x)
  {
    var q, bits := x / Pow2(more), LowBits(more, x);
    PowSplit(n, more);
    assert x == Pow2(more) * q + bits;
    MulAssociates(Pow2(n), Pow2(more - n), q);
    ModAddMultiple(bits, Pow2(more - n) * q, Pow2(n));
  }

  lemma {:induction false} FitOfMore(t: Type, n: nat, wide: Type, more: nat, x: int)
    requires n <= more
    ensures Fit(t, n, Fit(wide, more, x)) == Fit(t, n, x)
  {
    FitInRange(wide, more, x);
    LowOfMore(n, more, x);
    LowOfMore(n, more, Fit(wide, more, x));
  }

  // ---------- Bits of an object ----------

  /** n bits of a, from bit k on. */
  function Slice(a: int, k: nat, n: nat): nat { LowBits(n, a / Pow2(k)) }

  /** a with these bits replaced. */
  function Splice(a: int, k: nat, n: nat, bits: nat): int {
    Pow2(k) * (Pow2(n) * (a / Pow2(k) / Pow2(n)) + bits) + a % Pow2(k)
  }

  lemma {:induction false} SliceOfSplice(a: int, k: nat, n: nat, bits: nat)
    requires bits < Pow2(n)
    ensures Slice(Splice(a, k, n, bits), k, n) == bits
  {
    var q := a / Pow2(k) / Pow2(n);
    var h := Pow2(n) * q + bits;
    DivModUnique(Splice(a, k, n, bits), Pow2(k), h, a % Pow2(k));
    DivModUnique(h, Pow2(n), q, bits);
  }

  // ---------- The machine ----------

  function Width(t: Type): nat { 8 * SizeOf(t) }

  function Converted(m: Machine, t: Type, x: Val): Val {
    if TypeOf(t) == Bool then (if x == 0 then 0 else 1)
    else if IsInteger(t) then Fit(t, Width(t), x)
    else m.convert(t, x)
  }

  function BitsOf(v: Var): nat { if v.fieldWidth == 0 then Width(v.ty) else v.fieldWidth }
  function Position(v: Var): nat { 8 * v.offset + if v.fieldWidth == 0 then 0 else v.fieldOffset }

  function Got(v: Var, a: Val): Val {
    var bits := Slice(a, Position(v), BitsOf(v));
    if v.fieldWidth > 0 || IsInteger(v.ty) then Extend(v.ty, BitsOf(v), bits) else bits
  }

  /** What a store puts into memory, as bits. */
  function StoredBits(m: Machine, v: Var, x: Val): nat {
    LowBits(BitsOf(v), if v.fieldWidth == 0 then Converted(m, v.ty, x) else x)
  }

  function Replaced(m: Machine, t: Type, v: Var, a: Val, x: Val): Val {
    if Covers(t, v) then StoredBits(m, v, x) else Splice(a, Position(v), BitsOf(v), StoredBits(m, v, x))
  }

  /** Any machine, made to keep integers and objects as the target does. */
  function Target(m: Machine): Machine {
    m.(convert := (t: Type, x: Val) => Converted(m, t, x),
       field := (t: Type, n: nat, x: Val) => Fit(t, n, x),
       get := (t: Type, v: Var, a: Val) => Got(v, a),
       put := (t: Type, v: Var, a: Val, x: Val) => Replaced(m, t, v, a, x))
  }

  /** Values of types other than integers fit the bytes of their type. */
  ghost predicate OthersFit(m: Machine) {
    forall t, x :: !IsInteger(t) ==> Idempotent(m, t, x) && 0 <= m.convert(t, x) < Pow2(Width(t))
  }

  lemma {:induction false} ConvertedFits(m: Machine, t: Type, x: Val)
    requires OthersFit(m)
    ensures Converted(m, t, Converted(m, t, x)) == Converted(m, t, x)
    ensures IsInteger(t) ==> InRange(t, Width(t), Converted(m, t, x))
    ensures !IsInteger(t) ==> 0 <= Converted(m, t, x) < Pow2(Width(t))
  {
    if TypeOf(t) == Bool {
      PowMonotone(1, 8);
    } else if IsInteger(t) {
      FitInRange(t, Width(t), x);
      InRangeFits(t, Width(t), Converted(m, t, x));
    } else {
      assert Idempotent(m, t, x);
    }
  }

  lemma {:induction false} StoredIsThere(m: Machine, t: Type, v: Var, a: Val, x: Val)
    ensures Slice(Replaced(m, t, v, a, x), Position(v), BitsOf(v)) == StoredBits(m, v, x)
  {
    var bits := StoredBits(m, v, x);
    if Covers(t, v) {
      assert Pow2(0) == 1;
      DivModUnique(bits, Pow2(BitsOf(v)), 0, bits);
    } else {
      SliceOfSplice(a, Position(v), BitsOf(v), bits);
    }
  }

  lemma {:induction false} TargetReadsBack(m: Machine, t: Type, v: Var, a: Val, x: Val)
    requires OthersFit(m)
    ensures ReadsBack(Target(m), t, v, a, x)
  {
    var kept := if v.fieldWidth == 0 then x else Fit(v.ty, v.fieldWidth, x);
    StoredIsThere(m, t, v, a, kept);
    assert Target(m).get(t, v, Target(m).put(t, v, a, kept)) == Got(v, Replaced(m, t, v, a, kept));
    if v.fieldWidth > 0 {
      FitOfMore(v.ty, v.fieldWidth, v.ty, v.fieldWidth, x);
    } else {
      ConvertedFits(m, v.ty, x);
      var y, n := Converted(m, v.ty, x), Width(v.ty);
      if IsInteger(v.ty) {
        InRangeFits(v.ty, n, y);
      } else {
        DivModUnique(y, Pow2(n), 0, y);
      }
    }
  }

  lemma {:induction false} TargetFieldFits(m: Machine, t: Type, n: nat, x: Val)
    ensures FieldFits(Target(m), t, n, x)
  {
    if 0 < n <= FieldBits(t) {
      FitInRange(t, n, x);
      if TypeOf(t) == Bool {
        assert Pow2(1) == 2;
      } else {
        RangeGrows(t, n, Width(t), Fit(t, n, x));
        InRangeFits(t, Width(t), Fit(t, n, x));
      }
    }
  }

  /** Whatever the machine's operators, calls, pointers and other types do: with
      integers and objects as the target keeps them it meets the laws. */
  lemma {:induction false} TargetLawful(m: Machine)
    requires OthersFit(m)
    ensures Lawful(Target(m))
  {
    var l := Target(m);
    forall t, x
      ensures Idempotent(l, t, x)
    {
      ConvertedFits(m, t, x);
    }
    assert forall t, v, a, b, x :: Overwrites(l, t, v, a, b, x);
    forall t, v, a, x
      ensures ReadsBack(l, t, v, a, x)
    {
      TargetReadsBack(m, t, v, a, x);
    }
    forall t, n: nat, x
      ensures FieldFits(l, t, n, x)
    {
      TargetFieldFits(m, t, n, x);
    }
    forall t, n: nat, wide, more: nat, x
      ensures KeepsLowBits(l, t, n, wide, more, x)
    {
      if 0 < n <= more <= FieldBits(wide) {
        FitOfMore(t, n, wide, more, x);
      }
    }
  }

  /** A bit-field gives back every number of its type and width. */
  lemma {:induction false} FieldKeepsAll(m: Machine, t: Type, n: nat, x: Val)
    requires InRange(t, n, x)
    ensures Target(m).field(t, n, x) == x
  {
    InRangeFits(t, n, x);
  }
}
