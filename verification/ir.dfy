/**
  The compiler's intermediate representation: types, operands, expressions,
  statements and basic blocks.  Symbols and blocks are named by their position
  in a table, which stands for the source's pointers.
*/
module Ir {
  import opened Options

  // ---------- Types ----------

  datatype Tag =
    | Void | Bool | Char | Short | Int | Long | Float | Double | LongDouble
    | Pointer | Function | Array | Struct | Union

  /** A type word.  `pointer` overrides the tag; `tree` is what the type's
      reference points to: an aggregate's size and members, or an array's
      length and element type. */
  datatype Type = Type(tag: Tag, isUnsigned: bool, pointer: bool, tree: Tree)
  datatype Tree = NoTree | Tree(size: nat, members: seq<Member>, next: Option<Type>)
  datatype Member = Member(name: string, ty: Type)

  function TypeOf(t: Type): Tag {
    if t.pointer then Pointer else t.tag
  }

  predicate IsFunction(t: Type) { TypeOf(t) == Function }
  predicate IsObject(t: Type) { !IsFunction(t) }
  predicate IsPointer(t: Type) { TypeOf(t) == Pointer }
  predicate IsStructOrUnion(t: Type) { TypeOf(t) == Struct || TypeOf(t) == Union }

  predicate IsScalar(t: Type) {
    TypeOf(t) !in {Void, Function, Array, Struct, Union}
  }

  function SizeOf(t: Type): nat {
    match TypeOf(t)
    case Bool | Char => 1
    case Short => 2
    case Int | Float => 4
    case Long | Double | Pointer => 8
    case LongDouble => 16
    case Struct | Union => if t.tree.Tree? then t.tree.size else 0
    case Array => if t.tree.Tree? && t.tree.next.Some? then t.tree.size * SizeOf(t.tree.next.value) else 0
    case _ => 0
  }

  predicate IsInteger(t: Type) { TypeOf(t) in {Bool, Char, Short, Int, Long} }

  /** How many bits a bit-field of the type may be declared with. */
  function FieldBits(t: Type): nat {
    if TypeOf(t) == Bool then 1 else if IsInteger(t) then 8 * SizeOf(t) else 0
  }

  /** The compiler's type comparison.  It looks neither at `pointer` nor at what
      an array or a pointer to a pointer leads to. */
  predicate TypeEqual(a: Type, b: Type) {
    && a.tag == b.tag && a.isUnsigned == b.isUnsigned && a.tree.Tree? == b.tree.Tree?
    && (a.tree.Tree? ==>
          && a.tree.size == b.tree.size && |a.tree.members| == |b.tree.members|
          && forall i :: 0 <= i < |a.tree.members| ==>
               && a.tree.members[i].name == b.tree.members[i].name
               && TypeEqual(a.tree.members[i].ty, b.tree.members[i].ty))
  }

  /** What the comparison goes by: everything but the pointer flag and what an array or
      a pointer leads to. */
  function Compared(t: Type): Type {
    t.(pointer := false, tree := match t.tree
      case NoTree => NoTree
      case Tree(size, members, _) =>
        Tree(size, seq(|members|, i requires 0 <= i < |members| => Member(members[i].name, Compared(members[i].ty))), None))
  }

  lemma {:induction false} TypeEqualIff(a: Type, b: Type)
    ensures TypeEqual(a, b) <==> Compared(a) == Compared(b)
  {
    if a.tree.Tree? && b.tree.Tree? {
      var ms, ns := Compared(a).tree.members, Compared(b).tree.members;
      assert |ms| == |a.tree.members| && |ns| == |b.tree.members|;
      if |ms| == |ns| {
        forall i | 0 <= i < |ms|
          ensures ms[i] == ns[i] <==>
            (a.tree.members[i].name == b.tree.members[i].name && TypeEqual(a.tree.members[i].ty, b.tree.members[i].ty))
        {
          TypeEqualIff(a.tree.members[i].ty, b.tree.members[i].ty);
        }
        assert ms == ns <==> forall i :: 0 <= i < |ms| ==> ms[i] == ns[i];
      }
    }
  }

  lemma {:induction false} TypeEqualSelf(a: Type)
    ensures TypeEqual(a, a)
  {
    TypeEqualIff(a, a);
  }

  lemma {:induction false} TypeEqualSymmetric(a: Type, b: Type)
    requires TypeEqual(a, b)
    ensures TypeEqual(b, a)
  {
    TypeEqualIff(a, b);
    TypeEqualIff(b, a);
  }

  lemma {:induction false} TypeEqualTransitive(a: Type, b: Type, c: Type)
    requires TypeEqual(a, b) && TypeEqual(b, c)
    ensures TypeEqual(a, c)
  {
    TypeEqualIff(a, b);
    TypeEqualIff(b, c);
    TypeEqualIff(a, c);
  }

  /** The liveness analysis' test for arguments that let a callee reach memory. */
  predicate IsOrHasPointer(t: Type) {
    IsPointer(t) ||
    (IsStructOrUnion(t) && t.tree.Tree? && exists m :: m in t.tree.members && IsOrHasPointer(m.ty))
  }

  /** Whether a value of the type really holds a pointer, array elements included. */
  predicate ContainsPointer(t: Type) {
    || IsPointer(t)
    || (TypeOf(t) in {Struct, Union} && t.tree.Tree? && exists m :: m in t.tree.members && ContainsPointer(m.ty))
    || (TypeOf(t) == Array && t.tree.Tree? && t.tree.size > 0 && t.tree.next.Some?
        && ContainsPointer(t.tree.next.value))
  }

  predicate HasNoArray(t: Type) {
    TypeOf(t) != Array && (TypeOf(t) in {Struct, Union} && t.tree.Tree? ==> forall m :: m in t.tree.members ==> HasNoArray(m.ty))
  }

  /** The test misses pointers in arrays, and no others. */
  lemma {:induction false} PointerTestIff(t: Type)
    ensures IsOrHasPointer(t) ==> ContainsPointer(t)
    ensures HasNoArray(t) && ContainsPointer(t) ==> IsOrHasPointer(t)
  {
    if t.tree.Tree? {
      forall m | m in t.tree.members
        ensures IsOrHasPointer(m.ty) ==> ContainsPointer(m.ty)
        ensures HasNoArray(m.ty) && ContainsPointer(m.ty) ==> IsOrHasPointer(m.ty)
      {
        PointerTestIff(m.ty);
      }
    }
  }

  // ---------- Symbols ----------

  datatype Linkage = LinkNone | LinkIntern | LinkExtern

  datatype Symbol = Symbol(ty: Type, linkage: Linkage)

  // ---------- Operands, expressions and statements ----------

  datatype Kind = Direct | Address | Deref | Immediate

  datatype Var = Var(
    kind: Kind, ty: Type, symbol: Option<nat>, offset: nat,
    fieldWidth: nat, fieldOffset: nat, imm: int)

  datatype Op =
    | Cast | Call | Not | Neg
    | Add | Sub | Mul | Div | Mod | And | Or | Xor | Shl | Shr | Eq | Ne | Ge | Gt

  datatype Expr = Expr(op: Op, ty: Type, l: Var, r: Var)

  /** Operations whose right operand is not read. */
  predicate IsUnary(op: Op) { op in {Cast, Call, Not, Neg} }

  predicate HasSideEffects(e: Expr) { e.op == Call }
  predicate IsIdentity(e: Expr) { e.op == Cast && TypeEqual(e.ty, e.l.ty) }

  /** A set of symbol numbers 0..63, the compiler's 64-bit liveness word. */
  type Bits = set<nat>
  const ALL_BITS: Bits := set i: nat | i < 64

  datatype StatementKind = ExprStmt | Param | Assign
  datatype Statement = Statement(st: StatementKind, out: Bits, t: Var, expr: Expr)

  // ---------- Basic blocks ----------

  datatype Color = White | Black

  /** jump0/jump1: (None, None) returns, (x, None) jumps, (x, y) branches to
      x when the expression is false and to y when it is true. */
  datatype Block = Block(
    code: seq<Statement>, expr: Expr,
    jump0: Option<nat>, jump1: Option<nat>,
    hasReturnValue: bool, color: Color, liveIn: Bits, liveOut: Bits)

  /** Whether control leaving the block evaluates the block's expression. */
  predicate UsesExpr(b: Block) { b.jump1.Some? || b.hasReturnValue }

  type Graph = seq<Block>

  /** Jump targets are blocks, and only a block with a first target has a second. */
  predicate ValidGraph(g: Graph) {
    forall b :: 0 <= b < |g| ==> ValidJumps(g[b], |g|)
  }

  predicate ValidJumps(b: Block, n: nat) {
    && (b.jump0.Some? ==> b.jump0.value < n)
    && (b.jump1.Some? ==> b.jump0.Some? && b.jump1.value < n)
  }

  // ---------- Well-formed code ----------

  predicate ValidVar(v: Var, syms: seq<Symbol>) {
    && (v.symbol.Some? ==> v.symbol.value < |syms|)
    && (v.kind in {Direct, Address} ==> v.symbol.Some?)
    // A constant's symbol is a string or an enumeration constant, a pointer's is a variable.
    && (v.kind in {Immediate, Deref} && v.symbol.Some? ==> IsObject(syms[v.symbol.value].ty))
  }

  predicate ValidExpr(e: Expr, syms: seq<Symbol>) {
    ValidVar(e.l, syms) && (!IsUnary(e.op) ==> ValidVar(e.r, syms))
  }

  /** What may stand left of an assignment. */
  predicate ValidTarget(t: Var, syms: seq<Symbol>) {
    && ValidVar(t, syms)
    && t.kind in {Direct, Deref}
    && (t.kind == Direct ==> IsObject(syms[t.symbol.value].ty))
  }

  predicate ValidStatement(s: Statement, syms: seq<Symbol>) {
    ValidExpr(s.expr, syms) && (s.st == Assign ==> ValidTarget(s.t, syms))
  }

  predicate ValidCode(c: seq<Statement>, syms: seq<Symbol>) {
    forall i :: 0 <= i < |c| ==> ValidStatement(c[i], syms)
  }

  predicate ValidBlock(b: Block, syms: seq<Symbol>) {
    ValidCode(b.code, syms) && (UsesExpr(b) ==> ValidExpr(b.expr, syms))
  }

  predicate ValidProgram(g: Graph, syms: seq<Symbol>) {
    ValidGraph(g) && forall b :: 0 <= b < |g| ==> ValidBlock(g[b], syms)
  }
}
