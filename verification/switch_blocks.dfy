/**
  The blocks that a switch statement is lowered to, and where control goes through
  them.
*/
module SwitchBlocks {
  import opened SwitchSpec

  /** The switch value less the least case, computed as the lowering does. */
  function Offset(x: int, least: int): int {
    if least > 0 then Wrap(x - least) else if least < 0 then Wrap(x + Wrap(-least)) else x
  }

  lemma {:induction false} OffsetIs(x: int, least: int)
    requires IsInt(x) && IsInt(least)
    ensures Offset(x, least) == Wrap(x - least)
  {
    if least == INT_MIN {
      WrapOver(-least);
      WrapOver(x - least);
      WrapOver(x + INT_MIN);
    }
  }

  datatype Expr = None | Equal(value: int) | Above(value: int) | Negative(least: int) | Exceeds(least: int, max: int) | Index(least: int)

  datatype JumpPair = JumpPair(value: int, target: nat)

  /** jump1 is taken if the comparison holds; -1 where there is no jump. */
  datatype Block = Block(expr: Expr, jump0: int, jump1: int, table: seq<JumpPair>)

  const FRESH: Block := Block(None, -1, -1, [])

  predicate Holds(e: Expr, x: int) {
    match e
    case Equal(v) => v == x
    case Above(v) => v > x
    case Negative(least) => 0 > Offset(x, least)
    case Exceeds(least, max) => Offset(x, least) > max
    case _ => false
  }

  /** Where a block goes for switch value x. */
  function Next(b: Block, x: int): int {
    if b.table != [] then
      if b.expr.Index? && 0 <= Offset(x, b.expr.least) < |b.table| then b.table[Offset(x, b.expr.least)].target else -1
    else if b.jump1 >= 0 && Holds(b.expr, x) then b.jump1
    else b.jump0
  }

  /** Follow the blocks from lo on, at most n steps. */
  function Walk(blocks: seq<Block>, lo: nat, b: int, x: int, n: nat): int
    decreases n
  {
    if n == 0 || b < lo || b >= |blocks| then b else Walk(blocks, lo, Next(blocks[b], x), x, n - 1)
  }

  /** From b, through new blocks only, control gets to the older block t. */
  ghost predicate Picks(blocks: seq<Block>, lo: nat, b: int, x: int, t: nat) {
    t < lo && exists n: nat :: Walk(blocks, lo, b, x, n) == t
  }

  lemma {:induction false} PicksItself(blocks: seq<Block>, lo: nat, t: nat, x: int)
    requires t < lo
    ensures Picks(blocks, lo, t, x, t)
  {
    assert Walk(blocks, lo, t, x, 0) == t;
  }

  lemma {:induction false} PicksStep(blocks: seq<Block>, lo: nat, b: nat, x: int, t: nat)
    requires lo <= b < |blocks| && Picks(blocks, lo, Next(blocks[b], x), x, t)
    ensures Picks(blocks, lo, b, x, t)
  {
    var n: nat :| Walk(blocks, lo, Next(blocks[b], x), x, n) == t;
    assert Walk(blocks, lo, b, x, n + 1) == t;
  }

  lemma {:induction false} WalkSame(blocks: seq<Block>, hi: nat, blocks': seq<Block>, lo: nat, b: int, x: int, n: nat)
    requires lo <= hi && |blocks| <= |blocks'| && forall i :: hi <= i < |blocks| ==> blocks'[i] == blocks[i]
    requires 0 <= Walk(blocks, hi, b, x, n) < lo
    ensures Walk(blocks', lo, b, x, n) == Walk(blocks, hi, b, x, n)
    decreases n
  {
    if n > 0 && hi <= b < |blocks| {
      WalkSame(blocks, hi, blocks', lo, Next(blocks[b], x), x, n - 1);
    }
  }

  /** Changes to other blocks do not matter. */
  lemma {:induction false} PicksSame(blocks: seq<Block>, hi: nat, blocks': seq<Block>, lo: nat, b: int, x: int, t: nat)
    requires lo <= hi && |blocks| <= |blocks'| && forall i :: hi <= i < |blocks| ==> blocks'[i] == blocks[i]
    requires Picks(blocks, hi, b, x, t) && t < lo
    ensures Picks(blocks', lo, b, x, t)
  {
    var n: nat :| Walk(blocks, hi, b, x, n) == t;
    WalkSame(blocks, hi, blocks', lo, b, x, n);
  }

  /** Control gets to one place only. */
  lemma {:induction false} PicksOne(blocks: seq<Block>, lo: nat, b: int, x: int, t: nat, u: nat)
    requires Picks(blocks, lo, b, x, t) && Picks(blocks, lo, b, x, u)
    ensures t == u
  {
    var m: nat :| Walk(blocks, lo, b, x, m) == t;
    var n: nat :| Walk(blocks, lo, b, x, n) == u;
    WalkOne(blocks, lo, b, x, m, n);
  }

  lemma {:induction false} WalkOne(blocks: seq<Block>, lo: nat, b: int, x: int, m: nat, n: nat)
    requires 0 <= Walk(blocks, lo, b, x, m) < lo && 0 <= Walk(blocks, lo, b, x, n) < lo
    ensures Walk(blocks, lo, b, x, m) == Walk(blocks, lo, b, x, n)
    decreases m
  {
    if lo <= b < |blocks| {
      WalkOne(blocks, lo, Next(blocks[b], x), x, m - 1, n - 1);
    }
  }
}
