/**
  Types and operands from which the programs are made that show a fault.
*/
module ExampleCode {
  import opened Options
  import opened Ir

  const INT := Type(Int, false, false, NoTree)
  const SHORT := Type(Short, false, false, NoTree)
  const CHAR := Type(Char, false, false, NoTree)
  const FUNCTION := Type(Function, false, false, NoTree)

  /** Symbol x as an object of the type. */
  function Local(x: nat, t: Type): Var { Var(Direct, t, Some(x), 0, 0, 0, 0) }

  function Constant(t: Type, n: int): Expr {
    Expr(Cast, t, Var(Immediate, t, None, 0, 0, 0, n), Var(Immediate, t, None, 0, 0, 0, n))
  }
}
