/** The symbolic value expressions the domains evaluate: LiSA's Constant,
    Identifier, UnaryExpression, BinaryExpression, TernaryExpression, Skip
    and PushAny, with just the operators the domains distinguish. */
module Expressions {
  import opened JavaInt

  /** Program variables are compared by name. */
  type Id = string

  datatype Option<+T> = None | Some(value: T)

  /** The payload of a non-null constant: a Java Integer, or anything else
      (a string, a boolean, a float, ...). */
  datatype Value = IntValue(n: Int32) | OtherValue

  datatype Constant = NullConstant | NonNull(value: Value)

  datatype UnaryOperator = NumericNegation | OtherUnary

  datatype BinaryOperator =
    | Addition | Subtraction | Multiplication | Division
    | ComparisonEq | ComparisonLt | ComparisonGt | ComparisonLe | ComparisonGe
    | OtherBinary

  datatype Expr =
    | Const(c: Constant)
    | Var(id: Id)
    | Unary(uop: UnaryOperator, arg: Expr)
    | Binary(bop: BinaryOperator, left: Expr, right: Expr)
    | Ternary(left: Expr, middle: Expr, right: Expr)
    | Skip
    | PushAny

  /** The three operators every numeric domain here gives a meaning to. */
  predicate IsArithmetic(op: BinaryOperator)
  {
    op == Addition || op == Subtraction || op == Multiplication
  }

  /** Java's int semantics of those operators. */
  function ApplyArithmetic(op: BinaryOperator, x: Int32, y: Int32): Int32
    requires IsArithmetic(op)
  {
    match op
    case Addition => Add(x, y)
    case Subtraction => Sub(x, y)
    case Multiplication => Mul(x, y)
  }
}
