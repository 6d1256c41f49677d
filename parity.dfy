/** The parity domain written as the exercise (Parity.java): the same four
    elements as ParitySolution, with its own transfer tables. */
module Parity {
  import opened JavaInt
  import opened Expressions
  import opened ParityValues
  import BaseLattice

  function LubAux(a: Parity, b: Parity): Parity { Top }

  predicate LessOrEqualAux(a: Parity, b: Parity) { false }

  function Lub(a: Parity, b: Parity): Parity
  {
    BaseLattice.Lub(a, b, IsTop, IsBottom, LubAux)
  }

  predicate LessOrEqual(a: Parity, b: Parity)
  {
    BaseLattice.LessOrEqual(a, b, IsTop, IsBottom, LessOrEqualAux)
  }

  lemma LubIsLeastUpperBound(a: Parity, b: Parity, c: Parity)
    ensures LessOrEqual(a, Lub(a, b)) && LessOrEqual(b, Lub(a, b))
    ensures LessOrEqual(a, c) && LessOrEqual(b, c) ==> LessOrEqual(Lub(a, b), c)
    ensures a != b && !IsBottom(a) && !IsBottom(b) ==> Lub(a, b) == Top
  {
  }

  function EvalNonNullConstant(v: Value): (r: Parity)
    ensures v.IntValue? ==> r != Top && Describes(r, v.n)
    ensures v.OtherValue? ==> r == Top
  {
    match v
    case IntValue(val) => ParityOf(val)
    case OtherValue => Top
  }

  /** The null constant is taken to be EVEN. */
  function EvalNullConstant(): (r: Parity)
    ensures Describes(r, 0) && r != Top
  {
    Even
  }

  /** The table the source writes twice, once for + and once for -. */
  function AdditiveTable(left: Parity, right: Parity): Parity
  {
    if left == Even then right
    else if left == Odd then
      if right == Even then left
      else if right == Odd then Even
      else Top
    else Top
  }

  function EvalBinaryExpression(op: BinaryOperator, left: Parity, right: Parity): (r: Parity)
    ensures !IsArithmetic(op) ==> r == Top
    ensures op == Addition && left == Even ==> r == right
    ensures op == Multiplication && left == Even ==> r == Even
    ensures op == Multiplication && left == Odd ==> r == right
  {
    if op == Addition then AdditiveTable(left, right)
    else if op == Subtraction then AdditiveTable(left, right)
    else if op == Multiplication then
      if left == Even then left
      else if left == Odd then right
      else if left == Top then
        if right == Even then right else Top
      else Top
    else Top
  }

  /** The remaining rows of the + table: ODD+EVEN is ODD, ODD+ODD is EVEN,
      ODD plus TOP or BOTTOM is TOP, and a TOP or BOTTOM left operand gives TOP;
      and - has exactly the table of +. */
  lemma AdditiveRows(left: Parity, right: Parity)
    ensures EvalBinaryExpression(Subtraction, left, right) == EvalBinaryExpression(Addition, left, right)
    ensures left == Odd ==>
      EvalBinaryExpression(Addition, left, right) == (if right == Even then Odd else if right == Odd then Even else Top)
    ensures left == Top || left == Bottom ==> EvalBinaryExpression(Addition, left, right) == Top
  {
  }

  /** A TOP left operand times EVEN is EVEN; every other product with a TOP
      or BOTTOM left operand is TOP. */
  lemma MultiplicativeRows(left: Parity, right: Parity)
    requires left == Top || left == Bottom
    ensures EvalBinaryExpression(Multiplication, left, right) ==
      (if left == Top && right == Even then Even else Top)
  {
  }

  /** Soundness of every table entry against Java's int arithmetic. */
  lemma BinarySound(op: BinaryOperator, left: Parity, right: Parity, x: Int32, y: Int32)
    requires IsArithmetic(op)
    requires Describes(left, x) && Describes(right, y)
    ensures Describes(EvalBinaryExpression(op, left, right), ApplyArithmetic(op, x, y))
  {
    ArithmeticParity(op, x, y);
  }

  /** Unlike the reference domain, + is not symmetric: EVEN+BOTTOM is BOTTOM
      while BOTTOM+EVEN is TOP. */
  lemma AdditionNotSymmetric()
    ensures EvalBinaryExpression(Addition, Even, Bottom) == Bottom
    ensures EvalBinaryExpression(Addition, Bottom, Even) == Top
  {
  }
}
