/** The reference parity domain (ParitySolution.java): a flat lattice of
    EVEN and ODD between BOTTOM and TOP. */
module ParitySolution {
  import opened JavaInt
  import opened Expressions
  import opened ParityValues
  import BaseLattice

  function LubAux(a: Parity, b: Parity): Parity { Top }

  predicate LessOrEqualAux(a: Parity, b: Parity) { false }

  function Lub(a: Parity, b: Parity): Parity
  {
    BaseLattice.Lub(a, b, IsTop, IsBottom, LubAux)
  }

  predicate LessOrEqual(a: Parity, b: Parity)
  {
    BaseLattice.LessOrEqual(a, b, IsTop, IsBottom, LessOrEqualAux)
  }

  /** With LiSA's wrappers, the constant TOP for lubAux and `false` for
      lessOrEqualAux give the flat lattice: lub is the least upper bound. */
  lemma LubIsLeastUpperBound(a: Parity, b: Parity, c: Parity)
    ensures LessOrEqual(a, Lub(a, b)) && LessOrEqual(b, Lub(a, b))
    ensures LessOrEqual(a, c) && LessOrEqual(b, c) ==> LessOrEqual(Lub(a, b), c)
    ensures a != b && !IsBottom(a) && !IsBottom(b) ==> Lub(a, b) == Top
  {
  }

  function EvalNonNullConstant(v: Value): (r: Parity)
    ensures v.IntValue? ==> r != Top && Describes(r, v.n)
    ensures v.OtherValue? ==> r == Top
  {
    match v
    case IntValue(i) => ParityOf(i)
    case OtherValue => Top
  }

  function EvalBinaryExpression(op: BinaryOperator, left: Parity, right: Parity): (r: Parity)
    ensures IsTop(left) || IsTop(right) ==> r == Top
    ensures !IsArithmetic(op) ==> r == Top
  {
    if IsTop(left) || IsTop(right) then Top
    else if op == Addition || op == Subtraction then
      if right == left then Even else Odd
    else if op == Multiplication then
      if left == Even || right == Even then Even else Odd
    else Top
  }

  /** For + and -, operands of equal parity give EVEN and unequal ones ODD,
      BOTTOM included; x gives EVEN exactly when an operand is EVEN. */
  lemma BinaryTable(op: BinaryOperator, left: Parity, right: Parity)
    requires left != Top && right != Top
    ensures op == Addition || op == Subtraction ==>
      (EvalBinaryExpression(op, left, right) == Even <==> left == right) &&
      (EvalBinaryExpression(op, left, right) == Odd <==> left != right)
    ensures op == Multiplication ==>
      (EvalBinaryExpression(op, left, right) == Even <==> left == Even || right == Even) &&
      (EvalBinaryExpression(op, left, right) == Odd <==> left != Even && right != Even)
  {
  }

  lemma BinarySymmetric(op: BinaryOperator, left: Parity, right: Parity)
    ensures EvalBinaryExpression(op, left, right) == EvalBinaryExpression(op, right, left)
  {
  }

  /** Soundness: if the operands describe x and y, the result describes what
      Java computes for x op y. */
  lemma BinarySound(op: BinaryOperator, left: Parity, right: Parity, x: Int32, y: Int32)
    requires IsArithmetic(op)
    requires Describes(left, x) && Describes(right, y)
    ensures Describes(EvalBinaryExpression(op, left, right), ApplyArithmetic(op, x, y))
  {
    ArithmeticParity(op, x, y);
  }
}
