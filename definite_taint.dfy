/** The definite-taint domain written as the exercise (DefiniteTaint.java).
    Its TOP and TAINT constants carry the same field value but are distinct
    objects compared by identity, so they are distinct elements here. */
module DefiniteTaint {
  import opened Expressions
  import opened TaintValues
  import BaseLattice

  function LubAux(a: DefiniteTaint, b: DefiniteTaint): DefiniteTaint { Top }

  predicate LessOrEqualAux(a: DefiniteTaint, b: DefiniteTaint) { false }

  function WideningAux(a: DefiniteTaint, b: DefiniteTaint): DefiniteTaint { LubAux(a, b) }

  function Lub(a: DefiniteTaint, b: DefiniteTaint): DefiniteTaint
  {
    BaseLattice.Lub(a, b, IsTop, IsBottom, LubAux)
  }

  predicate LessOrEqual(a: DefiniteTaint, b: DefiniteTaint)
  {
    BaseLattice.LessOrEqual(a, b, IsTop, IsBottom, LessOrEqualAux)
  }

  lemma LubIsLeastUpperBound(a: DefiniteTaint, b: DefiniteTaint, c: DefiniteTaint)
    ensures LessOrEqual(a, Lub(a, b)) && LessOrEqual(b, Lub(a, b))
    ensures LessOrEqual(a, c) && LessOrEqual(b, c) ==> LessOrEqual(Lub(a, b), c)
    ensures WideningAux(a, b) == Top
  {
  }

  /** Identity with the TAINT constant. */
  predicate IsAlwaysTainted(t: DefiniteTaint) { t == Tainted }

  /** isTop(): identity with the TOP constant. */
  predicate IsPossiblyTainted(t: DefiniteTaint) { IsTop(t) }

  /** TOP is possibly but not always tainted, although it carries the same
      `true` as TAINT; no element is both. */
  lemma TopIsNotAlwaysTainted(t: DefiniteTaint)
    ensures !IsAlwaysTainted(Top) && IsPossiblyTainted(Top)
    ensures IsAlwaysTainted(Tainted) && !IsPossiblyTainted(Tainted)
    ensures !(IsAlwaysTainted(t) && IsPossiblyTainted(t))
  {
  }

  /** What evalBinaryExpression asks of its two ThreeLevelsTaint operands:
      the library domain answers these four questions. */
  datatype TaintQueries = TaintQueries(possiblyTainted: bool, bottom: bool, alwaysTainted: bool, alwaysClean: bool)

  /** The answers of LiSA's ThreeLevelsTaint (assumed: each query is identity
      with one of its four constants). */
  function QueriesOf(t: DefiniteTaint): TaintQueries
  {
    TaintQueries(t == Top, t == Bottom, t == Tainted, t == Clean)
  }

  function EvalBinaryExpression(op: BinaryOperator, left: TaintQueries, right: TaintQueries): (r: DefiniteTaint)
    ensures left.possiblyTainted || right.possiblyTainted ==> r == Top
    ensures r == Bottom <==> !left.possiblyTainted && !right.possiblyTainted && (left.bottom || right.bottom)
    ensures r == Tainted ==> IsArithmetic(op) && (left.alwaysTainted || right.alwaysTainted)
    ensures r == Clean ==> IsArithmetic(op) && left.alwaysClean && right.alwaysClean
    ensures !IsArithmetic(op) ==> r == Top || r == Bottom
  {
    if left.possiblyTainted || right.possiblyTainted then Top
    else if left.bottom || right.bottom then Bottom
    else if IsArithmetic(op) && (left.alwaysTainted || right.alwaysTainted) then Tainted
    else if IsArithmetic(op) && left.alwaysClean && right.alwaysClean then Clean
    else Top
  }

  /** For +, - and x on operands that are not possibly tainted or bottom,
      an always-tainted operand gives TAINT, and two always-clean operands
      (neither always tainted) give CLEAN. */
  lemma ArithmeticCases(op: BinaryOperator, left: TaintQueries, right: TaintQueries)
    requires IsArithmetic(op)
    requires !left.possiblyTainted && !right.possiblyTainted && !left.bottom && !right.bottom
    ensures left.alwaysTainted || right.alwaysTainted ==> EvalBinaryExpression(op, left, right) == Tainted
    ensures !left.alwaysTainted && !right.alwaysTainted && left.alwaysClean && right.alwaysClean ==>
              EvalBinaryExpression(op, left, right) == Clean
  {
  }

  lemma BinarySymmetric(op: BinaryOperator, left: TaintQueries, right: TaintQueries)
    ensures EvalBinaryExpression(op, left, right) == EvalBinaryExpression(op, right, left)
  {
  }

  /** Soundness on ThreeLevelsTaint operands: a result of + - x is tainted
      when an operand is. */
  lemma BinarySound(op: BinaryOperator, left: DefiniteTaint, right: DefiniteTaint, a: bool, b: bool)
    requires IsArithmetic(op)
    requires Describes(left, a) && Describes(right, b)
    ensures Describes(EvalBinaryExpression(op, QueriesOf(left), QueriesOf(right)), a || b)
  {
  }
}
