/** The reference definite-taint domain (DefiniteTaintSolution.java): TAINTED
    and CLEAN are incomparable, between BOTTOM and TOP. */
module DefiniteTaintSolution {
  import opened TaintValues
  import BaseLattice

  function LubAux(a: DefiniteTaint, b: DefiniteTaint): DefiniteTaint { Top }

  predicate LessOrEqualAux(a: DefiniteTaint, b: DefiniteTaint) { false }

  function WideningAux(a: DefiniteTaint, b: DefiniteTaint): DefiniteTaint { Top }

  function Lub(a: DefiniteTaint, b: DefiniteTaint): DefiniteTaint
  {
    BaseLattice.Lub(a, b, IsTop, IsBottom, LubAux)
  }

  predicate LessOrEqual(a: DefiniteTaint, b: DefiniteTaint)
  {
    BaseLattice.LessOrEqual(a, b, IsTop, IsBottom, LessOrEqualAux)
  }

  /** The auxiliary operations only see TAINTED against CLEAN, and for that
      pair TOP is the least upper bound; widening agrees with lub. */
  lemma LubIsLeastUpperBound(a: DefiniteTaint, b: DefiniteTaint, c: DefiniteTaint)
    ensures LessOrEqual(a, Lub(a, b)) && LessOrEqual(b, Lub(a, b))
    ensures LessOrEqual(a, c) && LessOrEqual(b, c) ==> LessOrEqual(Lub(a, b), c)
    ensures WideningAux(a, b) == LubAux(a, b)
  {
  }

  predicate IsAlwaysTainted(t: DefiniteTaint) { t == Tainted }

  predicate IsPossiblyTainted(t: DefiniteTaint) { t == Top }

  /** No element is both always and possibly tainted; an element that is
      neither describes only clean values (or none). */
  lemma TaintQueriesExclusive(t: DefiniteTaint)
    ensures !(IsAlwaysTainted(t) && IsPossiblyTainted(t))
    ensures IsAlwaysTainted(t) <==> (Describes(t, true) && !Describes(t, false))
    ensures IsPossiblyTainted(t) <==> (Describes(t, true) && Describes(t, false))
  {
  }

  function EvalBinaryExpression(left: DefiniteTaint, right: DefiniteTaint): (r: DefiniteTaint)
    ensures r == Tainted <==> left == Tainted && right == Tainted
    ensures r == Clean <==> left != Tainted && right != Tainted && left != Top && right != Top
    ensures r == Top || r == Tainted || r == Clean
  {
    if left == Tainted && right == Tainted then Tainted
    else if left == Tainted || right == Tainted then Top
    else if left == Top || right == Top then Top
    else Clean
  }

  function EvalTernaryExpression(left: DefiniteTaint, middle: DefiniteTaint, right: DefiniteTaint): (r: DefiniteTaint)
    ensures r == Tainted <==> left == Tainted && middle == Tainted && right == Tainted
    ensures r == Clean <==> !(left in {Tainted, Top} || middle in {Tainted, Top} || right in {Tainted, Top})
  {
    if left == Tainted && right == Tainted && middle == Tainted then Tainted
    else if left == Tainted || right == Tainted || middle == Tainted then Top
    else if left == Top || right == Top || middle == Top then Top
    else Clean
  }

  lemma BinarySymmetric(left: DefiniteTaint, right: DefiniteTaint)
    ensures EvalBinaryExpression(left, right) == EvalBinaryExpression(right, left)
  {
  }

  /** The ternary table is the binary table applied twice. */
  lemma TernaryIsNestedBinary(left: DefiniteTaint, middle: DefiniteTaint, right: DefiniteTaint)
    ensures EvalTernaryExpression(left, middle, right) ==
            EvalBinaryExpression(EvalBinaryExpression(left, middle), right)
  {
  }

  /** Soundness: a result is tainted when an operand is. */
  lemma EvaluationSound(left: DefiniteTaint, middle: DefiniteTaint, right: DefiniteTaint, a: bool, b: bool, c: bool)
    requires Describes(left, a) && Describes(middle, b) && Describes(right, c)
    ensures Describes(EvalBinaryExpression(left, middle), a || b)
    ensures Describes(EvalTernaryExpression(left, middle, right), a || b || c)
  {
  }
}
