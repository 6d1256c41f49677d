/** The three-level possible-taint domain (Taint.java): BOTTOM below CLEAN
    below TAINT, with TAINT as top. */
module Taint {
  import BaseLattice

  datatype Taint = Tainted | Clean | Bottom

  /** top(): the TAINT constant. */
  function TopElement(): Taint { Tainted }

  /** bottom(): the BOTTOM constant. */
  function BottomElement(): Taint { Bottom }

  /** isTop() and isBottom(): identity with top() and bottom(). */
  predicate IsTop(t: Taint) { t == TopElement() }
  predicate IsBottom(t: Taint) { t == BottomElement() }

  function LubAux(a: Taint, b: Taint): Taint { Tainted }

  function WideningAux(a: Taint, b: Taint): Taint { Tainted }

  predicate LessOrEqualAux(a: Taint, b: Taint) { false }

  function Lub(a: Taint, b: Taint): Taint
  {
    BaseLattice.Lub(a, b, IsTop, IsBottom, LubAux)
  }

  predicate LessOrEqual(a: Taint, b: Taint)
  {
    BaseLattice.LessOrEqual(a, b, IsTop, IsBottom, LessOrEqualAux)
  }

  /** The domain is the chain BOTTOM < CLEAN < TAINT; lub is its maximum. */
  lemma ChainLattice(a: Taint, b: Taint, c: Taint)
    ensures LessOrEqual(a, Lub(a, b)) && LessOrEqual(b, Lub(a, b))
    ensures LessOrEqual(a, c) && LessOrEqual(b, c) ==> LessOrEqual(Lub(a, b), c)
    ensures LessOrEqual(a, b) || LessOrEqual(b, a)
    ensures LubAux(a, b) == WideningAux(a, b) == TopElement()
  {
  }

  /** top() is above every element and bottom() below every element, and
      nothing else is above everything. */
  lemma TopIsGreatest(t: Taint)
    ensures LessOrEqual(t, TopElement()) && LessOrEqual(BottomElement(), t)
    ensures LessOrEqual(TopElement(), t) ==> t == TopElement()
    ensures LessOrEqual(t, BottomElement()) ==> t == BottomElement()
  {
  }

  predicate IsAlwaysTainted(t: Taint) { false }

  predicate IsPossiblyTainted(t: Taint) { t == Tainted }

  /** A possible-taint analysis never claims definite taint; only the top
      element is possibly tainted. */
  lemma TaintQueries(t: Taint)
    ensures !IsAlwaysTainted(t)
    ensures IsPossiblyTainted(t) <==> IsTop(t)
  {
  }
}
