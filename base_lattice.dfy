/** The lattice operations LiSA's BaseLattice builds around a domain's own
    `lubAux` and `lessOrEqualAux`. The library is not part of this model: the
    definitions below are the behaviour this model assumes of it. Bottom, top
    and equal arguments are settled here, and only the remaining pairs reach
    the domain's auxiliary operation. */
module BaseLattice {

  function Lub<L(==)>(a: L, b: L, isTop: L -> bool, isBottom: L -> bool, lubAux: (L, L) -> L): L
  {
    if isBottom(b) || isTop(a) || a == b then a
    else if isBottom(a) || isTop(b) then b
    else lubAux(a, b)
  }

  predicate LessOrEqual<L(==)>(a: L, b: L, isTop: L -> bool, isBottom: L -> bool, lessOrEqualAux: (L, L) -> bool)
  {
    if a == b || isBottom(a) || isTop(b) then true
    else if isTop(a) || isBottom(b) then false
    else lessOrEqualAux(a, b)
  }
}
