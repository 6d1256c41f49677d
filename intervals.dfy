/** The interval domain (Intervals.java). An element is BOTTOM (a null
    IntInterval) or a pair of extended-integer bounds; TOP is [-oo, +oo].
    Bounds are LiSA's MathNumber without its NaN. */
module Intervals {
  import opened JavaInt
  import opened Expressions

  datatype ExtInt = MinusInf | Fin(n: int) | PlusInf

  /** MathNumber.compareTo(b) <= 0 */
  predicate Le(a: ExtInt, b: ExtInt)
  {
    match (a, b)
    case (MinusInf, _) => true
    case (_, PlusInf) => true
    case (Fin(x), Fin(y)) => x <= y
    case _ => false
  }

  /** MathNumber.compareTo(b) < 0 */
  predicate Lt(a: ExtInt, b: ExtInt) { !Le(b, a) }

  function Min(a: ExtInt, b: ExtInt): (r: ExtInt)
    ensures Le(r, a) && Le(r, b) && (r == a || r == b)
  {
    if Le(a, b) then a else b
  }

  function Max(a: ExtInt, b: ExtInt): (r: ExtInt)
    ensures Le(a, r) && Le(b, r) && (r == a || r == b)
  {
    if Le(a, b) then b else a
  }

  predicate IsInfinite(a: ExtInt) { !a.Fin? }

  /** MathNumber yields NaN for -oo + +oo; the model leaves that sum out. */
  predicate CanAdd(a: ExtInt, b: ExtInt)
  {
    !(a == MinusInf && b == PlusInf) && !(a == PlusInf && b == MinusInf)
  }

  function AddExt(a: ExtInt, b: ExtInt): ExtInt
    requires CanAdd(a, b)
  {
    if a.Fin? && b.Fin? then Fin(a.n + b.n)
    else if a == MinusInf || b == MinusInf then MinusInf
    else PlusInf
  }

  predicate CanSubtract(a: ExtInt, b: ExtInt)
  {
    !(a == MinusInf && b == MinusInf) && !(a == PlusInf && b == PlusInf)
  }

  function SubExt(a: ExtInt, b: ExtInt): ExtInt
    requires CanSubtract(a, b)
  {
    if a.Fin? && b.Fin? then Fin(a.n - b.n)
    else if a == MinusInf || b == PlusInf then MinusInf
    else PlusInf
  }

  datatype Intervals = Bottom | Itv(low: ExtInt, high: ExtInt)

  const TopInterval: Intervals := Itv(MinusInf, PlusInf)

  /** IntInterval keeps its bounds in order; every element the domain
      builds satisfies this. */
  predicate Ordered(i: Intervals)
  {
    i.Bottom? || Le(i.low, i.high)
  }

  /** new Intervals(low, high): IntInterval's constructor swaps bounds given
      in the wrong order, so the result has the two given bounds, in order. */
  function Make(low: ExtInt, high: ExtInt): (r: Intervals)
    ensures r.Itv? && Ordered(r)
    ensures {r.low, r.high} == {low, high}
    ensures Le(low, high) ==> r.low == low && r.high == high
  {
    if Le(low, high) then Itv(low, high) else Itv(high, low)
  }

  /** An interval whose bounds are in order and not the wrong infinity. */
  predicate WellFormed(i: Intervals)
  {
    i.Bottom? || (i.low != PlusInf && i.high != MinusInf && Le(i.low, i.high))
  }

  /** Concretisation: the integers the element stands for. */
  predicate Contains(i: Intervals, x: int)
  {
    i.Itv? && Le(i.low, Fin(x)) && Le(Fin(x), i.high)
  }

  predicate IsTop(i: Intervals)
  {
    i.Itv? && i.low == MinusInf && i.high == PlusInf
  }

  predicate IsBottom(i: Intervals)
  {
    i.Bottom?
  }

  /** isTop holds exactly of the interval that contains every integer, and a
      well-formed interval is bottom exactly when it contains none. */
  lemma TopAndBottomMeaning(i: Intervals)
    ensures IsTop(i) <==> forall x :: Contains(i, x)
    ensures WellFormed(i) ==> (IsBottom(i) <==> forall x :: !Contains(i, x))
  {
    if !IsTop(i) {
      if i.Bottom? {
        assert !Contains(i, 0);
      } else if i.low != MinusInf {
        var x := if i.low.Fin? then i.low.n - 1 else 0;
        assert !Contains(i, x);
      } else {
        var x := if i.high.Fin? then i.high.n + 1 else 0;
        assert !Contains(i, x);
      }
    }
    if WellFormed(i) && !IsBottom(i) {
      var x := if i.low.Fin? then i.low.n else if i.high.Fin? then i.high.n else 0;
      assert Contains(i, x);
    }
  }

  /** IntInterval.includes: other's bounds lie within this one's. */
  predicate LessOrEqualAux(a: Intervals, b: Intervals)
    requires a.Itv? && b.Itv?
  {
    Le(b.low, a.low) && Le(a.high, b.high)
  }

  /** The interval order is inclusion of the integers described. */
  lemma LessOrEqualIsInclusion(a: Intervals, b: Intervals)
    requires a.Itv? && b.Itv? && WellFormed(a)
    ensures LessOrEqualAux(a, b) <==> forall x :: Contains(a, x) ==> Contains(b, x)
  {
    if forall x :: Contains(a, x) ==> Contains(b, x) {
      if !Le(b.low, a.low) {
        var x := if a.low.Fin? then a.low.n
                 else if b.low.Fin? then (if a.high.Fin? && a.high.n < b.low.n then a.high.n else b.low.n - 1)
                 else if a.high.Fin? then a.high.n else 0;
        assert Contains(a, x);
      }
      if !Le(a.high, b.high) {
        var x := if a.high.Fin? then a.high.n
                 else if b.high.Fin? then (if a.low.Fin? && a.low.n > b.high.n then a.low.n else b.high.n + 1)
                 else if a.low.Fin? then a.low.n else 0;
        assert Contains(a, x);
      }
    }
  }

  function GlbAux(a: Intervals, b: Intervals): (r: Intervals)
    requires a.Itv? && b.Itv?
    ensures r.Itv?
  {
    var minLow := Min(a.low, b.low);
    var maxHigh := Max(a.high, b.high);
    if minLow == MinusInf && maxHigh == PlusInf then TopInterval else Make(minLow, maxHigh)
  }

  function LubAux(a: Intervals, b: Intervals): (r: Intervals)
    requires a.Itv? && b.Itv?
    ensures r.Itv?
  {
    var maxLow := Max(a.low, b.low);
    var minHigh := Min(a.high, b.high);
    if maxLow == MinusInf && minHigh == PlusInf then TopInterval else Make(maxLow, minHigh)
  }

  /** As written, glbAux yields the hull of its arguments: every integer of
      either argument is in the result. */
  lemma GlbAuxIsHull(a: Intervals, b: Intervals, x: int)
    requires a.Itv? && b.Itv?
    ensures Contains(a, x) || Contains(b, x) ==> Contains(GlbAux(a, b), x)
    ensures WellFormed(a) && WellFormed(b) ==> WellFormed(GlbAux(a, b))
  {
  }

  /** As written, lubAux yields the intersection of overlapping arguments;
      for arguments that do not overlap, IntInterval puts the bounds in order
      and the result is the gap between them. */
  lemma LubAuxIsIntersection(a: Intervals, b: Intervals, x: int)
    requires a.Itv? && b.Itv?
    ensures Le(Max(a.low, b.low), Min(a.high, b.high)) ==>
      (Contains(LubAux(a, b), x) <==> Contains(a, x) && Contains(b, x))
    ensures Lt(Min(a.high, b.high), Max(a.low, b.low)) ==>
      (Contains(LubAux(a, b), x) <==> Le(Min(a.high, b.high), Fin(x)) && Le(Fin(x), Max(a.low, b.low)))
  {
  }

  /** [0, 1] lub [5, 6] is the gap [1, 5], whose 3 is in neither argument. */
  lemma LubAuxOfDisjoint()
    ensures LubAux(Itv(Fin(0), Fin(1)), Itv(Fin(5), Fin(6))) == Itv(Fin(1), Fin(5))
    ensures Contains(Itv(Fin(1), Fin(5)), 3)
    ensures !Contains(Itv(Fin(0), Fin(1)), 3) && !Contains(Itv(Fin(5), Fin(6)), 3)
  {
  }

  /** Hence lubAux is not an upper bound: [0, 3] lub [1, 2] is [1, 2], which
      does not include [0, 3]. */
  lemma LubAuxNotUpperBound()
    ensures LubAux(Itv(Fin(0), Fin(3)), Itv(Fin(1), Fin(2))) == Itv(Fin(1), Fin(2))
    ensures !LessOrEqualAux(Itv(Fin(0), Fin(3)), LubAux(Itv(Fin(0), Fin(3)), Itv(Fin(1), Fin(2))))
  {
  }

  /** The lub the domain needs is the hull that glbAux computes. */
  function IntendedLubAux(a: Intervals, b: Intervals): (r: Intervals)
    requires a.Itv? && b.Itv?
  {
    GlbAux(a, b)
  }

  lemma IntendedLubIsLeastUpperBound(a: Intervals, b: Intervals, c: Intervals)
    requires a.Itv? && b.Itv? && c.Itv? && Ordered(a) && Ordered(b)
    ensures LessOrEqualAux(a, IntendedLubAux(a, b)) && LessOrEqualAux(b, IntendedLubAux(a, b))
    ensures LessOrEqualAux(a, c) && LessOrEqualAux(b, c) ==> LessOrEqualAux(IntendedLubAux(a, b), c)
  {
  }

  /** BaseLattice.glb around glbAux (assumed, as LiSA implements it). */
  function Glb(a: Intervals, b: Intervals): Intervals
  {
    if IsBottom(a) || IsTop(b) || a == b then a
    else if IsBottom(b) || IsTop(a) then b
    else GlbAux(a, b)
  }

  /** The outcome of compareTo: a number, or the case the class hands on to
      IntInterval.compareTo, which is not part of this model. */
  datatype Comparison = Order(n: int) | ByIntInterval

  function CompareTo(a: Intervals, b: Intervals): (r: Comparison)
    ensures IsBottom(a) ==> r == Order(if IsBottom(b) then 0 else -1)
    ensures IsTop(a) ==> r == Order(if IsTop(b) then 0 else 1)
    ensures !IsBottom(a) && IsBottom(b) ==> r == Order(1)
    ensures r == ByIntInterval <==> !IsBottom(a) && !IsTop(a) && !IsBottom(b)
  {
    if IsBottom(a) then Order(if IsBottom(b) then 0 else -1)
    else if IsTop(a) then Order(if IsTop(b) then 0 else 1)
    else if IsBottom(b) then Order(1)
    else if IsTop(a) then Order(-1)
    else ByIntInterval
  }

  /** The second top test repeats the first, so a non-top interval compared
      with TOP is not placed below it: [0, 5] against TOP goes to
      IntInterval.compareTo, while TOP against [0, 5] is 1. */
  lemma CompareToLeavesTopUnordered()
    ensures CompareTo(Itv(Fin(0), Fin(5)), TopInterval) == ByIntInterval
    ensures CompareTo(TopInterval, Itv(Fin(0), Fin(5))) == Order(1)
  {
  }

  /** compareTo with the second top test on the other operand. */
  function IntendedCompareTo(a: Intervals, b: Intervals): Comparison
  {
    if IsBottom(a) then Order(if IsBottom(b) then 0 else -1)
    else if IsTop(a) then Order(if IsTop(b) then 0 else 1)
    else if IsBottom(b) then Order(1)
    else if IsTop(b) then Order(-1)
    else ByIntInterval
  }

  function Sign(n: int): int { if n < 0 then -1 else if n > 0 then 1 else 0 }

  /** With that test, comparisons involving TOP or BOTTOM are always decided
      here and are antisymmetric. */
  lemma IntendedCompareToAntisymmetric(a: Intervals, b: Intervals)
    requires IsTop(a) || IsBottom(a) || IsTop(b) || IsBottom(b)
    ensures IntendedCompareTo(a, b).Order? && IntendedCompareTo(b, a).Order?
    ensures Sign(IntendedCompareTo(a, b).n) == -Sign(IntendedCompareTo(b, a).n)
  {
  }

  function EvalNonNullConstant(v: Value): (r: Intervals)
    ensures v.IntValue? ==> forall x :: Contains(r, x) <==> x == v.n
    ensures v.OtherValue? ==> IsTop(r)
  {
    match v
    case IntValue(i) => Make(Fin(i), Fin(i))
    case OtherValue => TopInterval
  }

  /** The bound arithmetic of an evaluation never meets MathNumber's NaN. */
  predicate Evaluable(op: BinaryOperator, left: Intervals, right: Intervals)
  {
    left.Itv? && right.Itv? ==>
      (op == Addition ==> CanAdd(left.low, right.low) && CanAdd(left.high, right.high)) &&
      (op == Subtraction ==> CanSubtract(left.low, right.low) && CanSubtract(left.high, right.high))
  }

  function EvalBinaryExpression(op: BinaryOperator, left: Intervals, right: Intervals): (r: Intervals)
    requires Evaluable(op, left, right)
    ensures IsBottom(left) || IsBottom(right) ==> r == Bottom
    ensures !IsBottom(left) && !IsBottom(right) && op != Addition && op != Subtraction ==> IsTop(r)
    ensures Ordered(r)
  {
    if IsBottom(left) || IsBottom(right) then Bottom
    else if op == Addition then Make(AddExt(left.low, right.low), AddExt(left.high, right.high))
    else if op == Subtraction then Make(SubExt(left.low, right.low), SubExt(left.high, right.high))
    else TopInterval
  }

  /** Addition is sound: x + y lies in the sum of intervals holding x and y. */
  lemma AdditionSound(left: Intervals, right: Intervals, x: int, y: int)
    requires Evaluable(Addition, left, right)
    requires Contains(left, x) && Contains(right, y)
    ensures Contains(EvalBinaryExpression(Addition, left, right), x + y)
  {
  }

  /** The integers finite bounds [l, h] stand for. */
  predicate FiniteItv(i: Intervals)
  {
    i.Itv? && i.low.Fin? && i.high.Fin? && i.low.n <= i.high.n
  }

  /** On finite intervals the sum is exact: it holds only sums x + y of
      members of the two operands. */
  lemma AdditionExact(left: Intervals, right: Intervals, z: int)
    requires FiniteItv(left) && FiniteItv(right)
    requires Contains(EvalBinaryExpression(Addition, left, right), z)
    ensures exists x, y :: Contains(left, x) && Contains(right, y) && z == x + y
  {
    var l1, h1, l2, h2 := left.low.n, left.high.n, right.low.n, right.high.n;
    if z - l1 <= h2 {
      assert Contains(left, l1) && Contains(right, z - l1) && z == l1 + (z - l1);
    } else {
      assert Contains(left, z - h2) && Contains(right, h2) && z == (z - h2) + h2;
    }
  }

  /** Subtraction as written, [l1 - l2, h1 - h2] with its bounds put in
      order, holds every difference x - y of members of finite operands
      exactly when one operand is a single number. */
  lemma SubtractionSoundIff(left: Intervals, right: Intervals)
    requires FiniteItv(left) && FiniteItv(right)
    ensures (forall x, y :: Contains(left, x) && Contains(right, y) ==>
               Contains(EvalBinaryExpression(Subtraction, left, right), x - y))
            <==> left.low == left.high || right.low == right.high
  {
    var l1, h1, l2, h2 := left.low.n, left.high.n, right.low.n, right.high.n;
    if l1 < h1 && l2 < h2 {
      assert Contains(left, l1) && Contains(right, h2);
      assert !Contains(EvalBinaryExpression(Subtraction, left, right), l1 - h2);
    }
  }

  /** So subtraction is not sound: 0 is in [0, 1] and 10 in [0, 10], but
      0 - 10 is not in the result [-9, 0]. */
  lemma SubtractionUnsound()
    ensures EvalBinaryExpression(Subtraction, Itv(Fin(0), Fin(1)), Itv(Fin(0), Fin(10))) == Itv(Fin(-9), Fin(0))
    ensures Contains(Itv(Fin(0), Fin(1)), 0) && Contains(Itv(Fin(0), Fin(10)), 10)
    ensures !Contains(Itv(Fin(-9), Fin(0)), 0 - 10)
  {
  }

  /** Interval subtraction [l1 - h2, h1 - l2]. */
  function IntendedSubtraction(left: Intervals, right: Intervals): (r: Intervals)
    requires left.Itv? && right.Itv?
    requires CanSubtract(left.low, right.high) && CanSubtract(left.high, right.low)
  {
    Make(SubExt(left.low, right.high), SubExt(left.high, right.low))
  }

  lemma IntendedSubtractionSound(left: Intervals, right: Intervals, x: int, y: int)
    requires left.Itv? && right.Itv?
    requires CanSubtract(left.low, right.high) && CanSubtract(left.high, right.low)
    requires Contains(left, x) && Contains(right, y)
    ensures Contains(IntendedSubtraction(left, right), x - y)
  {
  }

  function WideningAux(a: Intervals, b: Intervals): (r: Intervals)
    requires a.Itv? && b.Itv?
    ensures r.Itv? && Ordered(r)
    ensures Ordered(a) ==> (r.high == PlusInf <==> Lt(a.high, b.high) || a.high == PlusInf)
    ensures Ordered(a) ==> (r.low == MinusInf <==> Lt(b.low, a.low) || a.low == MinusInf)
    ensures Ordered(a) && r.high.Fin? ==> r.high == a.high
    ensures Ordered(a) && r.low.Fin? ==> r.low == a.low
  {
    var newHigh := if Lt(a.high, b.high) then PlusInf else a.high;
    var newLow := if Lt(b.low, a.low) then MinusInf else a.low;
    if newLow == MinusInf && newHigh == PlusInf then TopInterval else Make(newLow, newHigh)
  }

  /** Widening is an upper bound of both arguments, and widening again with
      the same argument changes nothing. */
  lemma WideningIsStableUpperBound(a: Intervals, b: Intervals)
    requires a.Itv? && b.Itv? && Ordered(a)
    ensures LessOrEqualAux(a, WideningAux(a, b)) && LessOrEqualAux(b, WideningAux(a, b))
    ensures WideningAux(WideningAux(a, b), b) == WideningAux(a, b)
  {
  }

  /** Each infinite bound of a is replaced by b's; the two bounds are then
      put in order. */
  function NarrowingAux(a: Intervals, b: Intervals): (r: Intervals)
    requires a.Itv? && b.Itv?
    ensures r.Itv? && Ordered(r)
    ensures {r.low, r.high} == {if IsInfinite(a.low) then b.low else a.low, if IsInfinite(a.high) then b.high else a.high}
  {
    var newHigh := if IsInfinite(a.high) then b.high else a.high;
    var newLow := if IsInfinite(a.low) then b.low else a.low;
    Make(newLow, newHigh)
  }

  /** Narrowing a well-formed a with a well-formed b below it refines a
      without dropping below b. */
  lemma NarrowingBetween(a: Intervals, b: Intervals)
    requires a.Itv? && b.Itv? && WellFormed(a) && WellFormed(b)
    requires LessOrEqualAux(b, a)
    ensures WellFormed(NarrowingAux(a, b))
    ensures LessOrEqualAux(b, NarrowingAux(a, b)) && LessOrEqualAux(NarrowingAux(a, b), a)
  {
  }
}
