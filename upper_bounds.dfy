/** The upper-bounds domain (UpperBounds.java): for a variable x, a set of
    variables known to be strictly greater than x. More bounds is more
    information, so the order is reversed inclusion; TOP carries no set,
    and the empty set is the bottom element. */
module UpperBounds {
  import opened Expressions
  import Environments

  datatype UpperBounds = Top | Bounds(ids: set<Id>)

  const BottomElement: UpperBounds := Bounds({})

  predicate IsTop(u: UpperBounds) { u.Top? }

  predicate IsBottom(u: UpperBounds) { u.Bounds? && u.ids == {} }

  lemma TopIsNotBottom()
    ensures !IsBottom(Top) && IsTop(Top)
    ensures IsBottom(BottomElement) && !IsTop(BottomElement)
  {
  }

  /** The identifiers an iteration over the element visits. */
  function Elements(u: UpperBounds): set<Id>
  {
    if u.Top? then {} else u.ids
  }

  predicate Contains(u: UpperBounds, id: Id)
  {
    u.Bounds? && id in u.ids
  }

  function GlbAux(a: UpperBounds, b: UpperBounds): (r: UpperBounds)
    requires a.Bounds? && b.Bounds?
    ensures forall id :: Contains(r, id) <==> Contains(a, id) || Contains(b, id)
  {
    Bounds(a.ids + b.ids)
  }

  function LubAux(a: UpperBounds, b: UpperBounds): (r: UpperBounds)
    requires a.Bounds? && b.Bounds?
    ensures forall id :: Contains(r, id) <==> Contains(a, id) && Contains(b, id)
  {
    Bounds(a.ids * b.ids)
  }

  predicate LessOrEqualAux(a: UpperBounds, b: UpperBounds)
    requires a.Bounds? && b.Bounds?
  {
    a.ids >= b.ids
  }

  /** glbAux and lubAux are the greatest lower and least upper bound for
      the reversed-inclusion order. */
  lemma AuxLatticeLaws(a: UpperBounds, b: UpperBounds, c: UpperBounds)
    requires a.Bounds? && b.Bounds? && c.Bounds?
    ensures LessOrEqualAux(a, LubAux(a, b)) && LessOrEqualAux(b, LubAux(a, b))
    ensures LessOrEqualAux(a, c) && LessOrEqualAux(b, c) ==> LessOrEqualAux(LubAux(a, b), c)
    ensures LessOrEqualAux(GlbAux(a, b), a) && LessOrEqualAux(GlbAux(a, b), b)
    ensures LessOrEqualAux(c, a) && LessOrEqualAux(c, b) ==> LessOrEqualAux(c, GlbAux(a, b))
  {
  }

  /** BaseLattice.glb around glbAux (assumed, as LiSA implements it). */
  function Glb(a: UpperBounds, b: UpperBounds): UpperBounds
  {
    if IsBottom(a) || IsTop(b) || a == b then a
    else if IsBottom(b) || IsTop(a) then b
    else GlbAux(a, b)
  }

  /** With the wrapper, glb is the union of two proper bound sets, and
      bottom (the empty set) absorbs everything. */
  lemma GlbIsUnion(a: UpperBounds, b: UpperBounds, id: Id)
    ensures !IsBottom(a) && !IsBottom(b) ==>
      (Contains(Glb(a, b), id) <==> Contains(a, id) || Contains(b, id))
    ensures IsBottom(a) || IsBottom(b) ==> IsBottom(Glb(a, b))
  {
  }

  function WideningAux(a: UpperBounds, b: UpperBounds): (r: UpperBounds)
    requires a.Bounds? && b.Bounds?
    ensures r == b || r == Top
    ensures r == b <==> b.ids >= a.ids
  {
    if b.ids >= a.ids then b else Top
  }

  /** When the second argument is strictly above the first, as in an
      ascending fixpoint iteration, widening goes straight to TOP. */
  lemma WideningOnAscent(a: UpperBounds, b: UpperBounds)
    requires a.Bounds? && b.Bounds?
    requires LessOrEqualAux(a, b) && a != b
    ensures WideningAux(a, b) == Top
  {
    assert exists id :: id in a.ids && id !in b.ids;
  }

  /** Top contains nothing. */
  lemma TopContainsNothing(id: Id)
    ensures !Contains(Top, id)
  {
  }

  function Add(u: UpperBounds, id: Id): (r: UpperBounds)
    ensures !IsTop(r) && !IsBottom(r) && Contains(r, id)
    ensures forall other :: other != id ==> (Contains(r, other) <==> Contains(u, other))
    ensures IsTop(u) || IsBottom(u) ==> r == Bounds({id})
  {
    var res := if !IsTop(u) && !IsBottom(u) then u.ids else {};
    Bounds(res + {id})
  }

  /** add(id) is glb with {id}, except on bottom, where glb stays bottom
      and add starts afresh from {id}. */
  lemma AddIsGlbWithSingleton(u: UpperBounds, id: Id)
    ensures !IsBottom(u) ==> Add(u, id) == Glb(u, Bounds({id}))
    ensures IsBottom(u) ==> Glb(u, Bounds({id})) == BottomElement && Add(u, id) == Bounds({id})
  {
  }

  type Env = Environments.Env<UpperBounds>

  function BoundsOf(env: Env, id: Id): UpperBounds
  {
    Environments.Get(env, id, Top, BottomElement)
  }

  /** x < y: x's new bounds are bottom exactly when x's or y's old bounds
      were; otherwise they are y together with every old bound of x and of
      y, and nothing else. */
  ghost predicate Strengthened(env: Env, r: Env, x: Id, y: Id)
  {
    (IsBottom(BoundsOf(r, x)) <==> IsBottom(BoundsOf(env, x)) || IsBottom(BoundsOf(env, y))) &&
    (!IsBottom(BoundsOf(r, x)) ==>
      forall b :: Contains(BoundsOf(r, x), b) <==> b == y || Contains(BoundsOf(env, x), b) || Contains(BoundsOf(env, y), b))
  }

  /** Every variable except those named keeps its bounds. */
  ghost predicate OthersUnchanged(env: Env, r: Env, x: Id, y: Id)
  {
    forall id :: id != x && id != y ==> BoundsOf(r, id) == BoundsOf(env, id)
  }

  function AssumeBinaryExpression(env: Env, op: BinaryOperator, left: Expr, right: Expr): (r: Env)
    ensures !(left.Var? && right.Var?) ==> r == env
    ensures left.Var? && right.Var? && op == ComparisonLt ==>
      Strengthened(env, r, left.id, right.id) && (env.EnvBottom? || OthersUnchanged(env, r, left.id, left.id))
    ensures left.Var? && right.Var? && op == ComparisonGt ==>
      Strengthened(env, r, right.id, left.id) && (env.EnvBottom? || OthersUnchanged(env, r, right.id, right.id))
    ensures left.Var? && right.Var? && op == ComparisonEq ==>
      BoundsOf(r, left.id) == BoundsOf(r, right.id) == Glb(BoundsOf(env, left.id), BoundsOf(env, right.id)) &&
      (env.EnvBottom? || OthersUnchanged(env, r, left.id, right.id))
    ensures left.Var? && right.Var? && op == ComparisonLe ==>
      BoundsOf(r, left.id) == Glb(BoundsOf(env, left.id), BoundsOf(env, right.id)) &&
      (env.EnvBottom? || OthersUnchanged(env, r, left.id, left.id))
    ensures left.Var? && right.Var? && op == ComparisonGe ==>
      BoundsOf(r, right.id) == Glb(BoundsOf(env, right.id), BoundsOf(env, left.id)) &&
      (env.EnvBottom? || OthersUnchanged(env, r, right.id, right.id))
    ensures op !in {ComparisonLt, ComparisonGt, ComparisonEq, ComparisonLe, ComparisonGe} ==> r == env
  {
    if !(left.Var? && right.Var?) then env
    else
      var x, y := left.id, right.id;
      if op == ComparisonLt then
        var s := Glb(Glb(BoundsOf(env, x), BoundsOf(env, y)), Bounds({y}));
        GlbIsUnion(Glb(BoundsOf(env, x), BoundsOf(env, y)), Bounds({y}), y);
        StrengthenedByGlb(env, x, y);
        Environments.Put(env, x, s)
      else if op == ComparisonEq then
        var s := Glb(BoundsOf(env, x), BoundsOf(env, y));
        Environments.Put(Environments.Put(env, x, s), y, s)
      else if op == ComparisonGt then
        var s := Glb(Glb(BoundsOf(env, y), BoundsOf(env, x)), Bounds({x}));
        StrengthenedByGlb(env, y, x);
        Environments.Put(env, y, s)
      else if op == ComparisonLe then
        Environments.Put(env, x, Glb(BoundsOf(env, x), BoundsOf(env, y)))
      else if op == ComparisonGe then
        Environments.Put(env, y, Glb(BoundsOf(env, y), BoundsOf(env, x)))
      else env
  }

  lemma StrengthenedByGlb(env: Env, x: Id, y: Id)
    ensures Strengthened(env, Environments.Put(env, x, Glb(Glb(BoundsOf(env, x), BoundsOf(env, y)), Bounds({y}))), x, y)
  {
    var ux, uy := BoundsOf(env, x), BoundsOf(env, y);
    var g := Glb(ux, uy);
    var s := Glb(g, Bounds({y}));
    var r := Environments.Put(env, x, s);
    Environments.GetPut(env, x, s, x, Top, BottomElement);
    assert BoundsOf(r, x) == s;
    GlbIsUnion(ux, uy, y);
    GlbIsUnion(g, Bounds({y}), y);
    if !IsBottom(ux) && !IsBottom(uy) {
      assert !IsBottom(g) by {
        if !ux.Top? {
          assert exists b :: b in ux.ids;
          var b :| b in ux.ids;
          GlbIsUnion(ux, uy, b);
        }
      }
      forall b
        ensures Contains(s, b) <==> b == y || Contains(ux, b) || Contains(uy, b)
      {
        GlbIsUnion(ux, uy, b);
        GlbIsUnion(g, Bounds({y}), b);
      }
    }
  }
}
