/** Available expressions as a definite dataflow analysis
    (AvailableExpressions.java). An element tracks one expression; here it
    is identified with that expression. */
module AvailableExpressions {
  import opened Expressions
  import ConstantFacts
  import JavaInt

  /** getVariablesIn (and getInvolvedIdentifiers): the identifiers of an
      expression, collected through its unary, binary and ternary nodes. */
  function Vars(e: Expr): set<Id>
  {
    match e
    case Var(id) => {id}
    case Unary(_, arg) => Vars(arg)
    case Binary(_, left, right) => Vars(left) + Vars(right)
    case Ternary(left, middle, right) => Vars(left) + Vars(middle) + Vars(right)
    case Const(_) => {}
    case Skip => {}
    case PushAny => {}
  }

  /** The subexpression reached by following a path of child positions. */
  function At(e: Expr, path: seq<nat>): Option<Expr>
    decreases |path|
  {
    if |path| == 0 then Some(e)
    else match e
      case Unary(_, arg) => if path[0] == 0 then At(arg, path[1..]) else None
      case Binary(_, left, right) =>
        if path[0] == 0 then At(left, path[1..])
        else if path[0] == 1 then At(right, path[1..])
        else None
      case Ternary(left, middle, right) =>
        if path[0] == 0 then At(left, path[1..])
        else if path[0] == 1 then At(middle, path[1..])
        else if path[0] == 2 then At(right, path[1..])
        else None
      case _ => None
  }

  /** Every identifier collected occurs at some position of the expression. */
  lemma {:induction false} VarsOccur(e: Expr, x: Id)
    ensures x in Vars(e) ==> exists path :: At(e, path) == Some(Var(x))
  {
    if x in Vars(e) {
      match e
      case Var(_) => assert At(e, []) == Some(Var(x));
      case Unary(_, arg) =>
        VarsOccur(arg, x);
        var p :| At(arg, p) == Some(Var(x));
        assert ([0] + p)[1..] == p;
        assert At(e, [0] + p) == Some(Var(x));
      case Binary(_, left, right) =>
        if x in Vars(left) {
          VarsOccur(left, x);
          var p :| At(left, p) == Some(Var(x));
          assert ([0] + p)[1..] == p;
          assert At(e, [0] + p) == Some(Var(x));
        } else {
          VarsOccur(right, x);
          var p :| At(right, p) == Some(Var(x));
          assert ([1] + p)[1..] == p;
          assert At(e, [1] + p) == Some(Var(x));
        }
      case Ternary(left, middle, right) =>
        if x in Vars(left) {
          VarsOccur(left, x);
          var p :| At(left, p) == Some(Var(x));
          assert ([0] + p)[1..] == p;
          assert At(e, [0] + p) == Some(Var(x));
        } else if x in Vars(middle) {
          VarsOccur(middle, x);
          var p :| At(middle, p) == Some(Var(x));
          assert ([1] + p)[1..] == p;
          assert At(e, [1] + p) == Some(Var(x));
        } else {
          VarsOccur(right, x);
          var p :| At(right, p) == Some(Var(x));
          assert ([2] + p)[1..] == p;
          assert At(e, [2] + p) == Some(Var(x));
        }
    }
  }

  /** Every identifier occurring in the expression is collected. */
  lemma {:induction false} OccurrencesAreVars(e: Expr, x: Id, path: seq<nat>)
    ensures At(e, path) == Some(Var(x)) ==> x in Vars(e)
    decreases |path|
  {
    if |path| > 0 && At(e, path) == Some(Var(x)) {
      match e
      case Unary(_, arg) => OccurrencesAreVars(arg, x, path[1..]);
      case Binary(_, left, right) =>
        OccurrencesAreVars(left, x, path[1..]);
        OccurrencesAreVars(right, x, path[1..]);
      case Ternary(left, middle, right) =>
        OccurrencesAreVars(left, x, path[1..]);
        OccurrencesAreVars(middle, x, path[1..]);
        OccurrencesAreVars(right, x, path[1..]);
    }
  }

  /** filter: identifiers, constants, Skip and PushAny are not worth tracking. */
  predicate Filter(e: Expr)
  {
    !(e.Var? || e.Const? || e.Skip? || e.PushAny?)
  }

  /** gen(id, e): e itself, when it is worth tracking and does not read
      the variable being assigned. */
  function Gen(id: Id, e: Expr): (r: set<Expr>)
    ensures forall a :: a in r <==> a == e && Filter(e) && forall p :: At(e, p) != Some(Var(id))
  {
    VarsOccur(e, id);
    forall p ensures At(e, p) == Some(Var(id)) ==> id in Vars(e) {
      OccurrencesAreVars(e, id, p);
    }
    if id !in Vars(e) && Filter(e) then {e} else {}
  }

  /** gen(e) of a statement that assigns nothing: e, when it is worth
      tracking. */
  function GenExpression(e: Expr): set<Expr>
  {
    if Filter(e) then {e} else {}
  }

  /** kill(id, e): a loop over the tracked expressions collecting those
      that read id. */
  method Kill(id: Id, e: Expr, d: seq<Expr>) returns (result: set<Expr>)
    ensures forall a :: a in result <==> a in d && id in Vars(a)
  {
    result := {};
    var i := 0;
    while i < |d|
      invariant 0 <= i <= |d|
      invariant forall a :: a in result <==> a in d[..i] && id in Vars(a)
    {
      var ids := Vars(d[i]);
      if id in ids {
        result := result + {d[i]};
      }
      assert d[..i + 1] == d[..i] + [d[i]];
      i := i + 1;
    }
    assert d[..i] == d;
  }

  /** kill(e) of a statement that assigns nothing: no element. */
  function KillExpression(e: Expr): set<Expr>
  {
    {}
  }

  /** The transfer of a statement that assigns nothing (kill, then gen):
      every available expression survives, and e joins them exactly when
      it is not an identifier, a constant, Skip or PushAny. */
  lemma NonAssigningTransfer(d: seq<Expr>, e: Expr, a: Expr)
    ensures ((a in d && a !in KillExpression(e)) || a in GenExpression(e)) <==>
      a in d || (a == e && !(e.Var? || e.Const? || e.Skip? || e.PushAny?))
  {
  }

  /** After x := e (kill, then gen) no available expression reads x. */
  lemma AssignForgetsRedefined(d: seq<Expr>, x: Id, e: Expr, killed: set<Expr>, a: Expr)
    requires forall b :: b in killed <==> b in d && x in Vars(b)
    requires (a in d && a !in killed) || a in Gen(x, e)
    ensures x !in Vars(a)
  {
    if a in Gen(x, e) {
      VarsOccur(e, x);
    }
  }

  /** What makes that right: an expression that does not read x has the
      same Java value before and after x is assigned. */
  lemma {:induction false} UnreadVariableIsIrrelevant(e: Expr, s: ConstantFacts.Store, x: Id, v: JavaInt.Int32)
    requires x !in Vars(e)
    ensures ConstantFacts.Concrete(e, s[x := v]) == ConstantFacts.Concrete(e, s)
  {
    match e
    case Const(_) =>
    case Var(_) =>
    case Unary(_, arg) => UnreadVariableIsIrrelevant(arg, s, x, v);
    case Binary(_, left, right) =>
      UnreadVariableIsIrrelevant(left, s, x, v);
      UnreadVariableIsIrrelevant(right, s, x, v);
    case Ternary(left, middle, right) =>
      UnreadVariableIsIrrelevant(left, s, x, v);
      UnreadVariableIsIrrelevant(middle, s, x, v);
      UnreadVariableIsIrrelevant(right, s, x, v);
    case Skip =>
    case PushAny =>
  }
}
