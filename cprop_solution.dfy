/** Constant propagation as a definite dataflow analysis (CPropSolution.java). */
module CPropSolution {
  import opened JavaInt
  import opened Expressions
  import opened ConstantFacts

  /** getValueOf: the constant of the first element about id, searching
      the elements in iteration order. */
  method GetValueOf(id: Id, d: Domain) returns (r: Option<Int32>)
    ensures r == FirstConstant(d, id)
    ensures r.Some? ==> Fact(id, r.value) in d
  {
    var i := 0;
    while i < |d|
      invariant 0 <= i <= |d|
      invariant forall j :: 0 <= j < i ==> d[j].id != id
    {
      if d[i].id == id {
        assert d[i] in d;
        return Some(d[i].constant);
      }
      i := i + 1;
    }
    return None;
  }

  /** eval: an int constant is itself, a variable is read through the
      domain, negation negates a known value, and +, -, * and / apply Java
      int arithmetic to two known values; / by zero throws. Everything
      else has no int value. */
  function Eval(e: Expr, d: Domain): Outcome
  {
    match e
    case Const(c) => if c.NonNull? && c.value.IntValue? then Known(c.value.n) else Unknown
    case Var(id) =>
      var v := FirstConstant(d, id);
      if v.Some? then Known(v.value) else Unknown
    case Unary(op, arg) =>
      var a := Eval(arg, d);
      if a.Known? then (if op == NumericNegation then Known(Neg(a.value)) else Unknown) else a
    case Binary(op, left, right) =>
      var l := Eval(left, d);
      var r := Eval(right, d);
      if l.Thrown? || r.Thrown? then Thrown
      else if l.Unknown? || r.Unknown? then Unknown
      else if IsArithmetic(op) then Known(ApplyArithmetic(op, l.value, r.value))
      else if op == Division then (if r.value == 0 then Thrown else Known(Div(l.value, r.value)))
      else Unknown
    case Ternary(_, _, _) => Unknown
    case Skip => Unknown
    case PushAny => Unknown
  }

  /** Soundness: in every store consistent with the domain, a known value
      is the value Java computes, and a thrown exception is thrown by
      Java too. */
  lemma {:induction false} EvalSound(e: Expr, d: Domain, s: Store)
    requires Consistent(s, d)
    ensures Eval(e, d).Known? ==> Concrete(e, s) == Eval(e, d)
    ensures Eval(e, d).Thrown? ==> Concrete(e, s).Thrown?
  {
    match e
    case Const(_) =>
    case Var(id) => FirstConstantSound(d, s, id);
    case Unary(_, arg) => EvalSound(arg, d, s);
    case Binary(_, left, right) =>
      EvalSound(left, d, s);
      EvalSound(right, d, s);
    case Ternary(_, _, _) =>
    case Skip =>
    case PushAny =>
  }

  /** The source's own cases, read off the evaluation: unknown operands
      make a binary expression unknown, and a known zero divisor throws. */
  lemma BinaryCases(op: BinaryOperator, left: Expr, right: Expr, d: Domain)
    ensures !Eval(left, d).Thrown? && !Eval(right, d).Thrown? && (Eval(left, d).Unknown? || Eval(right, d).Unknown?) ==>
              Eval(Binary(op, left, right), d).Unknown?
    ensures Eval(left, d).Known? && Eval(right, d) == Known(0) && op == Division ==>
              Eval(Binary(op, left, right), d).Thrown?
    ensures Eval(Binary(op, left, right), d).Known? ==> op == Division || IsArithmetic(op)
  {
  }

  /** gen(id, e): the element (id, v) when e evaluates to v, none when it
      has no int value; an exception of the evaluation propagates. */
  function Gen(id: Id, e: Expr, d: Domain): (r: Generated)
    ensures r.Raised? <==> Eval(e, d).Thrown?
    ensures r.Facts? ==> forall f :: f in r.facts <==> f.id == id && Eval(e, d) == Known(f.constant)
  {
    var v := Eval(e, d);
    if v.Thrown? then Raised
    else if v.Known? then Facts({Fact(id, v.value)})
    else Facts({})
  }

  /** The assignment x := e, as the definite dataflow domain performs it
      (kill, then gen), leaves every remaining element true in the store
      after the assignment. */
  lemma AssignSound(d: Domain, s: Store, x: Id, e: Expr, v: Int32, killed: set<Fact>, f: Fact)
    requires Consistent(s, d)
    requires Concrete(e, s) == Known(v)
    requires forall g :: g in killed <==> g in d && g.id == x
    requires Gen(x, e, d).Facts?
    requires (f in d && f !in killed) || f in Gen(x, e, d).facts
    ensures Holds(s[x := v], f)
  {
    EvalSound(e, d, s);
    AssignKeepsConsistency(d, s, x, v, killed, Gen(x, e, d).facts, f);
  }
}
