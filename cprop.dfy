/** Constant propagation as a definite dataflow analysis (CProp.java).
    It differs from CPropSolution only in how it guards division. */
module CProp {
  import opened JavaInt
  import opened Expressions
  import opened ConstantFacts
  import CPropSolution

  /** evaluation: as CPropSolution.eval, except that a division whose
      dividend is 0 yields no value, and any other division applies Java's
      `/`, which throws on a zero divisor. */
  function Evaluation(e: Expr, d: Domain): Outcome
  {
    match e
    case Const(c) => if c.NonNull? && c.value.IntValue? then Known(c.value.n) else Unknown
    case Var(id) =>
      var v := FirstConstant(d, id);
      if v.Some? then Known(v.value) else Unknown
    case Unary(op, arg) =>
      var a := Evaluation(arg, d);
      if a.Known? then (if op == NumericNegation then Known(Neg(a.value)) else Unknown) else a
    case Binary(op, left, right) =>
      var r := Evaluation(right, d);
      var l := Evaluation(left, d);
      if r.Thrown? || l.Thrown? then Thrown
      else if r.Unknown? || l.Unknown? then Unknown
      else if op == Addition then Known(Add(l.value, r.value))
      else if op == Division then
        (if l.value == 0 then Unknown else if r.value == 0 then Thrown else Known(Div(l.value, r.value)))
      else if op == Multiplication then Known(Mul(l.value, r.value))
      else if op == Subtraction then Known(Sub(l.value, r.value))
      else Unknown
    case Ternary(_, _, _) => Unknown
    case Skip => Unknown
    case PushAny => Unknown
  }

  /** Soundness, as for CPropSolution: a known value is the value Java
      computes in every consistent store, and a thrown exception is
      thrown by Java too. */
  lemma {:induction false} EvaluationSound(e: Expr, d: Domain, s: Store)
    requires Consistent(s, d)
    ensures Evaluation(e, d).Known? ==> Concrete(e, s) == Evaluation(e, d)
    ensures Evaluation(e, d).Thrown? ==> Concrete(e, s).Thrown?
  {
    match e
    case Const(_) =>
    case Var(id) => FirstConstantSound(d, s, id);
    case Unary(_, arg) => EvaluationSound(arg, d, s);
    case Binary(_, left, right) =>
      EvaluationSound(left, d, s);
      EvaluationSound(right, d, s);
    case Ternary(_, _, _) =>
    case Skip =>
    case PushAny =>
  }

  /** Whenever this evaluation reaches an outcome other than "no value",
      CPropSolution.eval reaches the same one; the two differ only where
      this one gives up on a zero dividend. */
  lemma {:induction false} AgreesWithSolution(e: Expr, d: Domain)
    ensures !Evaluation(e, d).Unknown? ==> CPropSolution.Eval(e, d) == Evaluation(e, d)
  {
    match e
    case Const(_) =>
    case Var(_) =>
    case Unary(_, arg) => AgreesWithSolution(arg, d);
    case Binary(_, left, right) =>
      AgreesWithSolution(left, d);
      AgreesWithSolution(right, d);
    case Ternary(_, _, _) =>
    case Skip =>
    case PushAny =>
  }

  /** As written, the guard tests the dividend: 5 / 0 throws, while
      0 / 5, which Java evaluates to 0, gets no value. */
  lemma DivisionGuardTestsDividend(d: Domain)
    ensures Evaluation(Binary(Division, Const(NonNull(IntValue(5))), Const(NonNull(IntValue(0)))), d) == Thrown
    ensures Evaluation(Binary(Division, Const(NonNull(IntValue(0))), Const(NonNull(IntValue(5)))), d) == Unknown
    ensures Concrete(Binary(Division, Const(NonNull(IntValue(0))), Const(NonNull(IntValue(5)))), map[]) == Known(0)
  {
    assert Div(0, 5) == 0;
  }

  /** The evaluation with the guard on the divisor, as evidently intended. */
  function IntendedEvaluation(e: Expr, d: Domain): Outcome
  {
    match e
    case Const(c) => if c.NonNull? && c.value.IntValue? then Known(c.value.n) else Unknown
    case Var(id) =>
      var v := FirstConstant(d, id);
      if v.Some? then Known(v.value) else Unknown
    case Unary(op, arg) =>
      var a := IntendedEvaluation(arg, d);
      if a.Known? then (if op == NumericNegation then Known(Neg(a.value)) else Unknown) else a
    case Binary(op, left, right) =>
      var r := IntendedEvaluation(right, d);
      var l := IntendedEvaluation(left, d);
      if r.Thrown? || l.Thrown? then Thrown
      else if r.Unknown? || l.Unknown? then Unknown
      else if op == Addition then Known(Add(l.value, r.value))
      else if op == Division then (if r.value == 0 then Unknown else Known(Div(l.value, r.value)))
      else if op == Multiplication then Known(Mul(l.value, r.value))
      else if op == Subtraction then Known(Sub(l.value, r.value))
      else Unknown
    case Ternary(_, _, _) => Unknown
    case Skip => Unknown
    case PushAny => Unknown
  }

  /** With the intended guard the analysis never throws, every known
      value is the value Java computes, and it agrees with the as-written
      evaluation wherever that one neither throws nor gives up. */
  lemma {:induction false} IntendedEvaluationSound(e: Expr, d: Domain, s: Store)
    requires Consistent(s, d)
    ensures !IntendedEvaluation(e, d).Thrown?
    ensures IntendedEvaluation(e, d).Known? ==> Concrete(e, s) == IntendedEvaluation(e, d)
    ensures Evaluation(e, d).Known? ==> IntendedEvaluation(e, d) == Evaluation(e, d)
  {
    match e
    case Const(_) =>
    case Var(id) => FirstConstantSound(d, s, id);
    case Unary(_, arg) => IntendedEvaluationSound(arg, d, s);
    case Binary(_, left, right) =>
      IntendedEvaluationSound(left, d, s);
      IntendedEvaluationSound(right, d, s);
    case Ternary(_, _, _) =>
    case Skip =>
    case PushAny =>
  }

  /** gen(id, e): the element (id, v) iff e evaluates to v; an exception
      of the evaluation propagates. */
  function Gen(id: Id, e: Expr, d: Domain): (r: Generated)
    ensures r.Raised? <==> Evaluation(e, d).Thrown?
    ensures r.Facts? ==> forall f :: f in r.facts <==> f.id == id && Evaluation(e, d) == Known(f.constant)
  {
    var x := Evaluation(e, d);
    if x.Thrown? then Raised
    else if x.Known? then Facts({Fact(id, x.value)})
    else Facts({})
  }

  /** The assignment x := e (kill, then gen) leaves every remaining
      element true in the store after the assignment. */
  lemma AssignSound(d: Domain, s: Store, x: Id, e: Expr, v: Int32, killed: set<Fact>, f: Fact)
    requires Consistent(s, d)
    requires Concrete(e, s) == Known(v)
    requires forall g :: g in killed <==> g in d && g.id == x
    requires Gen(x, e, d).Facts?
    requires (f in d && f !in killed) || f in Gen(x, e, d).facts
    ensures Holds(s[x := v], f)
  {
    EvaluationSound(e, d, s);
    AssignKeepsConsistency(d, s, x, v, killed, Gen(x, e, d).facts, f);
  }
}
