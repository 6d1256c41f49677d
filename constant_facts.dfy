/** What the two constant-propagation elements (CPropSolution.java and
    CProp.java) share: a dataflow element pairs a variable with the Java
    int it definitely holds, and an evaluation ends with a known int, with
    no int (null), or with an ArithmeticException. A reference semantics
    over a concrete store states what "definitely holds" means. */
module ConstantFacts {
  import opened JavaInt
  import opened Expressions

  /** A dataflow element: variable id holds constant. */
  datatype Fact = Fact(id: Id, constant: Int32)

  /** The elements of a DefiniteDataflowDomain, in the order
      getDataflowElements() yields them. */
  type Domain = seq<Fact>

  datatype Outcome = Known(value: Int32) | Unknown | Thrown

  /** The constant of the first element about id in iteration order. */
  function FirstConstant(d: Domain, id: Id): (r: Option<Int32>)
    ensures r.None? <==> forall i :: 0 <= i < |d| ==> d[i].id != id
    ensures r.Some? ==> exists i :: 0 <= i < |d| && d[i] == Fact(id, r.value) &&
                                   forall j :: 0 <= j < i ==> d[j].id != id
  {
    if |d| == 0 then None
    else if d[0].id == id then Some(d[0].constant)
    else
      var r := FirstConstant(d[1..], id);
      if r.Some? then
        var i :| 0 <= i < |d[1..]| && d[1..][i] == Fact(id, r.value) && forall j :: 0 <= j < i ==> d[1..][j].id != id;
        assert d[i + 1] == Fact(id, r.value);
        assert forall j :: 0 <= j < i + 1 ==> d[j].id != id by {
          forall j | 0 <= j < i + 1 ensures d[j].id != id {
            if j > 0 { assert d[j] == d[1..][j - 1]; }
          }
        }
        r
      else
        assert forall i :: 0 <= i < |d| ==> d[i].id != id by {
          forall i | 0 <= i < |d| ensures d[i].id != id {
            if i > 0 { assert d[i] == d[1..][i - 1]; }
          }
        }
        r
  }

  /** A concrete store of int variables. */
  type Store = map<Id, Int32>

  /** The store agrees with an element. */
  predicate Holds(s: Store, f: Fact)
  {
    f.id in s && s[f.id] == f.constant
  }

  /** The store agrees with every element of the domain. */
  predicate Consistent(s: Store, d: Domain)
  {
    forall f :: f in d ==> Holds(s, f)
  }

  /** Reading a variable through the domain gives its value in every
      consistent store. */
  lemma FirstConstantSound(d: Domain, s: Store, id: Id)
    requires Consistent(s, d)
    ensures FirstConstant(d, id).Some? ==> id in s && s[id] == FirstConstant(d, id).value
  {
    if FirstConstant(d, id).Some? {
      var i :| 0 <= i < |d| && d[i] == Fact(id, FirstConstant(d, id).value);
      assert d[i] in d;
    }
  }

  /** Java's evaluation of an expression in a concrete store: an int, no
      int (the expression is not an int expression, or reads a variable
      the store does not hold), or an ArithmeticException from a division
      by zero. */
  function Concrete(e: Expr, s: Store): Outcome
  {
    match e
    case Const(c) => if c.NonNull? && c.value.IntValue? then Known(c.value.n) else Unknown
    case Var(id) => if id in s then Known(s[id]) else Unknown
    case Unary(op, arg) =>
      var a := Concrete(arg, s);
      if a.Known? then (if op == NumericNegation then Known(Neg(a.value)) else Unknown) else a
    case Binary(op, left, right) =>
      var l := Concrete(left, s);
      var r := Concrete(right, s);
      if l.Thrown? || r.Thrown? then Thrown
      else if l.Unknown? || r.Unknown? then Unknown
      else if IsArithmetic(op) then Known(ApplyArithmetic(op, l.value, r.value))
      else if op == Division then (if r.value == 0 then Thrown else Known(Div(l.value, r.value)))
      else Unknown
    case Ternary(left, middle, right) =>
      if Concrete(left, s).Thrown? || Concrete(middle, s).Thrown? || Concrete(right, s).Thrown? then Thrown
      else Unknown
    case Skip => Unknown
    case PushAny => Unknown
  }

  /** The outcome of gen(id, e): the elements generated, or the exception
      the evaluation raised. */
  datatype Generated = Facts(facts: set<Fact>) | Raised

  /** gen(e) and kill(e) of a statement that assigns nothing: no element. */
  function NonAssigning(e: Expr, d: Domain): set<Fact>
  {
    {}
  }

  /** A statement that assigns nothing leaves the store alone, and its
      transfer (elements minus kill, plus gen) keeps exactly the elements
      there were, so a consistent domain stays consistent. */
  lemma NonAssigningKeepsConsistency(d: Domain, s: Store, e: Expr, f: Fact)
    requires Consistent(s, d)
    ensures ((f in d && f !in NonAssigning(e, d)) || f in NonAssigning(e, d)) <==> f in d
    ensures (f in d && f !in NonAssigning(e, d)) || f in NonAssigning(e, d) ==> Holds(s, f)
  {
  }

  /** kill(id, e): a loop over the elements of the domain collecting those
      about id. */
  method Kill(id: Id, e: Expr, d: Domain) returns (result: set<Fact>)
    ensures forall f :: f in result <==> f in d && f.id == id
  {
    result := {};
    var i := 0;
    while i < |d|
      invariant 0 <= i <= |d|
      invariant forall f :: f in result <==> f in d[..i] && f.id == id
    {
      if d[i].id == id {
        result := result + {d[i]};
      }
      assert d[..i + 1] == d[..i] + [d[i]];
      i := i + 1;
    }
    assert d[..i] == d;
  }

  /** The definite-dataflow assignment (elements minus kill, plus gen) of
      a value v to x is consistent with the store updated at x, whatever
      the generated elements are, as long as they all hold in it. */
  lemma AssignKeepsConsistency(d: Domain, s: Store, x: Id, v: Int32, killed: set<Fact>, generated: set<Fact>, f: Fact)
    requires Consistent(s, d)
    requires forall g :: g in killed <==> g in d && g.id == x
    requires forall g :: g in generated ==> g == Fact(x, v)
    requires (f in d && f !in killed) || f in generated
    ensures Holds(s[x := v], f)
  {
    if f in generated {
    } else {
      assert Holds(s, f) && f.id != x;
    }
  }
}
