/** The four parity elements shared by the two parity domains, what each
    element stands for, and the arithmetic facts their soundness rests on. */
module ParityValues {
  import opened JavaInt
  import opened Expressions

  datatype Parity = Top | Bottom | Even | Odd

  predicate IsTop(p: Parity) { p == Top }
  predicate IsBottom(p: Parity) { p == Bottom }

  /** Concretisation: does the element describe the integer x? */
  predicate Describes(p: Parity, x: int)
  {
    match p
    case Top => true
    case Bottom => false
    case Even => x % 2 == 0
    case Odd => x % 2 == 1
  }

  /** The parity that describes exactly the integers congruent to x. */
  function ParityOf(x: int): (p: Parity)
    ensures Describes(p, x) && p != Top
  {
    if x % 2 == 0 then Even else Odd
  }

  lemma ProductParity(x: int, y: int)
    ensures (x * y) % 2 == 0 <==> (x % 2 == 0 || y % 2 == 0)
  {
    var a, b := x / 2, y / 2;
    if x % 2 == 0 {
      assert x == 2 * a;
      DoubleTimes(a, y);
    } else if y % 2 == 0 {
      assert y == 2 * b;
      DoubleTimes(b, x);
    } else {
      assert x == 2 * a + 1 && y == 2 * b + 1;
      OddTimesOdd(a, b);
    }
  }

  lemma DoubleTimes(a: int, y: int)
    ensures (2 * a) * y == 2 * (a * y) && y * (2 * a) == 2 * (a * y)
  {
  }

  lemma OddTimesOdd(a: int, b: int)
    ensures (2 * a + 1) * (2 * b + 1) == 2 * (2 * a * b + a + b) + 1
  {
  }

  /** Under Java's wrapping arithmetic, a sum or difference is even exactly when
      both operands have the same parity, a product exactly when one is even,
      and negation keeps the parity. */
  lemma ArithmeticParity(op: BinaryOperator, x: Int32, y: Int32)
    requires IsArithmetic(op)
    ensures op != Multiplication ==> (ApplyArithmetic(op, x, y) % 2 == 0 <==> x % 2 == y % 2)
    ensures op == Multiplication ==> (ApplyArithmetic(op, x, y) % 2 == 0 <==> (x % 2 == 0 || y % 2 == 0))
  {
    match op
    case Addition => SumParity(x, y);
    case Subtraction => DifferenceParity(x, y);
    case Multiplication => MulParity(x, y);
  }

  lemma SumParity(x: Int32, y: Int32)
    ensures Add(x, y) % 2 == 0 <==> x % 2 == y % 2
  {
    WrapKeepsParity(x as int + y);
  }

  lemma DifferenceParity(x: Int32, y: Int32)
    ensures Sub(x, y) % 2 == 0 <==> x % 2 == y % 2
  {
    WrapKeepsParity(x as int - y);
  }

  lemma MulParity(x: Int32, y: Int32)
    ensures Mul(x, y) % 2 == 0 <==> (x % 2 == 0 || y % 2 == 0)
  {
    var m := x as int * y;
    WrapKeepsParity(m);
    ProductParity(x, y);
  }

  lemma NegationParity(x: Int32)
    ensures Neg(x) % 2 == x % 2
  {
    WrapKeepsParity(-(x as int));
  }

  /** evalUnaryExpression, written identically in both parity domains:
      numeric negation keeps the argument, any other operator gives TOP. */
  function EvalUnaryExpression(op: UnaryOperator, arg: Parity): (r: Parity)
    ensures op == NumericNegation ==> r == arg
    ensures op != NumericNegation ==> r == Top
    ensures forall x: Int32 :: Describes(arg, x) ==> Describes(r, if op == NumericNegation then Neg(x) else x)
  {
    if op == NumericNegation then
      assert forall x: Int32 :: Neg(x) % 2 == x % 2 by {
        forall x: Int32 { NegationParity(x); }
      }
      arg
    else Top
  }

  /** For negation the result is exact: it describes a 32-bit y exactly
      when y is the negation of some value the argument describes. So no
      parity describing all those negations lies strictly below it. */
  lemma NegationIsExact(arg: Parity, y: Int32)
    ensures Describes(EvalUnaryExpression(NumericNegation, arg), y) <==>
      exists x: Int32 :: Describes(arg, x) && Neg(x) == y
  {
    if Describes(arg, y) {
      NegInvolutive(y);
      NegationParity(y);
      assert Describes(arg, Neg(y)) && Neg(Neg(y)) == y;
    }
    if exists x: Int32 :: Describes(arg, x) && Neg(x) == y {
      var x: Int32 :| Describes(arg, x) && Neg(x) == y;
      NegationParity(x);
    }
  }
}
