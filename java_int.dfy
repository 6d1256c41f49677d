/** Java's 32-bit `int`: its range, the wrap-around of every arithmetic result,
    and integer division, which truncates toward zero. */
module JavaInt {

  const Modulus: int := 0x1_0000_0000
  const MinInt: int := -0x8000_0000
  const MaxInt: int := 0x7fff_ffff

  type Int32 = x: int | -0x8000_0000 <= x <= 0x7fff_ffff

  function Abs(x: int): (r: nat)
    ensures r == x || r == -x
  {
    if x < 0 then -x else x
  }

  /** Two's-complement wrap-around: the unique Int32 congruent to x modulo 2^32. */
  function Wrap(x: int): (r: Int32)
    ensures (x - r) % Modulus == 0
    ensures MinInt <= x <= MaxInt ==> r == x
  {
    (x - MinInt) % Modulus + MinInt
  }

  /** Wrapping never changes whether a number is even. */
  lemma WrapKeepsParity(x: int)
    ensures Wrap(x) % 2 == x % 2
  {
    var k := (x - MinInt) / Modulus;
    assert x - MinInt == k * Modulus + (x - MinInt) % Modulus;
    assert Wrap(x) == x - k * Modulus;
    assert k * Modulus == 2 * (k * 0x8000_0000);
  }

  /** Division truncating toward zero, as Java's `/` on int: the remainder
      a - q * b is smaller than b in magnitude and has the sign of a. */
  function TruncDiv(a: int, b: int): (q: int)
    requires b != 0
    ensures var rem := a - q * b; Abs(rem) < Abs(b) && (rem == 0 || (rem < 0 <==> a < 0))
  {
    var q0 := Abs(a) / Abs(b);
    EuclideanStep(Abs(a), Abs(b));
    SignedProduct(q0, b);
    if (a < 0) == (b < 0) then q0 else -q0
  }

  /** Division of naturals: the quotient and a remainder below the divisor. */
  lemma EuclideanStep(n: nat, d: nat)
    requires d > 0
    ensures n - (n / d) * d == n % d && 0 <= n % d < d
  {
  }

  /** The product of a quotient with a signed divisor. */
  lemma SignedProduct(q: int, b: int)
    ensures b < 0 ==> q * b == -(q * Abs(b)) && (-q) * b == q * Abs(b)
    ensures b >= 0 ==> q * b == q * Abs(b) && (-q) * b == -(q * Abs(b))
  {
  }

  function Neg(a: Int32): Int32 { Wrap(-(a as int)) }

  /** Negating twice gives back the number, MinInt (its own negation) included. */
  lemma NegInvolutive(x: Int32)
    ensures Neg(Neg(x)) == x
  {
    if x == MinInt {
      assert Neg(x) == MinInt;
    } else {
      assert Neg(x) == -x;
    }
  }
  function Add(a: Int32, b: Int32): Int32 { Wrap(a as int + b) }
  function Sub(a: Int32, b: Int32): Int32 { Wrap(a as int - b) }
  function Mul(a: Int32, b: Int32): Int32 { Wrap(a as int * b) }

  /** Java's `a / b`; the only overflow, MinInt / -1, wraps back to MinInt. */
  function Div(a: Int32, b: Int32): Int32
    requires b != 0
  {
    Wrap(TruncDiv(a, b))
  }
}
