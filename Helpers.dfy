/**
 * The integer helpers registered with every CSS template (`add`, `multiply`,
 * `subtract`). They work on Go's `int`, taken here as 64 bits wide, so every
 * result wraps around in two's complement.
 */
module Helpers {

  const Modulus: int := 0x1_0000_0000_0000_0000
  const MinInt: int := -0x8000_0000_0000_0000
  const MaxInt: int := 0x7FFF_FFFF_FFFF_FFFF

  /** A value of Go's 64-bit `int`. */
  type Int = x: int | MinInt <= x <= MaxInt

  /** Two's complement wrap-around: the one Int congruent to x modulo 2^64. */
  function Wrap(x: int): (r: Int)
    ensures (r - x) % Modulus == 0
  {
    (x - MinInt) % Modulus + MinInt
  }

  /** Two Ints congruent modulo 2^64 are equal, so Wrap is determined by its contract. */
  lemma WrapUnique(x: int, y: Int)
    requires (y - x) % Modulus == 0
    ensures Wrap(x) == y
  {
    var w := Wrap(x);
    assert (w - y) % Modulus == 0 by {
      assert w - y == (w - x) - (y - x);
    }
    assert -Modulus < w - y < Modulus;
  }

  /** Wrap leaves every value that fits in an Int unchanged. */
  lemma WrapInRange(x: int)
    requires MinInt <= x <= MaxInt
    ensures Wrap(x) == x
  {
    WrapUnique(x, x);
  }

  /** The `add` helper: a + b. */
  function Add(a: Int, b: Int): (r: Int)
    ensures (r - (a + b)) % Modulus == 0
  {
    Wrap(a + b)
  }

  /** The `multiply` helper: a * b. */
  function Multiply(a: Int, b: Int): (r: Int)
    ensures (r - a * b) % Modulus == 0
  {
    Wrap(a * b)
  }

  /** The `subtract` helper: note the reversed operands, it computes b - a. */
  function Subtract(a: Int, b: Int): (r: Int)
    ensures (r - (b - a)) % Modulus == 0
  {
    Wrap(b - a)
  }

  /** Without overflow the helpers are the mathematical operations; subtract takes its first argument from its second. */
  lemma HelpersWithoutOverflow(a: Int, b: Int)
    ensures MinInt <= a + b <= MaxInt ==> Add(a, b) == a + b
    ensures MinInt <= a * b <= MaxInt ==> Multiply(a, b) == a * b
    ensures MinInt <= b - a <= MaxInt ==> Subtract(a, b) == b - a
  {
    if MinInt <= a + b <= MaxInt { WrapInRange(a + b); }
    if MinInt <= a * b <= MaxInt { WrapInRange(a * b); }
    if MinInt <= b - a <= MaxInt { WrapInRange(b - a); }
  }

  /** `subtract a b` undoes `add a`, even across wrap-around: add a (subtract a b) == b. */
  lemma AddSubtractInverse(a: Int, b: Int)
    ensures Add(a, Subtract(a, b)) == b
  {
    var d := Subtract(a, b);
    assert (a + d - b) % Modulus == 0 by {
      assert a + d - b == d - (b - a);
    }
    WrapUnique(a + d, b);
  }

  /** Swapping the operands of `subtract` negates the result modulo 2^64. */
  lemma SubtractSwapped(a: Int, b: Int)
    ensures Add(Subtract(a, b), Subtract(b, a)) == 0
  {
    var d, e := Subtract(a, b), Subtract(b, a);
    MultipleSum(d - (b - a), e - (a - b));
    assert d + e == (d - (b - a)) + (e - (a - b));
    WrapUnique(d + e, 0);
  }

  /** The sum of two multiples of 2^64 is a multiple of 2^64. */
  lemma MultipleSum(x: int, y: int)
    requires x % Modulus == 0 && y % Modulus == 0
    ensures (x + y) % Modulus == 0
  {
    var p, q := x / Modulus, y / Modulus;
    assert x == Modulus * p;
    assert y == Modulus * q;
    assert x + y == Modulus * (p + q);
  }
}
