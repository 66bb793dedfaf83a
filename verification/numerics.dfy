/**
 * Scalar behaviour the renderer's C++ relies on, idealised over `real`:
 * C's truncating `(int)` conversion, `fabs`, `fmin`/`fmax`, `fmodf(x, 1)`,
 * `pow(x, 5)`, the largest finite float, and a contract for libm `sqrt`,
 * which the model receives as a parameter.
 */
module Numerics {

  datatype Option<+T> = None | Some(value: T)

  /** `std::numeric_limits<float>::max()`, the starting "best distance". */
  const FLT_MAX: real := 340282346638528859811704183484516925440.0

  /**
   * `sqrt` from libm is a foreign call. Every operation that needs it takes a
   * function `sqrt` and requires this: it returns the non-negative root.
   */
  ghost predicate IsSqrt(sqrt: real -> real) {
    forall x :: 0.0 <= x ==> 0.0 <= sqrt(x) && sqrt(x) * sqrt(x) == x
  }

  /** The non-negative root is the only one, so any two `IsSqrt` functions agree. */
  lemma SqrtUnique(sqrt: real -> real, x: real, r: real)
    requires IsSqrt(sqrt)
    requires 0.0 <= x && 0.0 <= r && r * r == x
    ensures sqrt(x) == r
  {
    var s := sqrt(x);
    assert 0.0 <= s && s * s == x;
    if s < r {
      MulPositive(r - s, r + s);
    } else if r < s {
      MulPositive(s - r, s + r);
    }
  }

  lemma MulPositive(a: real, b: real)
    requires 0.0 < a && 0.0 < b
    ensures 0.0 < a * b
  {
  }

  lemma MulNonNegative(a: real, b: real)
    requires 0.0 <= a && 0.0 <= b
    ensures 0.0 <= a * b
  {
  }

  /** A root of a positive number is positive. */
  lemma SqrtPositive(sqrt: real -> real, x: real)
    requires IsSqrt(sqrt)
    requires 0.0 < x
    ensures 0.0 < sqrt(x)
  {
    assert sqrt(x) * sqrt(x) == x;
  }

  /** C's `(int)` conversion of a finite float: truncation toward zero. */
  function Trunc(x: real): (r: int)
    ensures 0.0 <= x ==> 0 <= r && r as real <= x < r as real + 1.0
    ensures x < 0.0 ==> r <= 0 && r as real - 1.0 < x <= r as real
  {
    if 0.0 <= x then x.Floor else -((-x).Floor)
  }

  /** Truncation is not `Floor`: they part on negative non-integers. */
  lemma TruncIsNotFloor()
    ensures Trunc(-0.5) == 0 && (-0.5).Floor == -1
  {
  }

  /** `fabs`. */
  function FAbs(x: real): (r: real)
    ensures 0.0 <= r
    ensures r == x || r == -x
  {
    if x < 0.0 then -x else x
  }

  /** `fmin` on numbers (its NaN rule is outside the model). */
  function FMin(a: real, b: real): (r: real)
    ensures r <= a && r <= b
    ensures r == a || r == b
  {
    if a <= b then a else b
  }

  /** `fmax` on numbers (its NaN rule is outside the model). */
  function FMax(a: real, b: real): (r: real)
    ensures a <= r && b <= r
    ensures r == a || r == b
  {
    if a <= b then b else a
  }

  /**
   * `fmodf(x, 1)`: the remainder keeps the sign of `x`, so a negative `x`
   * gives a result in (-1, 0], not in [0, 1).
   */
  function FMod1(x: real): (r: real)
    ensures 0.0 <= x ==> 0.0 <= r < 1.0
    ensures x < 0.0 ==> -1.0 < r <= 0.0
    ensures (x - r).Floor as real == x - r
  {
    x - Trunc(x) as real
  }

  /** `pow(x, 5)` for the integral exponent Schlick's formula uses. */
  function Pow5(x: real): real {
    x * x * x * x * x
  }

  /** On [0, 1] the fifth power stays in [0, 1]. */
  lemma Pow5UnitInterval(x: real)
    requires 0.0 <= x <= 1.0
    ensures 0.0 <= Pow5(x) <= 1.0
  {
    MulAtMost(x, x);
    MulAtMost(x * x, x);
    MulAtMost(x * x * x, x);
    MulAtMost(x * x * x * x, x);
  }

  /** Squaring respects equality; stated on its own so that the solver sees the squares as terms. */
  lemma SquareOfEqual(a: real, b: real)
    requires a == b
    ensures a * a == b * b
  {
  }

  /** Multiplication respects equality; stated on its own so that the solver sees the products as terms. */
  lemma MulOfEqual(a: real, b: real, c: real, d: real)
    requires a == c && b == d
    ensures a * b == c * d
  {
  }

  /** Products of numbers in [0, 1] stay in [0, 1]. */
  lemma MulAtMost(a: real, b: real)
    requires 0.0 <= a <= 1.0 && 0.0 <= b <= 1.0
    ensures 0.0 <= a * b <= b
  {
    assert a * b <= 1.0 * b by {
      assert (1.0 - a) * b >= 0.0;
    }
  }
}
