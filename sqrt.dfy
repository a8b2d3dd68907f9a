/**
 * The square root the statistics use (JavaScript's `Math.sqrt`), taken as a parameter:
 * Dafny has no real square root, so every operation that needs one receives a function
 * `sqrt` together with the requirement that it is one on the non-negative reals.
 * Everything below follows from that requirement alone.
 */
module SquareRoot {

  ghost predicate IsSqrt(sqrt: real -> real)
  {
    forall x: real :: x >= 0.0 ==> sqrt(x) >= 0.0 && sqrt(x) * sqrt(x) == x
  }

  function Abs(x: real): (r: real)
    ensures r >= 0.0
    ensures r == x || r == -x
  {
    if x < 0.0 then -x else x
  }

  lemma DifferenceOfSquares(s: real, r: real, d: real, e: real)
    ensures d == s - r && e == s + r ==> d * e == s * s - r * r
  {
  }

  lemma ZeroProduct(d: real, e: real)
    requires e > 0.0 && d * e == 0.0
    ensures d == 0.0
  {
  }

  /** A non-negative number is determined by its square. */
  lemma NonnegRootUnique(s: real, r: real)
    requires s >= 0.0 && r >= 0.0 && s * s == r * r
    ensures s == r
  {
    var d, e := s - r, s + r;
    DifferenceOfSquares(s, r, d, e);
    if e > 0.0 {
      ZeroProduct(d, e);
    }
  }

  /** Any non-negative `r` whose square is `x` is the value of `sqrt` at `x`. */
  lemma SqrtUnique(sqrt: real -> real, x: real, r: real)
    requires IsSqrt(sqrt)
    requires x >= 0.0 && r >= 0.0 && r * r == x
    ensures sqrt(x) == r
  {
    var s := sqrt(x);
    assert s >= 0.0 && s * s == x;
    NonnegRootUnique(s, r);
  }

  lemma SqrtZero(sqrt: real -> real)
    requires IsSqrt(sqrt)
    ensures sqrt(0.0) == 0.0
  {
    SqrtUnique(sqrt, 0.0, 0.0);
  }

  /** The root of a square is the absolute value. */
  lemma SqrtOfSquare(sqrt: real -> real, v: real)
    requires IsSqrt(sqrt)
    ensures sqrt(v * v) == Abs(v)
  {
    var a := Abs(v);
    assert a * a == v * v;
    SqrtUnique(sqrt, v * v, a);
  }

  /** The root is zero exactly at zero (on the non-negative reals). */
  lemma SqrtZeroIff(sqrt: real -> real, x: real)
    requires IsSqrt(sqrt) && x >= 0.0
    ensures sqrt(x) == 0.0 <==> x == 0.0
  {
    SqrtZero(sqrt);
  }

  lemma ScaledSquareAlgebra(a: real, k: real, s: real, x: real, y: real)
    ensures a * a == k * k && s * s == x && y == k * k * x ==> (a * s) * (a * s) == y
  {
  }

  /** A squared factor comes out of the root as its absolute value. */
  lemma SqrtScale(sqrt: real -> real, k: real, x: real)
    requires IsSqrt(sqrt) && x >= 0.0
    ensures k * k * x >= 0.0
    ensures sqrt(k * k * x) == Abs(k) * sqrt(x)
  {
    var a := Abs(k);
    var s := sqrt(x);
    var y := k * k * x;
    assert a * a == k * k;
    SquareNonnegProduct(k, x);
    ScaledSquareAlgebra(a, k, s, x, y);
    assert a * s >= 0.0 by { NonnegProduct(a, s); }
    SqrtUnique(sqrt, y, a * s);
  }

  lemma NonnegProduct(a: real, b: real)
    requires a >= 0.0 && b >= 0.0
    ensures a * b >= 0.0
  {
  }

  lemma SquareNonnegProduct(k: real, x: real)
    requires x >= 0.0
    ensures k * k * x >= 0.0
  {
    assert k * k >= 0.0;
    NonnegProduct(k * k, x);
  }
}
