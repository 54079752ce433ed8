/**
 * Two-dimensional points, standing in for the `Vec2` values of the demo.
 * Coordinates are exact reals: float rounding is not modelled.
 */
module Geometry {

  datatype Point = Point(x: real, y: real)

  const Origin: Point := Point(0.0, 0.0)

  /** Component-wise difference `a - b`. */
  function Sub(a: Point, b: Point): Point
  {
    Point(a.x - b.x, a.y - b.y)
  }

  /** The square of the Euclidean norm; the source's `norm()` is its square root. */
  function SquaredNorm(v: Point): (n: real)
    ensures n >= 0.0
    ensures n > 0.0 <==> v != Origin
  {
    var sx, sy := v.x * v.x, v.y * v.y;
    SquareSign(v.x, sx);
    SquareSign(v.y, sy);
    assert v == Origin <==> v.x == 0.0 && v.y == 0.0;
    sx + sy
  }

  /**
   * Comparing a norm `n` (a non-negative square root) against a positive
   * radius is the same as comparing their squares, so the model may test
   * `SquaredNorm(d) < r * r` where the source tests `d.norm() < r`.
   */
  lemma NormBelowRadius(n: real, r: real)
    requires n >= 0.0 && r > 0.0
    ensures n < r <==> n * n < r * r
  {
    if n < r {
      ProductPositive(r - n, r + n, r * r - n * n);
    } else {
      ProductNonNegative(n - r, n + r, n * n - r * r);
    }
  }

  /** The norm of a difference is positive exactly when the two points differ. */
  lemma NormPositiveIffDistinct(p: Point, q: Point)
    ensures SquaredNorm(Sub(p, q)) > 0.0 <==> p != q
  {
    assert Sub(p, q) == Origin <==> p == q;
  }

  /**
   * The move test `d.norm() > 0`: for the norm `n`, the non-negative root
   * of the squared norm, it agrees with `SquaredNorm(d) > 0`.
   */
  lemma MoveTestAgrees(d: Point, n: real)
    requires n >= 0.0 && n * n == SquaredNorm(d)
    ensures n > 0.0 <==> SquaredNorm(d) > 0.0
  {
    SquareSign(n, SquaredNorm(d));
  }

  // Sign facts about products. Each product is passed in as a separate
  // value `s` or `p` so that the solver reasons about it linearly.

  lemma SquareSign(a: real, s: real)
    requires s == a * a
    ensures s >= 0.0
    ensures s > 0.0 <==> a != 0.0
  {
    if a > 0.0 {
      ProductPositive(a, a, s);
    } else if a < 0.0 {
      assert (-a) * (-a) == a * a;
      ProductPositive(-a, -a, s);
    }
  }

  lemma ProductPositive(a: real, b: real, p: real)
    requires p == a * b && a > 0.0 && b > 0.0
    ensures p > 0.0
  {
  }

  lemma ProductNonNegative(a: real, b: real, p: real)
    requires p == a * b && a >= 0.0 && b >= 0.0
    ensures p >= 0.0
  {
  }
}
