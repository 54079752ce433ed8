/**
 * The cubic Bezier curve the bat follows, and the sawtooth that turns the
 * clock into the curve parameter (main.cpp:62-67, 295-297). Values are
 * exact reals, an idealisation of the float arithmetic of the source.
 */
module Curve {
  import opened Geometry

  /** `bezier_speed` (main.cpp:33): curve passes per second. */
  const BezierSpeed: real := 0.1

  function Sq(x: real): real { x * x }

  function Cube(x: real): real { x * x * x }

  /**
   * One coordinate of `bezier` (main.cpp:64-65): the four control values
   * weighted by the cubic Bernstein polynomials, grouped as the source
   * groups them.
   */
  function BezierAxis(a0: real, a1: real, a2: real, a3: real, t: real): (r: real)
    ensures t == 0.0 ==> r == a0
    ensures t == 1.0 ==> r == a3
  {
    Cube(1.0 - t) * a0 + Sq(1.0 - t) * 3.0 * t * a1 + (1.0 - t) * 3.0 * Sq(t) * a2 + Cube(t) * a3
  }

  /**
   * `bezier(p0, p1, p2, p3, t)`, evaluated axis by axis. For `t` in `[0, 1]`
   * the point lies in the bounding box of the four control points.
   */
  function Bezier(p0: Point, p1: Point, p2: Point, p3: Point, t: real): (b: Point)
    ensures 0.0 <= t <= 1.0 ==>
      Min4(p0.x, p1.x, p2.x, p3.x) <= b.x <= Max4(p0.x, p1.x, p2.x, p3.x) &&
      Min4(p0.y, p1.y, p2.y, p3.y) <= b.y <= Max4(p0.y, p1.y, p2.y, p3.y)
  {
    BezierAxisBounded(p0.x, p1.x, p2.x, p3.x, t);
    BezierAxisBounded(p0.y, p1.y, p2.y, p3.y, t);
    Point(BezierAxis(p0.x, p1.x, p2.x, p3.x, t), BezierAxis(p0.y, p1.y, p2.y, p3.y, t))
  }

  /** At `t == 0` the curve is at its first control point. */
  lemma BezierStart(p0: Point, p1: Point, p2: Point, p3: Point)
    ensures Bezier(p0, p1, p2, p3, 0.0) == p0
  {
  }

  /** At `t == 1` the curve is at its last control point. */
  lemma BezierEnd(p0: Point, p1: Point, p2: Point, p3: Point)
    ensures Bezier(p0, p1, p2, p3, 1.0) == p3
  {
  }

  /** The four Bernstein weights sum to one for every `t`: `((1 - t) + t)^3 == 1`. */
  lemma BernsteinSum(t: real)
    ensures Cube(1.0 - t) + Sq(1.0 - t) * 3.0 * t + (1.0 - t) * 3.0 * Sq(t) + Cube(t) == 1.0
  {
    var s := 1.0 - t;
    var ss, tt, st := s * s, t * t, s * t;
    assert Cube(s) == ss * s && Cube(t) == tt * t;
    assert Sq(s) * 3.0 * t == 3.0 * (ss * t);
    assert s * 3.0 * Sq(t) == 3.0 * (s * tt);
    assert ss * s + ss * t == ss by { assert ss * s + ss * t == ss * (s + t); }
    assert s * tt + tt * t == tt by { assert s * tt + tt * t == (s + t) * tt; }
    assert ss * t + s * tt == st by { assert ss * t + s * tt == st * (s + t); }
    assert ss + 2.0 * st + tt == 1.0 by { assert ss + 2.0 * st + tt == (s + t) * (s + t); }
  }

  /** A curve whose four control points coincide is that one point, for every `t`. */
  lemma BezierConstant(p: Point, t: real)
    ensures Bezier(p, p, p, p, t) == p
  {
    BernsteinSum(t);
    var w0, w1, w2, w3 := Cube(1.0 - t), Sq(1.0 - t) * 3.0 * t, (1.0 - t) * 3.0 * Sq(t), Cube(t);
    assert w0 * p.x + w1 * p.x + w2 * p.x + w3 * p.x == (w0 + w1 + w2 + w3) * p.x;
    assert w0 * p.y + w1 * p.y + w2 * p.y + w3 * p.y == (w0 + w1 + w2 + w3) * p.y;
  }

  /** Running the control polygon backwards traces the same curve from the other end. */
  lemma BezierReversed(p0: Point, p1: Point, p2: Point, p3: Point, t: real)
    ensures Bezier(p0, p1, p2, p3, t) == Bezier(p3, p2, p1, p0, 1.0 - t)
  {
    assert 1.0 - (1.0 - t) == t;
  }

  function Min4(a: real, b: real, c: real, d: real): (m: real)
    ensures m <= a && m <= b && m <= c && m <= d
    ensures m == a || m == b || m == c || m == d
  {
    var ab := if a <= b then a else b;
    var cd := if c <= d then c else d;
    if ab <= cd then ab else cd
  }

  function Max4(a: real, b: real, c: real, d: real): (m: real)
    ensures m >= a && m >= b && m >= c && m >= d
    ensures m == a || m == b || m == c || m == d
  {
    var ab := if a >= b then a else b;
    var cd := if c >= d then c else d;
    if ab >= cd then ab else cd
  }

  /**
   * For `t` in `[0, 1]` every Bernstein weight is non-negative, so each
   * coordinate of the curve lies between the smallest and the largest
   * control value of that axis (the convex-hull property, axis by axis).
   */
  lemma BezierAxisBounded(a0: real, a1: real, a2: real, a3: real, t: real)
    ensures 0.0 <= t <= 1.0 ==> Min4(a0, a1, a2, a3) <= BezierAxis(a0, a1, a2, a3, t) <= Max4(a0, a1, a2, a3)
  {
    if 0.0 <= t <= 1.0 {
      BezierAxisBetween(a0, a1, a2, a3, t, Min4(a0, a1, a2, a3), Max4(a0, a1, a2, a3));
    }
  }

  lemma BezierAxisBetween(a0: real, a1: real, a2: real, a3: real, t: real, lo: real, hi: real)
    requires 0.0 <= t <= 1.0
    requires lo <= a0 <= hi && lo <= a1 <= hi && lo <= a2 <= hi && lo <= a3 <= hi
    ensures lo <= BezierAxis(a0, a1, a2, a3, t) <= hi
  {
    var s := 1.0 - t;
    var ss, tt := s * s, t * t;
    ProductNonNegative(s, s, ss);
    ProductNonNegative(t, t, tt);
    var w0, w1, w2, w3 := ss * s, ss * 3.0 * t, s * 3.0 * tt, tt * t;
    ProductNonNegative(ss, s, w0);
    ProductNonNegative(ss * 3.0, t, w1);
    ProductNonNegative(s * 3.0, tt, w2);
    ProductNonNegative(tt, t, w3);
    BernsteinSum(t);
    WeightedBetween(w0, w1, w2, w3, a0, a1, a2, a3, lo, hi, w0 * a0, w1 * a1, w2 * a2, w3 * a3);
    assert BezierAxis(a0, a1, a2, a3, t) == w0 * a0 + w1 * a1 + w2 * a2 + w3 * a3;
  }

  /** A weighted sum with non-negative weights summing to one stays within the bounds of its values. */
  lemma WeightedBetween(w0: real, w1: real, w2: real, w3: real, a0: real, a1: real, a2: real, a3: real,
                        lo: real, hi: real, p0: real, p1: real, p2: real, p3: real)
    requires w0 >= 0.0 && w1 >= 0.0 && w2 >= 0.0 && w3 >= 0.0 && w0 + w1 + w2 + w3 == 1.0
    requires lo <= a0 <= hi && lo <= a1 <= hi && lo <= a2 <= hi && lo <= a3 <= hi
    requires p0 == w0 * a0 && p1 == w1 * a1 && p2 == w2 * a2 && p3 == w3 * a3
    ensures lo <= p0 + p1 + p2 + p3 <= hi
  {
    var l0, l1, l2, l3 := w0 * lo, w1 * lo, w2 * lo, w3 * lo;
    var h0, h1, h2, h3 := w0 * hi, w1 * hi, w2 * hi, w3 * hi;
    WeightedTerm(w0, a0, lo, hi, p0, l0, h0);
    WeightedTerm(w1, a1, lo, hi, p1, l1, h1);
    WeightedTerm(w2, a2, lo, hi, p2, l2, h2);
    WeightedTerm(w3, a3, lo, hi, p3, l3, h3);
    Distribute(w0, w1, w2, w3, lo, l0, l1, l2, l3);
    Distribute(w0, w1, w2, w3, hi, h0, h1, h2, h3);
  }

  /** A non-negative weight `w` keeps the bounds of a value: `w * lo <= w * a <= w * hi`. */
  lemma WeightedTerm(w: real, a: real, lo: real, hi: real, p: real, l: real, h: real)
    requires w >= 0.0 && lo <= a <= hi
    requires p == w * a && l == w * lo && h == w * hi
    ensures l <= p <= h
  {
    ProductNonNegative(w, a - lo, p - l);
    ProductNonNegative(w, hi - a, h - p);
  }

  /** Weights that sum to one: `w0 * c + w1 * c + w2 * c + w3 * c == c`. */
  lemma Distribute(w0: real, w1: real, w2: real, w3: real, c: real, m0: real, m1: real, m2: real, m3: real)
    requires w0 + w1 + w2 + w3 == 1.0
    requires m0 == w0 * c && m1 == w1 * c && m2 == w2 * c && m3 == w3 * c
    ensures m0 + m1 + m2 + m3 == c
  {
    assert m0 + m1 + m2 + m3 == (w0 + w1 + w2 + w3) * c;
  }

  /** The C++ `(int)` conversion: truncation toward zero. */
  function Trunc(x: real): (n: int)
    ensures x >= 0.0 ==> n as real <= x < n as real + 1.0
    ensures x < 0.0 ==> n as real - 1.0 < x <= n as real
  {
    if x >= 0.0 then x.Floor else -((-x).Floor)
  }

  /** `x - (int)x` (main.cpp:296): the fractional part, keeping the sign of `x`. */
  function Sawtooth(x: real): (f: real)
    ensures x >= 0.0 ==> 0.0 <= f < 1.0
    ensures x < 0.0 ==> -1.0 < f <= 0.0
  {
    x - Trunc(x) as real
  }

  /** For a non-negative clock the sawtooth repeats with period one. */
  lemma {:induction false} SawtoothPeriodic(x: real)
    requires x >= 0.0
    ensures Sawtooth(x + 1.0) == Sawtooth(x)
  {
    assert (x + 1.0).Floor == x.Floor + 1;
  }

  /**
   * The bat's position at clock value `time`: the curve through the four
   * control points at the sawtooth of `time * BezierSpeed`, the clock read
   * once. The clock is a parameter; `glfwGetTime()` never goes below zero,
   * and then the bat stays inside the bounding box of the control polygon.
   */
  function BatPosition(points: seq<Point>, time: real): (b: Point)
    requires |points| == 4
    ensures time >= 0.0 ==>
      Min4(points[0].x, points[1].x, points[2].x, points[3].x) <= b.x <= Max4(points[0].x, points[1].x, points[2].x, points[3].x) &&
      Min4(points[0].y, points[1].y, points[2].y, points[3].y) <= b.y <= Max4(points[0].y, points[1].y, points[2].y, points[3].y)
  {
    Bezier(points[0], points[1], points[2], points[3], Sawtooth(time * BezierSpeed))
  }

  /** The bat loops the curve: every `1 / BezierSpeed == 10` seconds it is back where it was. */
  lemma BatPositionPeriodic(points: seq<Point>, time: real)
    requires |points| == 4 && time >= 0.0
    ensures BatPosition(points, time + 10.0) == BatPosition(points, time)
  {
    assert (time + 10.0) * BezierSpeed == time * BezierSpeed + 1.0;
    SawtoothPeriodic(time * BezierSpeed);
  }

  /** At a whole number of periods the bat is at the first control point, half a period later at the curve's midpoint. */
  lemma BatPositionSamples(points: seq<Point>)
    requires |points| == 4
    ensures BatPosition(points, 10.0) == points[0]
    ensures BatPosition(points, 15.0) == Bezier(points[0], points[1], points[2], points[3], 0.5)
  {
    assert Sawtooth(10.0 * BezierSpeed) == 0.0 by {
      assert 10.0 * BezierSpeed == 1.0;
      assert (1.0).Floor == 1;
    }
    assert Sawtooth(15.0 * BezierSpeed) == 0.5 by {
      assert 15.0 * BezierSpeed == 1.5;
      assert (1.5).Floor == 1;
    }
    BezierStart(points[0], points[1], points[2], points[3]);
  }

  /**
   * The curve parameter as main.cpp:296 computes it: the clock is read
   * twice, `first` for the product and `second` for its truncation. While
   * both reads fall in the same period the parameter is the sawtooth of
   * `first`, in `[0, 1)`.
   */
  function BatParameterAsWritten(first: real, second: real): (t: real)
    ensures first >= 0.0 && Trunc(first * BezierSpeed) == Trunc(second * BezierSpeed) ==>
      t == Sawtooth(first * BezierSpeed) && 0.0 <= t < 1.0
  {
    first * BezierSpeed - Trunc(second * BezierSpeed) as real
  }

  /** The bat's position as main.cpp:296-297 computes it, from two clock reads. */
  function BatPositionAsWritten(points: seq<Point>, first: real, second: real): (b: Point)
    requires |points| == 4
    ensures first >= 0.0 && Trunc(first * BezierSpeed) == Trunc(second * BezierSpeed) ==>
      b == BatPosition(points, first)
  {
    Bezier(points[0], points[1], points[2], points[3], BatParameterAsWritten(first, second))
  }

  /**
   * Two reads on either side of the ten-second mark give a negative
   * parameter, and the bat leaves the bounding box of its control points:
   * with x-coordinates 0, 1, 1, 1 and reads at 9.99 and 10.01 seconds the
   * parameter is -0.001 and the bat's x is below 0.
   */
  lemma BatPositionStraddles(points: seq<Point>)
    requires points == [Point(0.0, 0.0), Point(1.0, 0.0), Point(1.0, 0.0), Point(1.0, 0.0)]
    ensures BatParameterAsWritten(9.99, 10.01) == -0.001
    ensures BatPositionAsWritten(points, 9.99, 10.01).x < Min4(points[0].x, points[1].x, points[2].x, points[3].x)
  {
    assert 10.01 * BezierSpeed == 1.001;
    assert (1.001).Floor == 1;
    assert Trunc(10.01 * BezierSpeed) == 1;
    assert BatParameterAsWritten(9.99, 10.01) == -0.001;
    assert BezierAxis(0.0, 1.0, 1.0, 1.0, -0.001) < 0.0;
  }
}
