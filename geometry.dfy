/**
 * Integer circle geometry shared by the experiment window and the layout
 * generator: squared distances, the point-in-circle test and the
 * circles-touch test. Both tests compare squared integers; the lemmas
 * relate them to the Euclidean distance `d` (any real `d >= 0` with
 * `d * d` equal to the squared distance).
 */
module Geometry {

  datatype Coord = Coord(x: int, y: int)

  /** Squared Euclidean distance between (x1, y1) and (x2, y2). */
  function SqDist(x1: int, y1: int, x2: int, y2: int): nat
  {
    var dx, dy := x1 - x2, y1 - y2;
    assert dx * dx >= 0 && dy * dy >= 0;
    dx * dx + dy * dy
  }

  /** The point (px, py) lies inside or on the circle of radius r around (cx, cy). */
  predicate PointInsideCircle(px: int, py: int, cx: int, cy: int, r: int)
  {
    (px - cx) * (px - cx) + (py - cy) * (py - cy) <= r * r
  }

  /** Two circles of the same radius r overlap: their centres are closer than 2r. */
  predicate CirclesTouch(c1x: int, c1y: int, c2x: int, c2y: int, r: int)
  {
    (c1x - c2x) * (c1x - c2x) + (c1y - c2y) * (c1y - c2y) < (r + r) * (r + r)
  }

  /** For non-negative reals, comparing squares is comparing the numbers. */
  lemma SquareLessIff(u: real, v: real)
    requires 0.0 <= u && 0.0 <= v
    ensures u < v <==> u * u < v * v
  {
    if u < v {
      var e := v - u;
      assert v * v == u * u + e * (u + v);
      assert e * (u + v) > 0.0;
    } else {
      var e := u - v;
      assert u * u == v * v + e * (u + v);
      assert e * (u + v) >= 0.0;
    }
  }

  lemma SquareAtMostIff(u: real, v: real)
    requires 0.0 <= u && 0.0 <= v
    ensures u <= v <==> u * u <= v * v
  {
    SquareLessIff(v, u);
  }

  /**
   * With a non-negative radius, the point test is "Euclidean distance at
   * most r": a point exactly on the boundary is inside.
   */
  lemma InsideIffWithinRadius(px: int, py: int, cx: int, cy: int, r: int, d: real)
    requires 0 <= r
    requires 0.0 <= d && d * d == SqDist(px, py, cx, cy) as real
    ensures PointInsideCircle(px, py, cx, cy, r) <==> d <= r as real
  {
    SquareAtMostIff(d, r as real);
    assert (r * r) as real == (r as real) * (r as real);
  }

  /**
   * With a non-negative radius, the touch test is "Euclidean distance below
   * 2r": tangent circles do not touch.
   */
  lemma TouchIffCloserThanDiameter(c1x: int, c1y: int, c2x: int, c2y: int, r: int, d: real)
    requires 0 <= r
    requires 0.0 <= d && d * d == SqDist(c1x, c1y, c2x, c2y) as real
    ensures CirclesTouch(c1x, c1y, c2x, c2y, r) <==> d < 2.0 * r as real
  {
    SquareLessIff(d, 2.0 * r as real);
    assert ((r + r) * (r + r)) as real == (2.0 * r as real) * (2.0 * r as real);
  }

  /** The test is symmetric in the two circles. */
  lemma TouchSymmetric(c1x: int, c1y: int, c2x: int, c2y: int, r: int)
    ensures CirclesTouch(c1x, c1y, c2x, c2y, r) == CirclesTouch(c2x, c2y, c1x, c1y, r)
  {
    assert (c1x - c2x) * (c1x - c2x) == (c2x - c1x) * (c2x - c1x);
    assert (c1y - c2y) * (c1y - c2y) == (c2y - c1y) * (c2y - c1y);
  }


  /** The point test squares the radius, so a negative radius acts like its absolute value. */
  lemma NegativeRadiusActsAsPositive(px: int, py: int, cx: int, cy: int, r: int)
    ensures PointInsideCircle(px, py, cx, cy, r) == PointInsideCircle(px, py, cx, cy, -r)
  {
  }
}
