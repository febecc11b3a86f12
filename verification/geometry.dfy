/** Points in the diagram's data coordinates and Euclidean distance.
    The square root (`** 0.5` in the source) is a parameter of every operation
    that needs it; `IsSqrt` says what a faithful square root must satisfy. */
module Geometry {

  datatype Point = Point(x: real, y: real)

  function SqDist(p: Point, q: Point): real
  {
    (p.x - q.x) * (p.x - q.x) + (p.y - q.y) * (p.y - q.y)
  }

  /** `sqrt` returns the non-negative square root of every non-negative real. */
  ghost predicate IsSqrt(sqrt: real -> real)
  {
    forall v :: 0.0 <= v ==> 0.0 <= sqrt(v) && sqrt(v) * sqrt(v) == v
  }

  /** `((px - qx) ** 2 + (py - qy) ** 2) ** 0.5` */
  function Dist(sqrt: real -> real, p: Point, q: Point): real
  {
    sqrt(SqDist(p, q))
  }

  lemma SqDistNonNegative(p: Point, q: Point)
    ensures SqDist(p, q) >= 0.0
  {
  }

  /** With a faithful square root, "within distance r" is the same test as
      comparing squared distances, so containment and clearance do not depend on
      how the root is computed. */
  lemma WithinIffSquared(sqrt: real -> real, p: Point, q: Point, r: real)
    requires IsSqrt(sqrt)
    requires 0.0 <= r
    ensures Dist(sqrt, p, q) <= r <==> SqDist(p, q) <= r * r
    ensures Dist(sqrt, p, q) < r <==> SqDist(p, q) < r * r
  {
    SqDistNonNegative(p, q);
    var d := Dist(sqrt, p, q);
    assert 0.0 <= d && d * d == SqDist(p, q);
    SquareMonotone(d, r);
  }

  /** For non-negative reals, squaring preserves both `<` and `<=`. */
  lemma SquareMonotone(d: real, r: real)
    requires 0.0 <= d && 0.0 <= r
    ensures d <= r <==> d * d <= r * r
    ensures d < r <==> d * d < r * r
  {
    var dr := d * r;
    if d <= r {
      assert d * d <= dr <= r * r;
    } else {
      assert r * r <= dr < d * d;
    }
    if d < r {
      assert d * d <= dr < r * r;
    } else {
      assert r * r <= dr <= d * d;
    }
  }

  lemma ScaleMonotone(a: real, b: real, c: real)
    requires a <= b && 0.0 <= c
    ensures a * c <= b * c
  {
  }

  /** The point `toward + (c - toward) * t`: moves `c` toward `toward`,
      keeping the fraction `t` of its offset. */
  function Lerp(c: Point, toward: Point, t: real): (r: Point)
    ensures t == 1.0 ==> r == c
    ensures t == 0.0 ==> r == toward
  {
    Point(toward.x + (c.x - toward.x) * t, toward.y + (c.y - toward.y) * t)
  }

  /** Moving toward a point scales the squared distance to it by `t * t`. */
  lemma LerpScalesDistance(c: Point, toward: Point, t: real)
    ensures SqDist(Lerp(c, toward, t), toward) == (t * t) * SqDist(c, toward)
  {
    var dx, dy := c.x - toward.x, c.y - toward.y;
    var r := Lerp(c, toward, t);
    assert r.x - toward.x == dx * t && r.y - toward.y == dy * t;
    var tt := t * t;
    assert (dx * t) * (dx * t) == tt * (dx * dx);
    assert (dy * t) * (dy * t) == tt * (dy * dy);
  }

  /** A fraction in `[0, 1]` of a number lies between zero and the number. */
  lemma FractionBetween(d: real, t: real)
    requires 0.0 <= t <= 1.0
    ensures d >= 0.0 ==> 0.0 <= d * t <= d
    ensures d <= 0.0 ==> d <= d * t <= 0.0
  {
    if d < 0.0 {
      assert d * t == -((-d) * t);
      assert 0.0 <= (-d) * t <= -d;
    }
  }
}
