/** The geometric predicates of the triangulation, over exact reals.
    Coordinates are reals rather than IEEE doubles, so the predicates below are the exact
    polynomial sign tests the floating-point code approximates. */
module Geometry {

  /** A point of the plane (the source's `{x, y}` objects). */
  datatype Point = Point(x: real, y: real)

  /** `sign(p1, p2, p3)`: twice the signed area of the triangle p1, p2, p3. */
  function Sign(p1: Point, p2: Point, p3: Point): real
  {
    (p1.x - p3.x) * (p2.y - p3.y) - (p2.x - p3.x) * (p1.y - p3.y)
  }

  /** `pointInTriangle`: `pt` is not strictly on the outer side of any edge.
      Ties (a zero sign) count as inside. */
  function PointInTriangle(pt: Point, v1: Point, v2: Point, v3: Point): bool
  {
    var d1 := Sign(pt, v1, v2);
    var d2 := Sign(pt, v2, v3);
    var d3 := Sign(pt, v3, v1);
    var hasNeg := d1 < 0.0 || d2 < 0.0 || d3 < 0.0;
    var hasPos := d1 > 0.0 || d2 > 0.0 || d3 > 0.0;
    !(hasNeg && hasPos)
  }

  /** `pointInCircle`: the lifted 3x3 determinant of a, b, c relative to p is strictly negative. */
  function PointInCircle(a: Point, b: Point, c: Point, p: Point): bool
  {
    InCircleDet(a, b, c, p) < 0.0
  }

  /** The determinant `pointInCircle` computes: the rows are a, b, c translated by -p and
      lifted onto the paraboloid z = x^2 + y^2. */
  function InCircleDet(a: Point, b: Point, c: Point, p: Point): real
  {
    var d, e, f := Sub(a, p), Sub(b, p), Sub(c, p);
    Det3(d.x, d.y, Lift(d), e.x, e.y, Lift(e), f.x, f.y, Lift(f))
  }

  /** q translated by -p. */
  function Sub(q: Point, p: Point): Point
  {
    Point(q.x - p.x, q.y - p.y)
  }

  /** The height of d on the paraboloid z = x^2 + y^2. */
  function Lift(d: Point): real
  {
    d.x * d.x + d.y * d.y
  }

  /** The dot product of d and u. */
  function Dot(d: Point, u: Point): real
  {
    d.x * u.x + d.y * u.y
  }

  /** The 3x3 determinant with rows (dx, dy, ap), (ex, ey, bp), (fx, fy, cp), expanded along
      its first row as `pointInCircle` writes it out. */
  function Det3(dx: real, dy: real, ap: real, ex: real, ey: real, bp: real, fx: real, fy: real, cp: real): real
  {
    dx * (ey * cp - bp * fy) - dy * (ex * cp - bp * fx) + ap * (ex * fy - ey * fx)
  }

  /** The orientation of a, b, c: positive when they turn counter-clockwise with the y axis
      pointing up, negative when they turn clockwise, zero when they are collinear. */
  function Orientation(a: Point, b: Point, c: Point): real
  {
    (b.x - a.x) * (c.y - a.y) - (b.y - a.y) * (c.x - a.x)
  }

  /** The squared distance between p and q. */
  function SqDist(p: Point, q: Point): real
  {
    (p.x - q.x) * (p.x - q.x) + (p.y - q.y) * (p.y - q.y)
  }

  /** The point l1 * v1 + l2 * v2 + l3 * v3. */
  function Combine(l1: real, v1: Point, l2: real, v2: Point, l3: real, v3: Point): Point
  {
    Point(l1 * v1.x + l2 * v2.x + l3 * v3.x, l1 * v1.y + l2 * v2.y + l3 * v3.y)
  }

  /** `sign` is the orientation of its three arguments. */
  lemma SignIsOrientation(p1: Point, p2: Point, p3: Point)
    ensures Sign(p1, p2, p3) == Orientation(p1, p2, p3)
  {
  }

  /** The three signs of `pointInTriangle` add up to the triangle's own orientation, and
      weighting the corners by them gives the query point scaled by that orientation
      (barycentric coordinates). */
  lemma SignsAreBarycentric(p: Point, v1: Point, v2: Point, v3: Point)
    ensures Sign(p, v1, v2) + Sign(p, v2, v3) + Sign(p, v3, v1) == Orientation(v1, v2, v3)
    ensures Sign(p, v2, v3) * v1.x + Sign(p, v3, v1) * v2.x + Sign(p, v1, v2) * v3.x
            == Orientation(v1, v2, v3) * p.x
    ensures Sign(p, v2, v3) * v1.y + Sign(p, v3, v1) * v2.y + Sign(p, v1, v2) * v3.y
            == Orientation(v1, v2, v3) * p.y
  {
  }

  /** Every convex combination of the corners, corners and edges included, is reported inside. */
  lemma ConvexCombinationInside(v1: Point, v2: Point, v3: Point, l1: real, l2: real, l3: real)
    requires 0.0 <= l1 && 0.0 <= l2 && 0.0 <= l3 && l1 + l2 + l3 == 1.0
    ensures PointInTriangle(Combine(l1, v1, l2, v2, l3, v3), v1, v2, v3)
  {
    var p := Combine(l1, v1, l2, v2, l3, v3);
    var o := Orientation(v1, v2, v3);
    assert Sign(p, v1, v2) == l3 * o;
    assert Sign(p, v2, v3) == l1 * o;
    assert Sign(p, v3, v1) == l2 * o;
    ScaledWeights(l1, l2, l3, o);
  }

  /** Non-negative weights scaled by o all take o's sign. */
  lemma ScaledWeights(l1: real, l2: real, l3: real, o: real)
    requires 0.0 <= l1 && 0.0 <= l2 && 0.0 <= l3
    ensures o >= 0.0 ==> l1 * o >= 0.0 && l2 * o >= 0.0 && l3 * o >= 0.0
    ensures o <= 0.0 ==> l1 * o <= 0.0 && l2 * o <= 0.0 && l3 * o <= 0.0
  {
  }

  /** Each corner of the triangle is reported inside it. */
  lemma CornersInside(v1: Point, v2: Point, v3: Point)
    ensures PointInTriangle(v1, v1, v2, v3)
    ensures PointInTriangle(v2, v1, v2, v3)
    ensures PointInTriangle(v3, v1, v2, v3)
  {
    ConvexCombinationInside(v1, v2, v3, 1.0, 0.0, 0.0);
    assert Combine(1.0, v1, 0.0, v2, 0.0, v3) == v1;
    ConvexCombinationInside(v1, v2, v3, 0.0, 1.0, 0.0);
    assert Combine(0.0, v1, 1.0, v2, 0.0, v3) == v2;
    ConvexCombinationInside(v1, v2, v3, 0.0, 0.0, 1.0);
    assert Combine(0.0, v1, 0.0, v2, 1.0, v3) == v3;
  }

  /** Conversely, in a non-degenerate triangle a point reported inside is a convex combination
      of the corners, so the test is exactly "inside or on the boundary". */
  lemma InsideIsConvexCombination(p: Point, v1: Point, v2: Point, v3: Point)
    requires Orientation(v1, v2, v3) != 0.0
    requires PointInTriangle(p, v1, v2, v3)
    ensures exists l1: real, l2: real, l3: real ::
              0.0 <= l1 && 0.0 <= l2 && 0.0 <= l3 && l1 + l2 + l3 == 1.0 &&
              p == Combine(l1, v1, l2, v2, l3, v3)
  {
    var o := Orientation(v1, v2, v3);
    var d1, d2, d3 := Sign(p, v1, v2), Sign(p, v2, v3), Sign(p, v3, v1);
    SignsAreBarycentric(p, v1, v2, v3);
    WeightsShareSign(d1, d2, d3, o);
    ConvexFromWeights(p, v1, v2, v3, o, d2, d3, d1);
  }

  /** Three numbers that are not of mixed strict sign and add up to o != 0 all have o's sign. */
  lemma WeightsShareSign(d1: real, d2: real, d3: real, o: real)
    requires d1 + d2 + d3 == o && o != 0.0
    requires !((d1 < 0.0 || d2 < 0.0 || d3 < 0.0) && (d1 > 0.0 || d2 > 0.0 || d3 > 0.0))
    ensures o > 0.0 ==> d1 >= 0.0 && d2 >= 0.0 && d3 >= 0.0
    ensures o < 0.0 ==> d1 <= 0.0 && d2 <= 0.0 && d3 <= 0.0
  {
  }

  /** Weights of o's sign that add up to o and weight the corners to o * p make p a convex
      combination of the corners (divide them by o). */
  lemma ConvexFromWeights(p: Point, v1: Point, v2: Point, v3: Point, o: real, w1: real, w2: real, w3: real)
    requires o != 0.0 && w1 + w2 + w3 == o
    requires o > 0.0 ==> w1 >= 0.0 && w2 >= 0.0 && w3 >= 0.0
    requires o < 0.0 ==> w1 <= 0.0 && w2 <= 0.0 && w3 <= 0.0
    requires w1 * v1.x + w2 * v2.x + w3 * v3.x == o * p.x
    requires w1 * v1.y + w2 * v2.y + w3 * v3.y == o * p.y
    ensures exists l1: real, l2: real, l3: real ::
              0.0 <= l1 && 0.0 <= l2 && 0.0 <= l3 && l1 + l2 + l3 == 1.0 &&
              p == Combine(l1, v1, l2, v2, l3, v3)
  {
    QuotientNonNegative(o, w1);
    QuotientNonNegative(o, w2);
    QuotientNonNegative(o, w3);
    QuotientSum(o, w1, w2, w3, 1.0, 1.0, 1.0, 1.0);
    QuotientSum(o, w1, w2, w3, v1.x, v2.x, v3.x, p.x);
    QuotientSum(o, w1, w2, w3, v1.y, v2.y, v3.y, p.y);
    assert p == Combine(w1 / o, v1, w2 / o, v2, w3 / o, v3);
  }

  /** Dividing weights d1, d2, d3 by o divides the weighted sum by o. */
  lemma QuotientSum(o: real, d1: real, d2: real, d3: real, x1: real, x2: real, x3: real, px: real)
    requires o != 0.0
    requires d1 * x1 + d2 * x2 + d3 * x3 == o * px
    ensures (d1 / o) * x1 + (d2 / o) * x2 + (d3 / o) * x3 == px
  {
    assert (d1 / o) * x1 == (d1 * x1) / o;
    assert (d2 / o) * x2 == (d2 * x2) / o;
    assert (d3 / o) * x3 == (d3 * x3) / o;
    assert (d1 * x1) / o + (d2 * x2) / o + (d3 * x3) / o == (d1 * x1 + d2 * x2 + d3 * x3) / o;
  }

  /** A quotient of two reals of the same sign is not negative. */
  lemma QuotientNonNegative(o: real, d: real)
    requires o != 0.0 && (o > 0.0 ==> d >= 0.0) && (o < 0.0 ==> d <= 0.0)
    ensures d / o >= 0.0
  {
    if o < 0.0 {
      assert d / o == (-d) / (-o);
    }
  }

  /** Rotating the corners does not change the answer. */
  lemma PointInTriangleRotation(p: Point, v1: Point, v2: Point, v3: Point)
    ensures PointInTriangle(p, v1, v2, v3) == PointInTriangle(p, v2, v3, v1)
  {
  }

  /** Listing the corners in the opposite order does not change the answer either:
      the test works for clockwise and counter-clockwise triangles alike. */
  lemma PointInTriangleReversed(p: Point, v1: Point, v2: Point, v3: Point)
    ensures PointInTriangle(p, v1, v2, v3) == PointInTriangle(p, v3, v2, v1)
  {
    assert Sign(p, v3, v2) == -Sign(p, v2, v3);
    assert Sign(p, v2, v1) == -Sign(p, v1, v2);
    assert Sign(p, v1, v3) == -Sign(p, v3, v1);
  }

  /** The test is strict: none of the three circle points is inside its own circle. */
  lemma PointInCircleStrictAtCorners(a: Point, b: Point, c: Point)
    ensures !PointInCircle(a, b, c, a)
    ensures !PointInCircle(a, b, c, b)
    ensures !PointInCircle(a, b, c, c)
  {
  }

  /** Rotating a, b, c does not change the answer. */
  lemma PointInCircleRotation(a: Point, b: Point, c: Point, p: Point)
    ensures PointInCircle(a, b, c, p) == PointInCircle(b, c, a, p)
  {
    var d, e, f := Sub(a, p), Sub(b, p), Sub(c, p);
    Det3Rotation(d.x, d.y, Lift(d), e.x, e.y, Lift(e), f.x, f.y, Lift(f));
  }

  /** Rotating the three rows of a determinant keeps its value. */
  lemma Det3Rotation(dx: real, dy: real, ap: real, ex: real, ey: real, bp: real, fx: real, fy: real, cp: real)
    ensures Det3(ex, ey, bp, fx, fy, cp, dx, dy, ap) == Det3(dx, dy, ap, ex, ey, bp, fx, fy, cp)
  {
  }

  /** What the determinant means: given any centre o at squared distance r2 from a, b and c,
      the test holds exactly when (r2 - |p - o|^2) and the orientation of a, b, c have
      opposite strict signs. */
  lemma PointInCircleMeaning(a: Point, b: Point, c: Point, p: Point, o: Point, r2: real)
    requires SqDist(a, o) == r2 && SqDist(b, o) == r2 && SqDist(c, o) == r2
    ensures PointInCircle(a, b, c, p) <==> (r2 - SqDist(p, o)) * Orientation(a, b, c) < 0.0
  {
    var k := r2 - SqDist(p, o);
    var d, e, f := Sub(a, p), Sub(b, p), Sub(c, p);
    var flat := Det3(d.x, d.y, 1.0, e.x, e.y, 1.0, f.x, f.y, 1.0);
    var lifted := Det3(d.x, d.y, Lift(d), e.x, e.y, Lift(e), f.x, f.y, Lift(f));
    assert lifted == k * flat by {
      RowThroughCentre(a, p, o, r2, k);
      RowThroughCentre(b, p, o, r2, k);
      RowThroughCentre(c, p, o, r2, k);
      DeterminantOfLift(d, e, f, Sub(o, p), k);
    }
    assert InCircleDet(a, b, c, p) == lifted;
    assert flat == Orientation(a, b, c) by { OrientationTranslated(a, b, c, p); }
  }

  /** A point q on the circle of centre o and squared radius r2, translated by -p and lifted:
      its height is twice its dot product with o - p, plus k = r2 - |p - o|^2. */
  lemma RowThroughCentre(q: Point, p: Point, o: Point, r2: real, k: real)
    requires SqDist(q, o) == r2 && k == r2 - SqDist(p, o)
    ensures Lift(Sub(q, p)) == 2.0 * Dot(Sub(q, p), Sub(o, p)) + k
  {
  }

  /** The orientation of three points does not change when they are all translated by -p. */
  lemma OrientationTranslated(a: Point, b: Point, c: Point, p: Point)
    ensures var d, e, f := Sub(a, p), Sub(b, p), Sub(c, p);
            Det3(d.x, d.y, 1.0, e.x, e.y, 1.0, f.x, f.y, 1.0) == Orientation(a, b, c)
  {
  }

  /** A determinant whose third column is the lift of the rows, with every row lifted to
      twice its dot product with u plus k, equals k times the determinant with a third
      column of ones. */
  lemma DeterminantOfLift(d: Point, e: Point, f: Point, u: Point, k: real)
    requires Lift(d) == 2.0 * Dot(d, u) + k
    requires Lift(e) == 2.0 * Dot(e, u) + k
    requires Lift(f) == 2.0 * Dot(f, u) + k
    ensures Det3(d.x, d.y, Lift(d), e.x, e.y, Lift(e), f.x, f.y, Lift(f)) == k * Det3(d.x, d.y, 1.0, e.x, e.y, 1.0, f.x, f.y, 1.0)
  {
    ThirdColumnCombination(d.x, d.y, e.x, e.y, f.x, f.y, u.x, u.y, k, Lift(d), Lift(e), Lift(f));
  }

  /** A determinant whose third column is a linear combination of the other two plus the
      constant k equals k times the determinant with a third column of ones. */
  lemma ThirdColumnCombination(dx: real, dy: real, ex: real, ey: real, fx: real, fy: real,
                               ux: real, uy: real, k: real, ap: real, bp: real, cp: real)
    requires ap == 2.0 * (dx * ux + dy * uy) + k
    requires bp == 2.0 * (ex * ux + ey * uy) + k
    requires cp == 2.0 * (fx * ux + fy * uy) + k
    ensures Det3(dx, dy, ap, ex, ey, bp, fx, fy, cp) == k * Det3(dx, dy, 1.0, ex, ey, 1.0, fx, fy, 1.0)
  {
  }

  /** For a clockwise triangle (the orientation of the bootstrap triangle), the test is
      "strictly inside the circumcircle". */
  lemma PointInCircleClockwise(a: Point, b: Point, c: Point, p: Point, o: Point, r2: real)
    requires SqDist(a, o) == r2 && SqDist(b, o) == r2 && SqDist(c, o) == r2
    requires Orientation(a, b, c) < 0.0
    ensures PointInCircle(a, b, c, p) <==> SqDist(p, o) < r2
  {
    PointInCircleMeaning(a, b, c, p, o, r2);
    var k := r2 - SqDist(p, o);
    var w := Orientation(a, b, c);
    if k > 0.0 {
      assert k * w < 0.0;
    } else {
      assert k * w >= 0.0;
    }
  }
}
