/**
 * Curve triangles: the off-curve control point A of a quadratic segment with
 * the segment's end points B and C. The point-in-polygon test counts the
 * quadrant turns of the polygon around the point.
 */
module Triangles {
  import opened Wrappers
  import opened ControlPoints

  /** A node of one of the glyph's polygons: the polygon's index and the node's identity. */
  datatype NodeRef = NodeRef(contour: nat, id: nat)

  /**
   * A, B, C; BNode, the polygon node holding B (null until the glyph sets
   * it); and whether the triangle lies inside the outline.
   */
  datatype Triangle = Triangle(a: ControlPoint, b: ControlPoint, c: ControlPoint, bNode: Option<NodeRef>, isInside: bool)

  function New(a: ControlPoint, b: ControlPoint, c: ControlPoint): (t: Triangle)
    ensures t.a == a && t.b == b && t.c == c && t.bNode.None? && !t.isInside
  {
    Triangle(a, b, c, None, false)
  }

  // ---- point in polygon ----

  /**
   * The quadrant of v around p: 0 and 1 below or level, 3 and 2 above; 0 and
   * 3 left or level, 1 and 2 right.
   */
  function Quadrant(v: ControlPoint, p: ControlPoint): (q: int)
    ensures 0 <= q < 4
    ensures (q == 0 || q == 1) <==> v.y <= p.y
    ensures (q == 0 || q == 3) <==> v.x <= p.x
  {
    if v.y <= p.y then (if v.x <= p.x then 0 else 1)
    else if v.x <= p.x then 3
    else 2
  }

  /** Where the line through v1 and v2 meets p's row. */
  function CrossingX(v1: ControlPoint, v2: ControlPoint, p: ControlPoint): real
    requires v1.y != v2.y
  {
    (v2.x - v1.x) * (p.y - v1.y) / (v2.y - v1.y) + v1.x
  }

  /**
   * The change of the turn count along the edge v1 -> v2: the quadrant
   * difference, and for a jump across two quadrants +2 or -2 after the side
   * of the crossing; None when the edge crosses p's row exactly at p.
   */
  function Turn(v1: ControlPoint, v2: ControlPoint, p: ControlPoint): (r: Option<int>)
    ensures r.Some? ==> -2 <= r.value <= 2
    ensures r.Some? ==> r.value % 4 == (Quadrant(v2, p) - Quadrant(v1, p)) % 4
    ensures r.None? ==> (Quadrant(v2, p) - Quadrant(v1, p)) % 4 == 2
  {
    var d := (Quadrant(v2, p) - Quadrant(v1, p)) % 4;
    if d == 0 then Some(0)
    else if d == 1 then Some(1)
    else if d == 3 then Some(-1)
    else
      var zx := CrossingX(v1, v2, p);
      if p.x - zx == 0.0 then None
      else if (p.x > zx) == (v2.y > v1.y) then Some(-2)
      else Some(2)
  }

  /** The vertex before vertex i, cyclically. */
  function Prev(polygon: seq<ControlPoint>, i: nat): ControlPoint
    requires i < |polygon|
  {
    if i == 0 then polygon[|polygon| - 1] else polygon[i - 1]
  }

  /** The turn count over the edges into vertices 0 .. n-1; None once an edge hits the point. */
  function Alpha(polygon: seq<ControlPoint>, p: ControlPoint, n: nat): Option<int>
    requires n <= |polygon|
  {
    if n == 0 then Some(0)
    else
      match Alpha(polygon, p, n - 1)
      case None => None
      case Some(a) =>
        match Turn(Prev(polygon, n - 1), polygon[n - 1], p)
        case None => None
        case Some(d) => Some(a + d)
  }

  /** The polygon contains the point: an edge passes through it, or the turns add up to +-4. */
  predicate Encloses(polygon: seq<ControlPoint>, p: ControlPoint)
  {
    match Alpha(polygon, p, |polygon|)
    case None => true
    case Some(a) => a == 4 || a == -4
  }

  lemma {:induction false} NoneStaysNone(polygon: seq<ControlPoint>, p: ControlPoint, m: nat, n: nat)
    requires m <= n <= |polygon|
    requires Alpha(polygon, p, m).None?
    ensures Alpha(polygon, p, n).None?
    decreases n - m
  {
    if m < n {
      NoneStaysNone(polygon, p, m + 1, n);
    }
  }

  /** After the edges into vertices 0 .. n-1 the count agrees with the quadrant travelled, modulo 4. */
  lemma {:induction false} AlphaTracksQuadrant(polygon: seq<ControlPoint>, p: ControlPoint, n: nat)
    requires 1 <= n <= |polygon|
    requires Alpha(polygon, p, n).Some?
    ensures Alpha(polygon, p, n).value % 4
            == (Quadrant(polygon[n - 1], p) - Quadrant(polygon[|polygon| - 1], p)) % 4
  {
    var last := Quadrant(polygon[|polygon| - 1], p);
    var here := Quadrant(polygon[n - 1], p);
    var before := Quadrant(Prev(polygon, n - 1), p);
    var d := Turn(Prev(polygon, n - 1), polygon[n - 1], p).value;
    if n > 1 {
      var a := Alpha(polygon, p, n - 1).value;
      AlphaTracksQuadrant(polygon, p, n - 1);
      assert Alpha(polygon, p, n).value == a + d;
      ModSum(a, d, before - last, here - before);
    }
  }

  lemma ModSum(a: int, d: int, x: int, y: int)
    requires a % 4 == x % 4 && d % 4 == y % 4
    ensures (a + d) % 4 == (x + y) % 4
  {
    assert a == 4 * (a / 4) + a % 4 && x == 4 * (x / 4) + x % 4;
    assert d == 4 * (d / 4) + d % 4 && y == 4 * (y / 4) + y % 4;
    var s := a % 4 + d % 4;
    assert a + d == 4 * (a / 4 + d / 4) + s;
    assert x + y == 4 * (x / 4 + y / 4) + s;
  }

  /** Around a closed polygon that misses the point, the count is a whole number of turns. */
  lemma WholeTurns(polygon: seq<ControlPoint>, p: ControlPoint)
    requires |polygon| > 0
    requires Alpha(polygon, p, |polygon|).Some?
    ensures Alpha(polygon, p, |polygon|).value % 4 == 0
  {
    AlphaTracksQuadrant(polygon, p, |polygon|);
  }

  /** Contains: one pass over the edges, stopping at the first edge through the point. */
  method Contains(polygon: seq<ControlPoint>, point: ControlPoint) returns (r: bool)
    requires |polygon| > 0
    ensures r == Encloses(polygon, point)
  {
    var alpha := 0;
    var v1 := polygon[|polygon| - 1];
    var q1 := Quadrant(v1, point);
    for i := 0 to |polygon|
      invariant Alpha(polygon, point, i) == Some(alpha)
      invariant v1 == if i == 0 then polygon[|polygon| - 1] else polygon[i - 1]
      invariant q1 == Quadrant(v1, point)
    {
      var v2 := polygon[i];
      var q2 := Quadrant(v2, point);
      var d := (q2 - q1) % 4;
      assert Prev(polygon, i) == v1;
      if d == 0 {
        assert Turn(v1, v2, point) == Some(0);
      } else if d == 1 {
        assert Turn(v1, v2, point) == Some(1);
        alpha := alpha + 1;
      } else if d == 3 {
        assert Turn(v1, v2, point) == Some(-1);
        alpha := alpha - 1;
      } else {
        assert v2.y != v1.y;
        var zx := CrossingX(v1, v2, point);
        assert d == 2;
        if point.x - zx == 0.0 {
          assert Turn(v1, v2, point).None?;
          NoneStaysNone(polygon, point, i + 1, |polygon|);
          return true;
        }
        if (point.x > zx) == (v2.y > v1.y) {
          assert Turn(v1, v2, point) == Some(-2);
          alpha := alpha - 2;
        } else {
          assert Turn(v1, v2, point) == Some(2);
          alpha := alpha + 2;
        }
      }
      v1, q1 := v2, q2;
    }
    return alpha == 4 || alpha == -4;
  }

  // ---- triangles ----

  function Corners(t: Triangle): (polygon: seq<ControlPoint>)
    ensures |polygon| == 3
  {
    [t.a, t.b, t.c]
  }

  /** Some corner of either triangle lies in the other. */
  predicate IntersectsWith(t: Triangle, other: Triangle)
  {
    Encloses(Corners(other), t.a) || Encloses(Corners(other), t.b) || Encloses(Corners(other), t.c)
    || Encloses(Corners(t), other.a) || Encloses(Corners(t), other.b) || Encloses(Corners(t), other.c)
  }

  lemma IntersectsWithSymmetric(t: Triangle, other: Triangle)
    ensures IntersectsWith(t, other) <==> IntersectsWith(other, t)
  {
  }

  function Abs(x: real): real
  {
    if x < 0.0 then -x else x
  }

  /** |(B - A) x (C - A)|: twice the geometric area. */
  function Area(t: Triangle): (r: real)
    ensures r >= 0.0
    ensures r == 0.0 <==> VectorProduct(Subtract(t.b, t.a), Subtract(t.c, t.a)) == 0.0
  {
    Abs(VectorProduct(Subtract(t.b, t.a), Subtract(t.c, t.a)))
  }

  datatype Halves = Halves(first: Triangle, second: Triangle, newOnPoint: ControlPoint)

  /**
   * Split at the curve's midpoint: with a1 = mid(B, A), a2 = mid(C, A) and
   * cb = mid(a1, a2), the halves are (a1, B, cb) and (a2, cb, C).
   */
  function Split(t: Triangle): (r: Halves)
    ensures r.newOnPoint.x == (t.b.x + 2.0 * t.a.x + t.c.x) / 4.0
    ensures r.newOnPoint.y == (t.b.y + 2.0 * t.a.y + t.c.y) / 4.0
    ensures !r.newOnPoint.isOnCurve
    ensures r.first.b == t.b && r.second.c == t.c
    ensures r.first.c == r.newOnPoint && r.second.b == r.newOnPoint
    ensures r.first.bNode.None? && r.second.bNode.None?
  {
    var a1 := Mid(t.b, t.a);
    var a2 := Mid(t.c, t.a);
    var cb := Mid(a1, a2);
    Halves(New(a1, t.b, cb), New(a2, cb, t.c), cb)
  }

  /** The quadratic Bezier curve from p0 to p2 with control point p1, at parameter s. */
  function Bezier(p0: ControlPoint, p1: ControlPoint, p2: ControlPoint, s: real): ControlPoint
  {
    var w0, w1, w2 := (1.0 - s) * (1.0 - s), 2.0 * s * (1.0 - s), s * s;
    At(w0 * p0.x + w1 * p1.x + w2 * p2.x, w0 * p0.y + w1 * p1.y + w2 * p2.y)
  }

  /** The new on-curve point is the curve's point at parameter one half. */
  lemma SplitOnCurve(t: Triangle)
    ensures Equals(Split(t).newOnPoint, Bezier(t.b, t.a, t.c, 0.5))
  {
  }

  /** Each half has exactly one eighth of the parent's Area(). */
  lemma SplitAreas(t: Triangle)
    ensures Area(Split(t).first) == Area(t) / 8.0
    ensures Area(Split(t).second) == Area(t) / 8.0
  {
    var h := Split(t);
    var ux, uy := t.b.x - t.a.x, t.b.y - t.a.y;
    var vx, vy := t.c.x - t.a.x, t.c.y - t.a.y;
    var parent := ux * vy - uy * vx;
    assert VectorProduct(Subtract(t.b, t.a), Subtract(t.c, t.a)) == parent;
    // first half: B - a1 = (B - A)/2 and cb - a1 = (C - B)/4
    assert Subtract(h.first.b, h.first.a).x == ux / 2.0 && Subtract(h.first.b, h.first.a).y == uy / 2.0;
    assert Subtract(h.first.c, h.first.a).x == (vx - ux) / 4.0 && Subtract(h.first.c, h.first.a).y == (vy - uy) / 4.0;
    assert (ux / 2.0) * ((vy - uy) / 4.0) - (uy / 2.0) * ((vx - ux) / 4.0) == parent / 8.0;
    // second half: cb - a2 = (B - C)/4 and C - a2 = C/2
    assert Subtract(h.second.b, h.second.a).x == (ux - vx) / 4.0 && Subtract(h.second.b, h.second.a).y == (uy - vy) / 4.0;
    assert Subtract(h.second.c, h.second.a).x == vx / 2.0 && Subtract(h.second.c, h.second.a).y == vy / 2.0;
    assert ((ux - vx) / 4.0) * (vy / 2.0) - ((uy - vy) / 4.0) * (vx / 2.0) == parent / 8.0;
  }
}
