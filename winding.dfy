/**
 * GetWindingNumber: a ray from the point towards +x; each contour edge that
 * crosses the point's row contributes +1 going down and -1 going up, when it
 * meets the row at or to the right of the point. The edges are those of the
 * glyph's own contours, off-curve points included.
 */
module Winding {
  import opened ControlPoints
  import opened Triangles
  import opened GlyphContours

  /** The edge passes strictly from above the point's row to strictly below it. */
  predicate Down(pa: ControlPoint, pb: ControlPoint, p: ControlPoint)
  {
    pa.y > p.y && pb.y < p.y
  }

  /** The edge passes strictly from below the point's row to strictly above it. */
  predicate Up(pa: ControlPoint, pb: ControlPoint, p: ControlPoint)
  {
    pa.y < p.y && pb.y > p.y
  }

  /** The end points lie on opposite sides of the point's column, neither on it. */
  predicate StraddlesColumn(pa: ControlPoint, pb: ControlPoint, p: ControlPoint)
  {
    (pa.x > p.x && pb.x < p.x) || (pa.x < p.x && pb.x > p.x)
  }

  /**
   * The parameters t (along the ray p -> p + (1000, 0)) and u (along the edge)
   * of the intersection of the two lines, as the source computes them.
   */
  function RayParameters(pa: ControlPoint, pb: ControlPoint, p: ControlPoint): (tu: (real, real))
    requires pa.y != pb.y
    ensures tu.1 == (p.y - pa.y) / (pb.y - pa.y)
  {
    var r := Subtract(At(p.x + 1000.0, p.y), p);
    var s := Subtract(pb, pa);
    assert VectorProduct(r, s) == 1000.0 * (pb.y - pa.y);
    assert VectorProduct(s, r) == -1000.0 * (pb.y - pa.y);
    var u := VectorProduct(Subtract(p, pa), r) / VectorProduct(s, r);
    assert u * (-1000.0 * (pb.y - pa.y)) == -1000.0 * (p.y - pa.y);
    (VectorProduct(Subtract(pa, p), s) / VectorProduct(r, s), u)
  }

  /** t >= 0 and 0 <= u <= 1. */
  predicate RayHits(pa: ControlPoint, pb: ControlPoint, p: ControlPoint)
    requires pa.y != pb.y
  {
    var (t, u) := RayParameters(pa, pb, p);
    t >= 0.0 && u >= 0.0 && u <= 1.0
  }

  /** The contribution of the edge pa -> pb, as written. */
  function Crossing(pa: ControlPoint, pb: ControlPoint, p: ControlPoint): (d: int)
    ensures -1 <= d <= 1
    ensures d == 1 ==> Down(pa, pb, p)
    ensures d == -1 ==> Up(pa, pb, p)
  {
    if Down(pa, pb, p) then
      if pa.x > p.x && pb.x > p.x then 1
      else if StraddlesColumn(pa, pb, p) then (if RayHits(pa, pb, p) then 1 else 0)
      else 0
    else if Up(pa, pb, p) then
      if pa.x > p.x && pb.x > p.x then -1
      else if StraddlesColumn(pa, pb, p) then (if RayHits(pa, pb, p) then -1 else 0)
      else 0
    else 0
  }

  /**
   * The contribution with the column test corrected: a crossing edge counts
   * whenever it meets the point's row at or to the right of the point, also
   * when one end point lies on the point's column.
   */
  function RightCrossing(pa: ControlPoint, pb: ControlPoint, p: ControlPoint): (d: int)
    ensures -1 <= d <= 1
  {
    if Down(pa, pb, p) then (if CrossingX(pa, pb, p) >= p.x then 1 else 0)
    else if Up(pa, pb, p) then (if CrossingX(pa, pb, p) >= p.x then -1 else 0)
    else 0
  }

  // ---- the edge contribution ----

  /** A quotient strictly between 0 and 1. */
  lemma ProperFraction(a: real, d: real)
    requires (0.0 < a < d) || (d < a < 0.0)
    ensures 0.0 < a / d < 1.0
  {
    var q := a / d;
    assert q * d == a;
    if d > 0.0 {
      PositiveFactor(q, d);
      assert (1.0 - q) * d == d - a;
      PositiveFactor(1.0 - q, d);
    } else {
      assert q * -d == -a;
      PositiveFactor(q, -d);
      assert (1.0 - q) * -d == a - d;
      PositiveFactor(1.0 - q, -d);
    }
  }

  lemma PositiveFactor(x: real, y: real)
    requires y > 0.0 && x * y > 0.0
    ensures x > 0.0
  {
  }

  lemma NonNegativeProduct(x: real, y: real)
    requires x >= 0.0 && y >= 0.0
    ensures x * y >= 0.0
  {
  }

  lemma NonPositiveProduct(x: real, y: real)
    requires x <= 0.0 && y >= 0.0
    ensures x * y <= 0.0
  {
  }

  lemma NegativeProduct(x: real, y: real)
    requires x < 0.0 && y > 0.0
    ensures x * y < 0.0
  {
  }

  lemma PositiveProduct(x: real, y: real)
    requires x > 0.0 && y > 0.0
    ensures x * y > 0.0
  {
  }

  lemma ZeroProduct(x: real, y: real)
    requires x * y == 0.0 && y != 0.0
    ensures x == 0.0
  {
  }

  /** Where a crossing edge meets the point's row, as a fraction of the edge. */
  function EdgeFraction(pa: ControlPoint, pb: ControlPoint, p: ControlPoint): (l: real)
    requires Down(pa, pb, p) || Up(pa, pb, p)
    ensures 0.0 < l < 1.0
    ensures l * (pb.y - pa.y) == p.y - pa.y
    ensures CrossingX(pa, pb, p) == pa.x + l * (pb.x - pa.x)
  {
    ProperFraction(p.y - pa.y, pb.y - pa.y);
    (p.y - pa.y) / (pb.y - pa.y)
  }

  /** For a crossing edge, t >= 0 exactly when the crossing lies at or right of p; u is always in range. */
  lemma RayHitsAtOrRight(pa: ControlPoint, pb: ControlPoint, p: ControlPoint)
    requires Down(pa, pb, p) || Up(pa, pb, p)
    ensures RayHits(pa, pb, p) <==> CrossingX(pa, pb, p) >= p.x
  {
    var dy := pb.y - pa.y;
    var l := EdgeFraction(pa, pb, p);
    var (t, u) := RayParameters(pa, pb, p);
    assert u == l;
    var zx := CrossingX(pa, pb, p);
    var s := Subtract(pb, pa);
    var r := Subtract(At(p.x + 1000.0, p.y), p);
    var n := VectorProduct(Subtract(pa, p), s);
    assert t == n / (1000.0 * dy);
    assert n == (pa.x - p.x) * dy - (pa.y - p.y) * (pb.x - pa.x);
    assert n == (pa.x - p.x) * dy + (l * dy) * (pb.x - pa.x);
    assert n == (zx - p.x) * dy;
    assert t == (zx - p.x) / 1000.0;
  }

  /** The crossing of an edge lies between its end points' x coordinates. */
  lemma CrossingBetween(pa: ControlPoint, pb: ControlPoint, p: ControlPoint)
    requires Down(pa, pb, p) || Up(pa, pb, p)
    ensures pa.x > p.x && pb.x > p.x ==> CrossingX(pa, pb, p) > p.x
    ensures pa.x <= p.x && pb.x <= p.x ==> CrossingX(pa, pb, p) <= p.x
    ensures pa.x < p.x && pb.x <= p.x ==> CrossingX(pa, pb, p) < p.x
    ensures pa.x <= p.x && pb.x < p.x ==> CrossingX(pa, pb, p) < p.x
  {
    var l := EdgeFraction(pa, pb, p);
    assert CrossingX(pa, pb, p) - p.x == (1.0 - l) * (pa.x - p.x) + l * (pb.x - p.x);
  }

  /**
   * The edge counts +1 when it runs down across the point's row and -1 when it
   * runs up, exactly when both end points lie right of the point, or they lie
   * on both sides of its column and the crossing is at or right of it; edges
   * with an end point on the row, or not crossing it, count 0.
   */
  lemma CrossingCounts(pa: ControlPoint, pb: ControlPoint, p: ControlPoint)
    ensures Crossing(pa, pb, p) == 1 <==>
      Down(pa, pb, p) && ((pa.x > p.x && pb.x > p.x) || (StraddlesColumn(pa, pb, p) && CrossingX(pa, pb, p) >= p.x))
    ensures Crossing(pa, pb, p) == -1 <==>
      Up(pa, pb, p) && ((pa.x > p.x && pb.x > p.x) || (StraddlesColumn(pa, pb, p) && CrossingX(pa, pb, p) >= p.x))
    ensures pa.y == p.y || pb.y == p.y ==> Crossing(pa, pb, p) == 0
  {
    if Down(pa, pb, p) || Up(pa, pb, p) {
      RayHitsAtOrRight(pa, pb, p);
    }
  }

  /** Away from the point's column the source's count and the corrected one agree. */
  lemma CrossingAgrees(pa: ControlPoint, pb: ControlPoint, p: ControlPoint)
    requires pa.x != p.x && pb.x != p.x
    ensures Crossing(pa, pb, p) == RightCrossing(pa, pb, p)
  {
    CrossingCounts(pa, pb, p);
    if Down(pa, pb, p) || Up(pa, pb, p) {
      CrossingBetween(pa, pb, p);
    }
  }

  /** The point a fraction l of the way from pa to pb. */
  function OnEdge(pa: ControlPoint, pb: ControlPoint, l: real): (q: ControlPoint)
    ensures q.y - pa.y == l * (pb.y - pa.y) && q.x - pa.x == l * (pb.x - pa.x)
  {
    At(pa.x + l * (pb.x - pa.x), pa.y + l * (pb.y - pa.y))
  }

  /** The edge meets the ray from p towards +x at a point strictly between its end points. */
  ghost predicate MeetsRay(pa: ControlPoint, pb: ControlPoint, p: ControlPoint)
  {
    exists l: real :: 0.0 < l < 1.0 && OnEdge(pa, pb, l).y == p.y && OnEdge(pa, pb, l).x >= p.x
  }

  /** A crossing edge meets the point's row only at its crossing. */
  lemma MeetsRowOnce(pa: ControlPoint, pb: ControlPoint, p: ControlPoint, l': real)
    requires Down(pa, pb, p) || Up(pa, pb, p)
    requires OnEdge(pa, pb, l').y == p.y
    ensures l' == EdgeFraction(pa, pb, p) && OnEdge(pa, pb, l').x == CrossingX(pa, pb, p)
  {
    var l := EdgeFraction(pa, pb, p);
    assert (l' - l) * (pb.y - pa.y) == 0.0;
    ZeroProduct(l' - l, pb.y - pa.y);
  }

  /** An edge with both end points on one side of the point's row does not meet it in between. */
  lemma OneSideMissesRow(pa: ControlPoint, pb: ControlPoint, p: ControlPoint, l: real)
    requires (pa.y < p.y && pb.y < p.y) || (pa.y > p.y && pb.y > p.y)
    requires 0.0 < l < 1.0
    ensures OnEdge(pa, pb, l).y != p.y
  {
    assert OnEdge(pa, pb, l).y - p.y == (1.0 - l) * (pa.y - p.y) + l * (pb.y - p.y);
    if pa.y < p.y {
      NonPositiveProduct(pa.y - p.y, 1.0 - l);
      NegativeProduct(pb.y - p.y, l);
    } else {
      NonNegativeProduct(pa.y - p.y, 1.0 - l);
      PositiveProduct(pb.y - p.y, l);
    }
  }

  /**
   * The corrected count is nonzero exactly for the edges that meet the ray
   * from the point, when neither end point lies on the point's row; its sign
   * is the edge's direction.
   */
  lemma RightCrossingMeetsRay(pa: ControlPoint, pb: ControlPoint, p: ControlPoint)
    requires pa.y != p.y && pb.y != p.y
    ensures RightCrossing(pa, pb, p) != 0 <==> MeetsRay(pa, pb, p)
    ensures RightCrossing(pa, pb, p) == 1 ==> Down(pa, pb, p)
    ensures RightCrossing(pa, pb, p) == -1 ==> Up(pa, pb, p)
  {
    if Down(pa, pb, p) || Up(pa, pb, p) {
      var l := EdgeFraction(pa, pb, p);
      MeetsRowOnce(pa, pb, p, l);
      if MeetsRay(pa, pb, p) {
        var l' :| 0.0 < l' < 1.0 && OnEdge(pa, pb, l').y == p.y && OnEdge(pa, pb, l').x >= p.x;
        MeetsRowOnce(pa, pb, p, l');
      }
    } else if MeetsRay(pa, pb, p) {
      var l :| 0.0 < l < 1.0 && OnEdge(pa, pb, l).y == p.y && OnEdge(pa, pb, l).x >= p.x;
      OneSideMissesRow(pa, pb, p, l);
    }
  }

  /** Reversing an edge negates its count, as written and corrected. */
  lemma CrossingReversed(pa: ControlPoint, pb: ControlPoint, p: ControlPoint)
    ensures Crossing(pb, pa, p) == -Crossing(pa, pb, p)
    ensures RightCrossing(pb, pa, p) == -RightCrossing(pa, pb, p)
  {
    if Down(pa, pb, p) || Up(pa, pb, p) {
      assert CrossingX(pb, pa, p) == CrossingX(pa, pb, p) by {
        var l := EdgeFraction(pa, pb, p);
        var l' := EdgeFraction(pb, pa, p);
        assert l' * (pa.y - pb.y) == p.y - pb.y;
        assert (l + l' - 1.0) * (pb.y - pa.y) == 0.0;
        ZeroProduct(l + l' - 1.0, pb.y - pa.y);
      }
      CrossingCounts(pa, pb, p);
      CrossingCounts(pb, pa, p);
    }
  }

  // ---- the winding number ----

  datatype Rule = AsWritten | Corrected

  function Count(rule: Rule, pa: ControlPoint, pb: ControlPoint, p: ControlPoint): (d: int)
    ensures -1 <= d <= 1
  {
    match rule
    case AsWritten => Crossing(pa, pb, p)
    case Corrected => RightCrossing(pa, pb, p)
  }

  /** The edges into points 0 .. n-1 of the contour, each from its cyclic predecessor. */
  function EdgeSum(rule: Rule, c: seq<ControlPoint>, p: ControlPoint, n: nat): (w: int)
    requires n <= |c|
    ensures -(n as int) <= w <= n
  {
    if n == 0 then 0
    else EdgeSum(rule, c, p, n - 1) + Count(rule, c[PrevIndex(|c|, n - 1)], c[n - 1], p)
  }

  /** The contours 0 .. m-1. */
  function WindingNumber(rule: Rule, contours: seq<seq<ControlPoint>>, p: ControlPoint, m: nat): int
    requires m <= |contours|
  {
    if m == 0 then 0
    else WindingNumber(rule, contours, p, m - 1) + EdgeSum(rule, contours[m - 1], p, |contours[m - 1]|)
  }

  /** A contour lying wholly above, or wholly below, the point's row adds nothing. */
  lemma {:induction false} OneSideAddsNothing(rule: Rule, c: seq<ControlPoint>, p: ControlPoint, n: nat)
    requires n <= |c|
    requires (forall k :: 0 <= k < |c| ==> c[k].y > p.y) || (forall k :: 0 <= k < |c| ==> c[k].y < p.y)
    ensures EdgeSum(rule, c, p, n) == 0
  {
    if n > 0 {
      OneSideAddsNothing(rule, c, p, n - 1);
      var pa := c[PrevIndex(|c|, n - 1)];
      var pb := c[n - 1];
      assert !Down(pa, pb, p) && !Up(pa, pb, p);
    }
  }

  /** When no contour point lies on the point's column, both rules give the same winding number. */
  lemma {:induction false} RulesAgree(contours: seq<seq<ControlPoint>>, p: ControlPoint, m: nat)
    requires m <= |contours|
    requires forall i, k :: 0 <= i < |contours| && 0 <= k < |contours[i]| ==> contours[i][k].x != p.x
    ensures WindingNumber(AsWritten, contours, p, m) == WindingNumber(Corrected, contours, p, m)
  {
    if m > 0 {
      RulesAgree(contours, p, m - 1);
      EdgesAgree(contours[m - 1], p, |contours[m - 1]|);
    }
  }

  lemma {:induction false} EdgesAgree(c: seq<ControlPoint>, p: ControlPoint, n: nat)
    requires n <= |c|
    requires forall k :: 0 <= k < |c| ==> c[k].x != p.x
    ensures EdgeSum(AsWritten, c, p, n) == EdgeSum(Corrected, c, p, n)
  {
    if n > 0 {
      EdgesAgree(c, p, n - 1);
      CrossingAgrees(c[PrevIndex(|c|, n - 1)], c[n - 1], p);
    }
  }

  /**
   * The triangle (0, 1), (2, -1), (-2, -1) surrounds the origin, yet as
   * written its winding number there is 0: the edge from (0, 1) down to
   * (2, -1) starts on the origin's column and is not counted although it
   * crosses the ray at x = 1. The corrected count gives 1.
   */
  lemma ColumnEndpointMissed()
    ensures var contour := [At(0.0, 1.0), At(2.0, -1.0), At(-2.0, -1.0)];
      WindingNumber(AsWritten, [contour], At(0.0, 0.0), 1) == 0
      && WindingNumber(Corrected, [contour], At(0.0, 0.0), 1) == 1
      && MeetsRay(contour[0], contour[1], At(0.0, 0.0))
  {
    var contour := [At(0.0, 1.0), At(2.0, -1.0), At(-2.0, -1.0)];
    var p := At(0.0, 0.0);
    assert CrossingX(contour[2], contour[0], p) == -1.0;
    assert CrossingX(contour[0], contour[1], p) == 1.0;
    assert Crossing(contour[2], contour[0], p) == 0;
    assert Crossing(contour[0], contour[1], p) == 0;
    assert Crossing(contour[1], contour[2], p) == 0;
    assert EdgeSum(AsWritten, contour, p, 3) == 0;
    assert EdgeSum(Corrected, contour, p, 3) == 1;
    assert OnEdge(contour[0], contour[1], 0.5) == At(1.0, 0.0);
  }

  // ---- the loops ----

  /** The inner loop over one contour: a trails b by one, cyclically. */
  method ContourWinding(rule: Rule, c: seq<ControlPoint>, p: ControlPoint) returns (w: int)
    ensures w == EdgeSum(rule, c, p, |c|)
  {
    w := 0;
    if |c| == 0 {
      return;
    }
    var a := |c| - 1;
    var b := 0;
    while b < |c|
      invariant b <= |c|
      invariant b < |c| ==> a == PrevIndex(|c|, b)
      invariant w == EdgeSum(rule, c, p, b)
    {
      w := w + Count(rule, c[a], c[b], p);
      a := b;
      b := b + 1;
    }
  }

  /** GetWindingNumber over the glyph's contours. */
  method GetWindingNumber(rule: Rule, contours: seq<seq<ControlPoint>>, p: ControlPoint) returns (w: int)
    ensures w == WindingNumber(rule, contours, p, |contours|)
  {
    w := 0;
    for i := 0 to |contours|
      invariant w == WindingNumber(rule, contours, p, i)
    {
      var cw := ContourWinding(rule, contours[i], p);
      w := w + cw;
    }
  }
}
