/**
 * CreateContours: each glyph contour with more than one point becomes a
 * polygon of its on-curve points, with the implicit on-curve midpoint
 * between two consecutive off-curve points, and one curve triangle per
 * off-curve point. A triangle's BNode is the polygon node holding its B.
 */
module GlyphContours {
  import opened Wrappers
  import opened ControlPoints
  import opened Triangles
  import opened Polygons

  /** The polygons, the curve triangles and the next free node identity. */
  datatype Created = Created(polygons: seq<seq<Node>>, triangles: seq<Triangle>, nextId: nat)

  /** The cyclic predecessor index, a in the loop. */
  function PrevIndex(n: nat, i: nat): (a: nat)
    requires i < n
    ensures a < n
  {
    if i == 0 then n - 1 else i - 1
  }

  /** The cyclic successor index, b in the loop. */
  function NextIndex(n: nat, i: nat): (b: nat)
    requires i < n
    ensures b < n
  {
    if i + 1 < n then i + 1 else 0
  }

  lemma NextIndexMod(n: nat, i: nat)
    requires i < n
    ensures NextIndex(n, i) == (i + 1) % n
  {
  }

  /** B of the triangle at off-curve point i: the predecessor, or the midpoint with it. */
  function Before(c: seq<ControlPoint>, i: nat): ControlPoint
    requires i < |c|
  {
    var a := c[PrevIndex(|c|, i)];
    if a.isOnCurve then a else Mid(a, c[i])
  }

  /** C of the triangle at off-curve point i: the successor, or the midpoint with it. */
  function After(c: seq<ControlPoint>, i: nat): ControlPoint
    requires i < |c|
  {
    var b := c[(i + 1) % |c|];
    if b.isOnCurve then b else Mid(b, c[i])
  }

  function LastNode(k: nat, poly: seq<Node>): Option<NodeRef>
  {
    if |poly| == 0 then None else Some(NodeRef(k, poly[|poly| - 1].id))
  }

  function FirstNode(k: nat, poly: seq<Node>): Option<NodeRef>
  {
    if |poly| == 0 then None else Some(NodeRef(k, poly[0].id))
  }

  function OffCurveCount(c: seq<ControlPoint>): (n: nat)
    ensures n <= |c|
  {
    if |c| == 0 then 0 else OffCurveCount(c[..|c| - 1]) + (if c[|c| - 1].isOnCurve then 0 else 1)
  }

  /** t's BNode is node id - base of poly, which holds t's B. */
  predicate HoldsB(t: Triangle, k: nat, poly: seq<Node>, base: nat)
  {
    t.bNode.Some? && t.bNode.value.contour == k
    && base <= t.bNode.value.id < base + |poly| && poly[t.bNode.value.id - base].point == t.b
  }

  datatype Walked = Walked(poly: seq<Node>, triangles: seq<Triangle>, nextId: nat)

  /**
   * The walk over points 0 .. i-1 of contour k, nodes numbered from base. A
   * triangle's BNode is the last node so far, except at point 0, whose node
   * is chosen after the walk.
   */
  function Walk(c: seq<ControlPoint>, k: nat, base: nat, i: nat): (w: Walked)
    requires 2 <= |c| && i <= |c|
    ensures NumberedFrom(w.poly, base) && w.nextId == base + |w.poly|
  {
    if i == 0 then Walked([], [], base)
    else
      var w := Walk(c, k, base, i - 1);
      var j := i - 1;
      var point := c[j];
      if point.isOnCurve then
        Walked(w.poly + [Node(w.nextId, point)], w.triangles, w.nextId + 1)
      else
        var a := c[PrevIndex(|c|, j)];
        var poly := if a.isOnCurve then w.poly else w.poly + [Node(w.nextId, Mid(a, point))];
        var t := New(point, Before(c, j), After(c, j));
        var t' := if j > 0 then t.(bNode := LastNode(k, poly)) else t;
        Walked(poly, w.triangles + [t'], base + |poly|)
  }

  // ---- what a contour becomes ----

  /**
   * The polygon points that point j contributes: itself when on the curve;
   * when off it, the implicit on-curve midpoint with its predecessor if that
   * is off the curve too, else nothing.
   */
  function PointsAt(c: seq<ControlPoint>, j: nat): (ps: seq<ControlPoint>)
    requires j < |c|
    ensures c[j].isOnCurve ==> ps == [c[j]]
    ensures !c[j].isOnCurve && c[PrevIndex(|c|, j)].isOnCurve ==> ps == []
    ensures !c[j].isOnCurve && !c[PrevIndex(|c|, j)].isOnCurve ==> ps == [Mid(c[PrevIndex(|c|, j)], c[j])]
  {
    if c[j].isOnCurve then [c[j]]
    else if c[PrevIndex(|c|, j)].isOnCurve then []
    else [Mid(c[PrevIndex(|c|, j)], c[j])]
  }

  /** The contributions of points 0 .. i-1, in order. */
  function InnerPointsUpTo(c: seq<ControlPoint>, i: nat): (ps: seq<ControlPoint>)
    requires i <= |c|
  {
    if i == 0 then [] else InnerPointsUpTo(c, i - 1) + PointsAt(c, i - 1)
  }

  /** The polygon of a contour: its on-curve points and implicit midpoints, in contour order. */
  function InnerPoints(c: seq<ControlPoint>): (ps: seq<ControlPoint>)
  {
    InnerPointsUpTo(c, |c|)
  }

  /** The corners A, B, C of the curve triangle at point j, if it is off the curve. */
  function CornersAt(c: seq<ControlPoint>, j: nat): (cs: seq<(ControlPoint, ControlPoint, ControlPoint)>)
    requires j < |c|
    ensures c[j].isOnCurve ==> cs == []
    ensures !c[j].isOnCurve ==> cs == [(c[j], Before(c, j), After(c, j))]
  {
    if c[j].isOnCurve then [] else [(c[j], Before(c, j), After(c, j))]
  }

  function CurveCornersUpTo(c: seq<ControlPoint>, i: nat): (cs: seq<(ControlPoint, ControlPoint, ControlPoint)>)
    requires i <= |c|
  {
    if i == 0 then [] else CurveCornersUpTo(c, i - 1) + CornersAt(c, i - 1)
  }

  /** The curve triangles of a contour, one per off-curve point in contour order. */
  function CurveCorners(c: seq<ControlPoint>): (cs: seq<(ControlPoint, ControlPoint, ControlPoint)>)
  {
    CurveCornersUpTo(c, |c|)
  }

  /** The corners of each triangle. */
  function CornerTriples(ts: seq<Triangle>): (cs: seq<(ControlPoint, ControlPoint, ControlPoint)>)
    ensures |cs| == |ts| && forall j :: 0 <= j < |ts| ==> cs[j] == (ts[j].a, ts[j].b, ts[j].c)
  {
    seq(|ts|, j requires 0 <= j < |ts| => (ts[j].a, ts[j].b, ts[j].c))
  }

  lemma CornerTriplesAppend(ts: seq<Triangle>, us: seq<Triangle>)
    ensures CornerTriples(ts + us) == CornerTriples(ts) + CornerTriples(us)
  {
  }

  lemma PointsAppend(p: seq<Node>, q: seq<Node>)
    ensures Polygons.Points(p + q) == Polygons.Points(p) + Polygons.Points(q)
  {
  }

  /** A contour of on-curve points only is its own polygon and has no curve triangles. */
  lemma {:induction false} AllOnCurve(c: seq<ControlPoint>, i: nat)
    requires i <= |c| && forall j :: 0 <= j < |c| ==> c[j].isOnCurve
    ensures InnerPointsUpTo(c, i) == c[..i] && CurveCornersUpTo(c, i) == []
  {
    if i > 0 {
      AllOnCurve(c, i - 1);
      assert c[..i] == c[..i - 1] + [c[i - 1]];
    }
  }

  /** What point j contributes is in the polygon of points 0 .. i-1 for every i past j. */
  lemma {:induction false} PointsAtInner(c: seq<ControlPoint>, j: nat, i: nat)
    requires j < i <= |c|
    ensures forall p :: p in PointsAt(c, j) ==> p in InnerPointsUpTo(c, i)
  {
    if j < i - 1 {
      PointsAtInner(c, j, i - 1);
    }
  }

  /**
   * The two ends B and C of every curve triangle are points of the contour's
   * polygon: an on-curve neighbour, or the midpoint that the polygon holds
   * between two consecutive off-curve points.
   */
  lemma CurveEndsOnPolygon(c: seq<ControlPoint>, j: nat)
    requires 2 <= |c| && j < |c| && !c[j].isOnCurve
    ensures Before(c, j) in InnerPoints(c) && After(c, j) in InnerPoints(c)
  {
    BeforeOnPolygon(c, j);
    AfterOnPolygon(c, j);
  }

  lemma BeforeOnPolygon(c: seq<ControlPoint>, j: nat)
    requires 2 <= |c| && j < |c| && !c[j].isOnCurve
    ensures Before(c, j) in InnerPoints(c)
  {
    var a := PrevIndex(|c|, j);
    if c[a].isOnCurve {
      PointsAtInner(c, a, |c|);
      assert Before(c, j) in PointsAt(c, a);
    } else {
      PointsAtInner(c, j, |c|);
      assert Before(c, j) in PointsAt(c, j);
    }
  }

  lemma AfterOnPolygon(c: seq<ControlPoint>, j: nat)
    requires 2 <= |c| && j < |c| && !c[j].isOnCurve
    ensures After(c, j) in InnerPoints(c)
  {
    var b := (j + 1) % |c|;
    PointsAtInner(c, b, |c|);
    if !c[b].isOnCurve {
      assert PrevIndex(|c|, b) == j;
      MidCommutes(c[b], c[j]);
    }
    assert After(c, j) in PointsAt(c, b);
  }

  /** One step of the walk appends what point i-1 contributes, and its curve triangle. */
  lemma WalkStep(c: seq<ControlPoint>, k: nat, base: nat, i: nat)
    requires 2 <= |c| && 0 < i <= |c|
    ensures var w, w' := Walk(c, k, base, i - 1), Walk(c, k, base, i);
      |w.poly| <= |w'.poly| && w'.poly == w.poly + w'.poly[|w.poly|..]
      && Polygons.Points(w'.poly[|w.poly|..]) == PointsAt(c, i - 1)
      && |w.triangles| <= |w'.triangles| && w'.triangles == w.triangles + w'.triangles[|w.triangles|..]
      && CornerTriples(w'.triangles[|w.triangles|..]) == CornersAt(c, i - 1)
  {
    var w, w' := Walk(c, k, base, i - 1), Walk(c, k, base, i);
    var j := i - 1;
    if !c[j].isOnCurve {
      var t := w'.triangles[|w'.triangles| - 1];
      assert w'.triangles == w.triangles + [t];
      assert t.a == c[j] && t.b == Before(c, j) && t.c == After(c, j);
      assert w'.triangles[|w.triangles|..] == [t];
    }
  }

  /** The walk over points 0 .. i-1 lays out exactly their contributions and their curve triangles. */
  lemma {:induction false} WalkPoints(c: seq<ControlPoint>, k: nat, base: nat, i: nat)
    requires 2 <= |c| && i <= |c|
    ensures Polygons.Points(Walk(c, k, base, i).poly) == InnerPointsUpTo(c, i)
    ensures CornerTriples(Walk(c, k, base, i).triangles) == CurveCornersUpTo(c, i)
  {
    if i > 0 {
      WalkPoints(c, k, base, i - 1);
      WalkStep(c, k, base, i);
      var w, w' := Walk(c, k, base, i - 1), Walk(c, k, base, i);
      PointsAppend(w.poly, w'.poly[|w.poly|..]);
      CornerTriplesAppend(w.triangles, w'.triangles[|w.triangles|..]);
    }
  }

  /** Every triangle but the first has a node holding its B; the first has none when c0. */
  predicate HoldsAfterFirst(ts: seq<Triangle>, k: nat, poly: seq<Node>, base: nat, c0: bool)
  {
    forall j :: 0 <= j < |ts| ==> (if j == 0 && c0 then ts[j].bNode.None? else HoldsB(ts[j], k, poly, base))
  }

  /** Appending nodes keeps every BNode that already held. */
  lemma ExtendKeepsHold(ts: seq<Triangle>, k: nat, poly: seq<Node>, more: seq<Node>, base: nat, c0: bool)
    requires HoldsAfterFirst(ts, k, poly, base, c0)
    ensures HoldsAfterFirst(ts, k, poly + more, base, c0)
  {
    forall j | 0 <= j < |ts| && !(j == 0 && c0)
      ensures HoldsB(ts[j], k, poly + more, base)
    {
      assert HoldsB(ts[j], k, poly, base);
      assert (poly + more)[ts[j].bNode.value.id - base] == poly[ts[j].bNode.value.id - base];
    }
  }

  /** The walk over points 0 .. i-1 makes one triangle per off-curve point, its A that point. */
  lemma {:induction false} WalkCount(c: seq<ControlPoint>, k: nat, base: nat, i: nat)
    requires 2 <= |c| && i <= |c|
    ensures var w := Walk(c, k, base, i);
      |w.triangles| == OffCurveCount(c[..i])
      && forall j :: 0 <= j < |w.triangles| ==> !w.triangles[j].a.isOnCurve && !w.triangles[j].isInside
  {
    if i > 0 {
      WalkCount(c, k, base, i - 1);
      assert c[..i] == c[..i - 1] + [c[i - 1]];
      assert c[..i][..i - 1] == c[..i - 1];
    }
  }

  /** After an on-curve point its node is the last one. */
  lemma WalkLast(c: seq<ControlPoint>, k: nat, base: nat, i: nat)
    requires 2 <= |c| && 0 < i <= |c| && c[i - 1].isOnCurve
    ensures var w := Walk(c, k, base, i);
      |w.poly| > 0 && w.poly[|w.poly| - 1].point == c[i - 1]
  {
  }

  /** One more triangle that holds, or is the first and has no node. */
  lemma AppendHolds(ts: seq<Triangle>, t: Triangle, k: nat, poly: seq<Node>, base: nat, c0: bool)
    requires HoldsAfterFirst(ts, k, poly, base, c0)
    requires if |ts| == 0 && c0 then t.bNode.None? else HoldsB(t, k, poly, base)
    ensures HoldsAfterFirst(ts + [t], k, poly, base, c0)
  {
  }

  /** Every triangle of the walk but the one at point 0 has a node holding its B. */
  lemma {:induction false} WalkHolds(c: seq<ControlPoint>, k: nat, base: nat, i: nat)
    requires 2 <= |c| && i <= |c|
    ensures var w := Walk(c, k, base, i);
      HoldsAfterFirst(w.triangles, k, w.poly, base, !c[0].isOnCurve)
  {
    if i > 0 {
      WalkHolds(c, k, base, i - 1);
      var w := Walk(c, k, base, i - 1);
      var j := i - 1;
      var point := c[j];
      var w' := Walk(c, k, base, i);
      if point.isOnCurve {
        ExtendKeepsHold(w.triangles, k, w.poly, [Node(w.nextId, point)], base, !c[0].isOnCurve);
      } else {
        var a := c[PrevIndex(|c|, j)];
        var poly := if a.isOnCurve then w.poly else w.poly + [Node(w.nextId, Mid(a, point))];
        if !a.isOnCurve {
          ExtendKeepsHold(w.triangles, k, w.poly, [Node(w.nextId, Mid(a, point))], base, !c[0].isOnCurve);
        } else if j > 0 {
          WalkLast(c, k, base, j);
        }
        assert w'.poly == poly;
        var t' := w'.triangles[|w.triangles|];
        assert w'.triangles == w.triangles + [t'];
        if j > 0 {
          WalkEnds(c, k, base, j);
          assert |poly| > 0 && poly[|poly| - 1].point == Before(c, j);
          assert poly[|poly| - 1].id == base + |poly| - 1;
          assert t' == New(point, Before(c, j), After(c, j)).(bNode := Some(NodeRef(k, poly[|poly| - 1].id)));
        } else {
          assert t'.bNode.None?;
        }
        AppendHolds(w.triangles, t', k, poly, base, !c[0].isOnCurve);
      }
    }
  }

  /** The nodes and the triangle that decide point 0's BNode once the walk is over. */
  lemma {:induction false} WalkEnds(c: seq<ControlPoint>, k: nat, base: nat, i: nat)
    requires 2 <= |c| && i <= |c|
    ensures var w := Walk(c, k, base, i);
      (i > 0 && !c[0].isOnCurve ==> |w.triangles| > 0 && w.triangles[0].b == Before(c, 0))
      && (i > 0 && !c[0].isOnCurve && !c[|c| - 1].isOnCurve ==> |w.poly| > 0 && w.poly[0].point == Before(c, 0))
  {
    if i > 1 {
      WalkEnds(c, k, base, i - 1);
    }
  }

  /** One contour of more than one point: the walk, then the first triangle's node. */
  function ContourOf(c: seq<ControlPoint>, k: nat, base: nat): (w: Walked)
    requires 2 <= |c|
    ensures NumberedFrom(w.poly, base) && w.nextId == base + |w.poly|
    ensures |w.triangles| == OffCurveCount(c)
    ensures forall j :: 0 <= j < |w.triangles| ==>
      !w.triangles[j].a.isOnCurve && !w.triangles[j].isInside && HoldsB(w.triangles[j], k, w.poly, base)
  {
    var w := Walk(c, k, base, |c|);
    WalkCount(c, k, base, |c|);
    WalkHolds(c, k, base, |c|);
    WalkEnds(c, k, base, |c|);
    assert c[..|c|] == c;
    if c[0].isOnCurve then w
    else
      var node := if c[|c| - 1].isOnCurve then LastNode(k, w.poly) else FirstNode(k, w.poly);
      w.(triangles := w.triangles[0 := w.triangles[0].(bNode := node)])
  }

  /**
   * The polygon of a contour holds its on-curve points and implicit
   * midpoints in contour order, and its triangles have the corners of its
   * curve triangles, one per off-curve point.
   */
  lemma ContourPoints(c: seq<ControlPoint>, k: nat, base: nat)
    requires 2 <= |c|
    ensures Polygons.Points(ContourOf(c, k, base).poly) == InnerPoints(c)
    ensures CornerTriples(ContourOf(c, k, base).triangles) == CurveCorners(c)
  {
    var w := Walk(c, k, base, |c|);
    WalkPoints(c, k, base, |c|);
    assert c[..|c|] == c;
    if !c[0].isOnCurve {
      WalkEnds(c, k, base, |c|);
      var ts := ContourOf(c, k, base).triangles;
      assert |ts| == |w.triangles| && forall j :: 0 <= j < |ts| ==> (ts[j].a, ts[j].b, ts[j].c) == (w.triangles[j].a, w.triangles[j].b, w.triangles[j].c);
      assert CornerTriples(ts) == CornerTriples(w.triangles);
    }
  }

  /** The glyph contours 0 .. m-1 that become polygons: the non-null ones of more than one point, in order. */
  function KeptContours(contours: seq<Option<seq<ControlPoint>>>, m: nat): (kept: seq<seq<ControlPoint>>)
    requires m <= |contours|
    ensures |kept| <= m && forall k :: 0 <= k < |kept| ==> 2 <= |kept[k]|
  {
    if m == 0 then []
    else
      var more := if contours[m - 1].Some? && |contours[m - 1].value| > 1 then [contours[m - 1].value] else [];
      KeptContours(contours, m - 1) + more
  }

  /** The curve triangles of the contours one after the other. */
  function AllCurveCorners(cs: seq<seq<ControlPoint>>): (r: seq<(ControlPoint, ControlPoint, ControlPoint)>)
  {
    if |cs| == 0 then [] else AllCurveCorners(cs[..|cs| - 1]) + CurveCorners(cs[|cs| - 1])
  }

  /** The contours 0 .. m-1: a null one fails, those of fewer than two points are skipped. */
  function CreateContours(contours: seq<Option<seq<ControlPoint>>>, m: nat): (r: Result<Created, Fault>)
    requires m <= |contours|
    ensures r.Err? <==> exists i :: 0 <= i < m && contours[i].None?
    ensures r.Err? ==> r.error == NullReference
    ensures r.Ok? ==> |r.value.polygons| <= m
    ensures r.Ok? ==> forall t :: t in r.value.triangles ==>
      !t.a.isOnCurve && !t.isInside && t.bNode.Some? && t.bNode.value.contour < |r.value.polygons|
  {
    if m == 0 then Ok(Created([], [], 0))
    else
      var prior :- CreateContours(contours, m - 1);
      match contours[m - 1]
      case None => Err(NullReference)
      case Some(c) =>
        if |c| <= 1 then Ok(prior)
        else
          var k := |prior.polygons|;
          var w := ContourOf(c, k, prior.nextId);
          Ok(Created(prior.polygons + [w.poly], prior.triangles + w.triangles, w.nextId))
  }

  /** Polygon k holds the points of contour k, and the triangles are the contours' curve triangles in order. */
  predicate Describes(cr: Created, kept: seq<seq<ControlPoint>>)
  {
    |cr.polygons| == |kept|
    && (forall k :: 0 <= k < |kept| ==> Polygons.Points(cr.polygons[k]) == InnerPoints(kept[k]))
    && CornerTriples(cr.triangles) == AllCurveCorners(kept)
  }

  lemma DescribesNext(prior: Created, kept: seq<seq<ControlPoint>>, c: seq<ControlPoint>, w: Walked)
    requires Describes(prior, kept)
    requires Polygons.Points(w.poly) == InnerPoints(c) && CornerTriples(w.triangles) == CurveCorners(c)
    ensures Describes(Created(prior.polygons + [w.poly], prior.triangles + w.triangles, w.nextId), kept + [c])
  {
    assert (kept + [c])[..|kept|] == kept;
    CornerTriplesAppend(prior.triangles, w.triangles);
  }

  /**
   * Polygon k is the polygon of the k-th glyph contour that is not null and
   * has more than one point, and the curve triangles are those of these
   * contours one contour after the other.
   */
  lemma {:induction false} CreatedPolygons(contours: seq<Option<seq<ControlPoint>>>, m: nat)
    requires m <= |contours| && CreateContours(contours, m).Ok?
    ensures Describes(CreateContours(contours, m).value, KeptContours(contours, m))
  {
    if m > 0 {
      OkBefore(contours, m);
      CreatedPolygons(contours, m - 1);
      var prior := CreateContours(contours, m - 1).value;
      ContoursNext(contours, m - 1, prior);
      var c := contours[m - 1].value;
      var before := KeptContours(contours, m - 1);
      if |c| > 1 {
        var w := ContourOf(c, |prior.polygons|, prior.nextId);
        assert CreateContours(contours, m).value == Created(prior.polygons + [w.poly], prior.triangles + w.triangles, w.nextId);
        assert KeptContours(contours, m) == before + [c];
        ContourPoints(c, |prior.polygons|, prior.nextId);
        DescribesNext(prior, before, c, w);
      } else {
        assert CreateContours(contours, m).value == prior;
        assert KeptContours(contours, m) == before + [];
        assert before + [] == before;
      }
    }
  }

  /** t's BNode names a node of its polygon that holds t's B. */
  predicate Holds(polygons: seq<seq<Node>>, t: Triangle)
  {
    t.bNode.Some? && t.bNode.value.contour < |polygons|
    && exists m :: 0 <= m < |polygons[t.bNode.value.contour]|
         && polygons[t.bNode.value.contour][m].id == t.bNode.value.id
         && polygons[t.bNode.value.contour][m].point == t.b
  }

  /** Node identities stay below nextId. */
  predicate IdsBelow(polygons: seq<seq<Node>>, nextId: nat)
  {
    forall k, m :: 0 <= k < |polygons| && 0 <= m < |polygons[k]| ==> polygons[k][m].id < nextId
  }

  /** Every triangle's BNode is a node of the glyph that holds its B; identities are below nextId. */
  predicate Linked(c: Created)
  {
    IdsBelow(c.polygons, c.nextId) && forall t :: t in c.triangles ==> Holds(c.polygons, t)
  }

  /** Inserting a node after index m keeps every node, shifting those after m. */
  lemma InsertedKeeps(poly: seq<Node>, id: nat, node: Node, q: nat)
    requires AddAfter(poly, id, node).Ok? && q < |poly|
    ensures var m := NodeIndex(poly, id).value;
      AddAfter(poly, id, node).value[if q <= m then q else q + 1] == poly[q]
  {
    var r := AddAfter(poly, id, node).value;
    var m := NodeIndex(poly, id).value;
    if q <= m {
      assert r[..m + 1][q] == poly[..m + 1][q];
    } else {
      assert r[m + 2..][q - m - 1] == poly[m + 1..][q - m - 1];
    }
  }

  /** Inserting a fresh node after a node of polygon k keeps every linked triangle linked. */
  lemma InsertKeepsLinks(polygons: seq<seq<Node>>, nextId: nat, k: nat, id: nat, point: ControlPoint)
    requires k < |polygons| && IdsBelow(polygons, nextId) && NodeIndex(polygons[k], id).Some?
    ensures AddAfter(polygons[k], id, Node(nextId, point)).Ok?
    ensures var ps := polygons[k := AddAfter(polygons[k], id, Node(nextId, point)).value];
      IdsBelow(ps, nextId + 1) && (forall u :: Holds(polygons, u) ==> Holds(ps, u))
      && |ps[k]| == |polygons[k]| + 1 && ps[k][NodeIndex(polygons[k], id).value + 1] == Node(nextId, point)
  {
    var node := Node(nextId, point);
    var m := NodeIndex(polygons[k], id).value;
    var poly := AddAfter(polygons[k], id, node).value;
    var ps := polygons[k := poly];
    forall u | Holds(polygons, u)
      ensures Holds(ps, u)
    {
      var ku := u.bNode.value.contour;
      var q :| 0 <= q < |polygons[ku]| && polygons[ku][q].id == u.bNode.value.id && polygons[ku][q].point == u.b;
      if ku == k {
        InsertedKeeps(polygons[k], id, node, q);
        var q' := if q <= m then q else q + 1;
        assert ps[ku][q'] == polygons[ku][q];
      } else {
        assert ps[ku] == polygons[ku];
      }
    }
    assert poly[m + 1] == node;
    forall kk, q | 0 <= kk < |ps| && 0 <= q < |ps[kk]|
      ensures ps[kk][q].id < nextId + 1
    {
      if kk == k {
        if q <= m {
          InsertedKeeps(polygons[k], id, node, q);
        } else if q > m + 1 {
          InsertedKeeps(polygons[k], id, node, q - 1);
        }
      }
    }
  }

  /** Appending the walk of one more contour to linked contours keeps them linked. */
  lemma AppendLinked(prior: Created, w: Walked)
    requires Linked(prior)
    requires NumberedFrom(w.poly, prior.nextId) && w.nextId == prior.nextId + |w.poly|
    requires forall j :: 0 <= j < |w.triangles| ==> HoldsB(w.triangles[j], |prior.polygons|, w.poly, prior.nextId)
    ensures Linked(Created(prior.polygons + [w.poly], prior.triangles + w.triangles, w.nextId))
  {
    var k := |prior.polygons|;
    var polygons := prior.polygons + [w.poly];
    assert polygons[k] == w.poly;
    assert forall q :: 0 <= q < k ==> polygons[q] == prior.polygons[q];
    forall t | t in prior.triangles + w.triangles
      ensures Holds(polygons, t)
    {
      if t in prior.triangles {
        assert Holds(prior.polygons, t);
      } else {
        var j :| 0 <= j < |w.triangles| && w.triangles[j] == t;
        assert HoldsB(w.triangles[j], k, w.poly, prior.nextId);
        var q := t.bNode.value.id - prior.nextId;
        assert polygons[k][q].id == t.bNode.value.id;
      }
    }
    assert IdsBelow(polygons, w.nextId);
  }

  /** CreateContours over one more contour, given the contours before it. */
  lemma ContoursNext(contours: seq<Option<seq<ControlPoint>>>, m: nat, prior: Created)
    requires m < |contours| && CreateContours(contours, m) == Ok(prior)
    ensures CreateContours(contours, m + 1) ==
      match contours[m]
      case None => Err(NullReference)
      case Some(c) =>
        if |c| <= 1 then Ok(prior)
        else
          var w := ContourOf(c, |prior.polygons|, prior.nextId);
          Ok(Created(prior.polygons + [w.poly], prior.triangles + w.triangles, w.nextId))
  {
  }

  /** One more contour keeps the contours created so far linked. */
  lemma LinkedNext(contours: seq<Option<seq<ControlPoint>>>, m: nat, prior: Created)
    requires m < |contours| && CreateContours(contours, m) == Ok(prior) && Linked(prior)
    requires CreateContours(contours, m + 1).Ok?
    ensures Linked(CreateContours(contours, m + 1).value)
  {
    ContoursNext(contours, m, prior);
    var c := contours[m].value;
    if |c| > 1 {
      var w := ContourOf(c, |prior.polygons|, prior.nextId);
      AppendLinked(prior, w);
    }
  }

  /** A success over m contours is one over the contours before the last. */
  lemma OkBefore(contours: seq<Option<seq<ControlPoint>>>, m: nat)
    requires 0 < m <= |contours| && CreateContours(contours, m).Ok?
    ensures CreateContours(contours, m - 1).Ok?
  {
  }

  /** The contours as created are linked: each triangle's node holds its B. */
  lemma {:induction false} CreatedLinked(contours: seq<Option<seq<ControlPoint>>>, m: nat)
    requires m <= |contours|
    requires CreateContours(contours, m).Ok?
    ensures Linked(CreateContours(contours, m).value)
  {
    if m > 0 {
      OkBefore(contours, m);
      CreatedLinked(contours, m - 1);
      LinkedNext(contours, m - 1, CreateContours(contours, m - 1).value);
    }
  }

  lemma {:induction false} FailureStays(contours: seq<Option<seq<ControlPoint>>>, m: nat, n: nat)
    requires m <= n <= |contours|
    requires CreateContours(contours, m).Err?
    ensures CreateContours(contours, n) == CreateContours(contours, m)
    decreases n - m
  {
    if m < n {
      FailureStays(contours, m + 1, n);
    }
  }

  /**
   * One pass of the loop over a contour's points: point i, with a and b its
   * cyclic neighbours. The triangle at point 0 is reported, its node unset.
   */
  method VisitPoint(c: seq<ControlPoint>, k: nat, base: nat, i: nat, a: nat, b: nat, w: Walked)
    returns (w': Walked, isFirst: bool)
    requires 2 <= |c| && i < |c| && a == PrevIndex(|c|, i) && b == (i + 1) % |c|
    requires w == Walk(c, k, base, i)
    ensures w' == Walk(c, k, base, i + 1)
    ensures isFirst <==> i == 0 && !c[0].isOnCurve
  {
    var innerPoints, triangles, nextId := w.poly, w.triangles, w.nextId;
    isFirst := false;
    var point := c[i];
    if point.isOnCurve {
      innerPoints := innerPoints + [Node(nextId, point)];
      nextId := nextId + 1;
    } else {
      var pointBefore := c[a];
      if !pointBefore.isOnCurve {
        pointBefore := Mid(pointBefore, point);
        innerPoints := innerPoints + [Node(nextId, pointBefore)];
        nextId := nextId + 1;
      }
      var pointAfter := c[b];
      if !pointAfter.isOnCurve {
        pointAfter := Mid(pointAfter, point);
      }
      var triangle := New(point, pointBefore, pointAfter);
      if i > 0 {
        triangle := triangle.(bNode := LastNode(k, innerPoints));
      } else {
        isFirst := true;
      }
      triangles := triangles + [triangle];
    }
    w' := Walked(innerPoints, triangles, nextId);
  }

  /** The loop over one contour's points, then the node of the triangle at point 0. */
  method WalkContour(c: seq<ControlPoint>, k: nat, base: nat) returns (w: Walked)
    requires 2 <= |c|
    ensures w == ContourOf(c, k, base)
  {
    w := Walked([], [], base);
    var firstTriangle: Option<nat> := None;
    var a, b := |c| - 1, 1;
    for i := 0 to |c|
      invariant w == Walk(c, k, base, i)
      invariant i < |c| ==> a == PrevIndex(|c|, i) && b == NextIndex(|c|, i)
      invariant firstTriangle == if i > 0 && !c[0].isOnCurve then Some(0) else None
    {
      var isFirst;
      var count := |w.triangles|;
      NextIndexMod(|c|, i);
      w, isFirst := VisitPoint(c, k, base, i, a, b, w);
      if isFirst {
        firstTriangle := Some(count);
      }
      NextIndexMod(|c|, b);
      a, b := i, (b + 1) % |c|;
    }
    WalkCount(c, k, base, |c|);
    WalkHolds(c, k, base, |c|);
    WalkEnds(c, k, base, |c|);
    if firstTriangle.Some? && w.triangles[firstTriangle.value].bNode.None? {
      var node := if c[|c| - 1].isOnCurve then LastNode(k, w.poly) else FirstNode(k, w.poly);
      w := w.(triangles := w.triangles[firstTriangle.value := w.triangles[firstTriangle.value].(bNode := node)]);
    }
  }

  /** CreateContours: the loop over the glyph's contours. */
  method CreateContoursOf(glyphContours: seq<Option<seq<ControlPoint>>>) returns (r: Result<Created, Fault>)
    ensures r == CreateContours(glyphContours, |glyphContours|)
  {
    var polygons: seq<seq<Node>> := [];
    var triangles: seq<Triangle> := [];
    var nextId := 0;
    for m := 0 to |glyphContours|
      invariant CreateContours(glyphContours, m) == Ok(Created(polygons, triangles, nextId))
    {
      ContoursNext(glyphContours, m, Created(polygons, triangles, nextId));
      if glyphContours[m].None? {
        FailureStays(glyphContours, m + 1, |glyphContours|);
        return Err(NullReference);
      }
      var contour := glyphContours[m].value;
      if |contour| > 1 {
        var w := WalkContour(contour, |polygons|, nextId);
        polygons := polygons + [w.poly];
        triangles := triangles + w.triangles;
        nextId := w.nextId;
      }
    }
    return Ok(Created(polygons, triangles, nextId));
  }
}
