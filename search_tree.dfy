/**
 * The union of the glyph's polygons comes back as a forest of contours, each
 * either an outer boundary or a hole. SearchTree walks it in pre-order and
 * turns it into the triangulator's input: every contour's points, the ring of
 * segments around each contour, and for each hole one seed point that lies
 * inside the hole and outside everything nested in it.
 */
module SearchTrees {
  import opened Wrappers
  import opened ControlPoints
  import opened Triangles
  import opened Polygons
  import opened GlyphContours

  /** A node of the union's result; the root itself carries no contour. */
  datatype PolyNode = PolyNode(contour: seq<ControlPoint>, isHole: bool, children: seq<PolyNode>)

  /** The triangulator's input: points, segments between point indices, hole seeds. */
  datatype Geometry = Geometry(points: seq<(real, real)>, segments: seq<(int, int)>, holes: seq<(real, real)>)

  function Coordinates(contour: seq<ControlPoint>): (ps: seq<(real, real)>)
    ensures |ps| == |contour|
    ensures forall m :: 0 <= m < |contour| ==> ps[m] == (contour[m].x, contour[m].y)
  {
    seq(|contour|, m requires 0 <= m < |contour| => (contour[m].x, contour[m].y))
  }

  // ---- the containment test of the hole search ----

  /** Contains on a contour: indexing the last point of an empty contour fails. */
  function Checked(polygon: seq<ControlPoint>, p: ControlPoint): (r: Result<bool, Fault>)
    ensures r.Err? <==> |polygon| == 0
    ensures r.Err? ==> r.error == IndexOutOfRange
    ensures r.Ok? ==> r.value == Encloses(polygon, p)
  {
    if |polygon| == 0 then Err(IndexOutOfRange) else Ok(Encloses(polygon, p))
  }

  /** Children i, i+1, ... tested in order, stopping at the first that contains p. */
  function ChildFrom(children: seq<PolyNode>, i: nat, p: ControlPoint): (r: Result<bool, Fault>)
    requires i <= |children|
    ensures r == Ok(false) <==> forall m :: i <= m < |children| ==> |children[m].contour| > 0 && !Encloses(children[m].contour, p)
    ensures r == Ok(true) ==> exists m :: i <= m < |children| && Encloses(children[m].contour, p)
    ensures r.Err? ==> r.error == IndexOutOfRange
    decreases |children| - i
  {
    if i == |children| then Ok(false)
    else
      var hit :- Checked(children[i].contour, p);
      if hit then Ok(true) else ChildFrom(children, i + 1, p)
  }

  /** IsInside: inside the node's own contour and inside none of its children's. */
  function InsideNode(node: PolyNode, p: ControlPoint): (r: Result<bool, Fault>)
    ensures r.Err? ==> r.error == IndexOutOfRange
  {
    var inChild :- ChildFrom(node.children, 0, p);
    if inChild then Ok(false) else Checked(node.contour, p)
  }

  // ---- the hole seed ----

  /** The halving loop: a2 + c * x for x = 1, 1/2, 1/4, ... until the point is inside the hole. */
  function Halve(node: PolyNode, a2: ControlPoint, c: ControlPoint, x: real, fuel: nat): (r: Result<ControlPoint, Fault>)
    decreases fuel
  {
    if fuel == 0 then Err(NoHoleSeed)
    else
      var hole := Add(a2, Multiply(c, x / 2.0));
      var inside :- InsideNode(node, hole);
      if inside then Ok(hole) else Halve(node, a2, c, x / 2.0, fuel - 1)
  }

  /** The corner at point i of a contour: k, j, i are consecutive points, cyclically. */
  function Turning(contour: seq<ControlPoint>, i: nat): real
    requires i < |contour|
  {
    var j := PrevIndex(|contour|, i);
    var a1 := contour[PrevIndex(|contour|, j)];
    VectorProduct(Subtract(contour[j], a1), Subtract(contour[i], a1))
  }

  /**
   * The corner scan from i on: at the first corner turning clockwise, the seed
   * is searched on the way from its apex a2 to the midpoint of its neighbours.
   * A one-point contour fails on its index k = -1.
   */
  function SeedFrom(node: PolyNode, i: nat, fuel: nat): (r: Result<Option<ControlPoint>, Fault>)
    decreases |node.contour| - i
  {
    var n := |node.contour|;
    if i >= n then Ok(None)
    else if n == 1 then Err(IndexOutOfRange)
    else if Turning(node.contour, i) < 0.0 then
      var j := PrevIndex(n, i);
      var a1, a2, a3 := node.contour[PrevIndex(n, j)], node.contour[j], node.contour[i];
      var hole :- Halve(node, a2, Subtract(Mid(a1, a3), a2), 2.0, fuel);
      Ok(Some(hole))
    else SeedFrom(node, i + 1, fuel)
  }

  function HoleSeed(node: PolyNode, fuel: nat): Result<Option<ControlPoint>, Fault>
  {
    SeedFrom(node, 0, fuel)
  }

  // ---- the walk ----

  /** The open chain of segments while a contour's points are added: (s, s+1), (s+1, s+2), ... */
  function Chain(start: int, m: nat): (s: seq<(int, int)>)
    ensures |s| == if m == 0 then 0 else m - 1
    ensures forall t :: 0 <= t < |s| ==> s[t] == (start + t, start + t + 1)
  {
    seq(if m == 0 then 0 else m - 1, t => (start + t, start + t + 1))
  }

  /** The chain plus the closing segment from the last point back to the first. */
  function Ring(start: int, n: nat): seq<(int, int)>
  {
    Chain(start, n) + [(start + n - 1, start)]
  }

  /** The points and ring of one contour appended at point index `start`. */
  function Emit(g: Geometry, contour: seq<ControlPoint>, start: int): Geometry
  {
    g.(points := g.points + Coordinates(contour), segments := g.segments + Ring(start, |contour|))
  }

  function AddHole(g: Geometry, seed: Option<ControlPoint>): Geometry
  {
    if seed.Some? then g.(holes := g.holes + [(seed.value.x, seed.value.y)]) else g
  }

  /** One child of a node: its contour, its hole seed when it is a hole, then its own subtree. */
  function Descend(node: PolyNode, i: nat, fuel: nat, g: Geometry, pointIndex: int): Result<(Geometry, int), Fault>
    requires i < |node.children|
    decreases node, |node.children| - i, 0
  {
    var child := node.children[i];
    assert child in node.children;
    var seed :- if child.isHole then HoleSeed(child, fuel) else Ok(None);
    SearchFrom(child, 0, fuel, AddHole(Emit(g, child.contour, pointIndex), seed), pointIndex + |child.contour|)
  }

  /** SearchTree over children i, i+1, ... of a node, with the point index threaded through. */
  function SearchFrom(node: PolyNode, i: nat, fuel: nat, g: Geometry, pointIndex: int): Result<(Geometry, int), Fault>
    requires i <= |node.children|
    decreases node, |node.children| - i, 1
  {
    if i == |node.children| then Ok((g, pointIndex))
    else
      var below :- Descend(node, i, fuel, g, pointIndex);
      SearchFrom(node, i + 1, fuel, below.0, below.1)
  }

  /** The reference order: a child's contour, then its subtree, then its later siblings. */
  function Preorder(node: PolyNode, i: nat): seq<ControlPoint>
    requires i <= |node.children|
    decreases node, |node.children| - i
  {
    if i == |node.children| then []
    else
      assert node.children[i] in node.children;
      node.children[i].contour + Preorder(node.children[i], 0) + Preorder(node, i + 1)
  }

  /** Every contour from child i on, subtrees included, has a point. */
  predicate NonEmpty(node: PolyNode, i: nat)
    requires i <= |node.children|
    decreases node, |node.children| - i, 1
  {
    i == |node.children| || (NonEmptyBelow(node, i) && NonEmpty(node, i + 1))
  }

  predicate NonEmptyBelow(node: PolyNode, i: nat)
    requires i < |node.children|
    decreases node, |node.children| - i, 0
  {
    assert node.children[i] in node.children;
    |node.children[i].contour| > 0 && NonEmpty(node.children[i], 0)
  }

  /** Some hole among child i, its later siblings and their subtrees has h inside it and outside its children. */
  predicate SeededIn(node: PolyNode, i: nat, h: (real, real))
    requires i <= |node.children|
    decreases node, |node.children| - i, 1
  {
    i < |node.children| && (SeededBelow(node, i, h) || SeededIn(node, i + 1, h))
  }

  predicate SeededBelow(node: PolyNode, i: nat, h: (real, real))
    requires i < |node.children|
    decreases node, |node.children| - i, 0
  {
    assert node.children[i] in node.children;
    (node.children[i].isHole && InsideNode(node.children[i], At(h.0, h.1)) == Ok(true))
    || SeededIn(node.children[i], 0, h)
  }

  // ---- properties ----

  /** The closing segment makes the ring cyclic: segment m joins point m to point m+1 modulo n. */
  lemma RingCloses(start: int, n: nat)
    requires n > 0
    ensures |Ring(start, n)| == n
    ensures forall m :: 0 <= m < n ==> Ring(start, n)[m] == (start + m, start + (m + 1) % n)
  {
    var r := Ring(start, n);
    forall m | 0 <= m < n
      ensures r[m] == (start + m, start + (m + 1) % n)
    {
      if m < n - 1 {
        assert r[m] == Chain(start, n)[m];
      }
    }
  }

  /** A one-point contour closes on itself; an empty one adds the single segment (start-1, start). */
  lemma RingDegenerate(start: int)
    ensures Ring(start, 1) == [(start, start)]
    ensures Ring(start, 0) == [(start - 1, start)]
  {
  }

  /** The halving search only ever returns a point inside the hole and outside its children. */
  lemma {:induction false} HalveInside(node: PolyNode, a2: ControlPoint, c: ControlPoint, x: real, fuel: nat)
    requires x > 0.0 && Halve(node, a2, c, x, fuel).Ok?
    ensures var h := Halve(node, a2, c, x, fuel).value;
      |node.contour| > 0 && Encloses(node.contour, h)
      && forall m :: 0 <= m < |node.children| ==> |node.children[m].contour| > 0 && !Encloses(node.children[m].contour, h)
    ensures exists s :: 0.0 < s <= x / 2.0 && Halve(node, a2, c, x, fuel).value == Add(a2, Multiply(c, s))
    decreases fuel
  {
    var hole := Add(a2, Multiply(c, x / 2.0));
    if InsideNode(node, hole) != Ok(true) {
      HalveInside(node, a2, c, x / 2.0, fuel - 1);
      var s :| 0.0 < s <= x / 4.0 && Halve(node, a2, c, x / 2.0, fuel - 1).value == Add(a2, Multiply(c, s));
      assert s <= x / 2.0;
    }
  }

  /** A seed found by the corner scan is inside the hole and outside everything nested in it. */
  lemma {:induction false} SeedInside(node: PolyNode, i: nat, fuel: nat)
    requires SeedFrom(node, i, fuel).Ok? && SeedFrom(node, i, fuel).value.Some?
    ensures InsideNode(node, SeedFrom(node, i, fuel).value.value) == Ok(true)
    decreases |node.contour| - i
  {
    var n := |node.contour|;
    if Turning(node.contour, i) < 0.0 {
      var j := PrevIndex(n, i);
      var a1, a2, a3 := node.contour[PrevIndex(n, j)], node.contour[j], node.contour[i];
      HalveInside(node, a2, Subtract(Mid(a1, a3), a2), 2.0, fuel);
    } else {
      SeedInside(node, i + 1, fuel);
    }
  }

  /** No seed exactly when no corner from i on turns clockwise (for a contour of two or more points). */
  lemma {:induction false} SeedNone(node: PolyNode, i: nat, fuel: nat)
    requires |node.contour| != 1
    ensures SeedFrom(node, i, fuel) == Ok(None)
      ==> forall m :: i <= m < |node.contour| ==> Turning(node.contour, m) >= 0.0
    ensures (forall m :: i <= m < |node.contour| ==> Turning(node.contour, m) >= 0.0)
      ==> SeedFrom(node, i, fuel) == Ok(None)
    decreases |node.contour| - i
  {
    if i < |node.contour| {
      SeedNone(node, i + 1, fuel);
      if Turning(node.contour, i) < 0.0 {
        var n := |node.contour|;
        var j := PrevIndex(n, i);
        var a1, a2, a3 := node.contour[PrevIndex(n, j)], node.contour[j], node.contour[i];
        var h := Halve(node, a2, Subtract(Mid(a1, a3), a2), 2.0, fuel);
        assert h.Err? ==> SeedFrom(node, i, fuel) == Err(h.error);
      }
    }
  }

  lemma CoordinatesAppend(a: seq<ControlPoint>, b: seq<ControlPoint>)
    ensures Coordinates(a + b) == Coordinates(a) + Coordinates(b)
  {
  }

  /** The points are the pre-order concatenation of the contours; the index advances by their number. */
  lemma {:induction false} SearchPoints(node: PolyNode, i: nat, fuel: nat, g: Geometry, p: int)
    requires i <= |node.children| && SearchFrom(node, i, fuel, g, p).Ok?
    ensures SearchFrom(node, i, fuel, g, p).value.0.points == g.points + Coordinates(Preorder(node, i))
    ensures SearchFrom(node, i, fuel, g, p).value.1 == p + |Preorder(node, i)|
    decreases node, |node.children| - i, 1
  {
    if i < |node.children| {
      DescendPoints(node, i, fuel, g, p);
      var below := Descend(node, i, fuel, g, p).value;
      SearchPoints(node, i + 1, fuel, below.0, below.1);
      assert node.children[i] in node.children;
      CoordinatesAppend(node.children[i].contour + Preorder(node.children[i], 0), Preorder(node, i + 1));
    }
  }

  lemma {:induction false} DescendPoints(node: PolyNode, i: nat, fuel: nat, g: Geometry, p: int)
    requires i < |node.children| && Descend(node, i, fuel, g, p).Ok?
    ensures var child := node.children[i];
      Descend(node, i, fuel, g, p).value.0.points == g.points + Coordinates(child.contour + Preorder(child, 0))
      && Descend(node, i, fuel, g, p).value.1 == p + |child.contour + Preorder(child, 0)|
    decreases node, |node.children| - i, 0
  {
    var child := node.children[i];
    assert child in node.children;
    var seed := (if child.isHole then HoleSeed(child, fuel) else Ok(None)).value;
    ChildPoints(child, fuel, g, p, seed);
  }

  /** The child's contour, then its subtree, whatever seed it was given. */
  lemma {:induction false} ChildPoints(child: PolyNode, fuel: nat, g: Geometry, p: int, seed: Option<ControlPoint>)
    requires SearchFrom(child, 0, fuel, AddHole(Emit(g, child.contour, p), seed), p + |child.contour|).Ok?
    ensures var r := SearchFrom(child, 0, fuel, AddHole(Emit(g, child.contour, p), seed), p + |child.contour|).value;
      r.0.points == g.points + Coordinates(child.contour + Preorder(child, 0))
      && r.1 == p + |child.contour + Preorder(child, 0)|
    decreases child, |child.children| + 1, 0
  {
    var g1 := AddHole(Emit(g, child.contour, p), seed);
    assert g1.points == g.points + Coordinates(child.contour);
    SearchPoints(child, 0, fuel, g1, p + |child.contour|);
    CoordinatesAppend(child.contour, Preorder(child, 0));
  }

  /** Segments the walk adds join points the walk itself added, when no contour is empty. */
  lemma {:induction false} SearchSegments(node: PolyNode, i: nat, fuel: nat, g: Geometry, p: int)
    requires i <= |node.children| && NonEmpty(node, i) && SearchFrom(node, i, fuel, g, p).Ok?
    ensures var (h, q) := SearchFrom(node, i, fuel, g, p).value;
      p <= q && |g.segments| <= |h.segments| && h.segments[..|g.segments|] == g.segments
      && forall m :: |g.segments| <= m < |h.segments| ==> p <= h.segments[m].0 < q && p <= h.segments[m].1 < q
    decreases node, |node.children| - i, 1
  {
    if i < |node.children| {
      DescendSegments(node, i, fuel, g, p);
      var below := Descend(node, i, fuel, g, p).value;
      SearchSegments(node, i + 1, fuel, below.0, below.1);
      var h := SearchFrom(node, i, fuel, g, p).value;
      forall m | |g.segments| <= m < |h.0.segments|
        ensures p <= h.0.segments[m].0 < h.1 && p <= h.0.segments[m].1 < h.1
      {
        if m < |below.0.segments| {
          assert h.0.segments[m] == below.0.segments[m];
        }
      }
    }
  }

  lemma {:induction false} DescendSegments(node: PolyNode, i: nat, fuel: nat, g: Geometry, p: int)
    requires i < |node.children| && NonEmptyBelow(node, i) && Descend(node, i, fuel, g, p).Ok?
    ensures var (h, q) := Descend(node, i, fuel, g, p).value;
      p <= q && |g.segments| <= |h.segments| && h.segments[..|g.segments|] == g.segments
      && forall m :: |g.segments| <= m < |h.segments| ==> p <= h.segments[m].0 < q && p <= h.segments[m].1 < q
    decreases node, |node.children| - i, 0
  {
    var child := node.children[i];
    assert child in node.children;
    var seed := (if child.isHole then HoleSeed(child, fuel) else Ok(None)).value;
    var g1 := AddHole(Emit(g, child.contour, p), seed);
    var p1 := p + |child.contour|;
    SearchSegments(child, 0, fuel, g1, p1);
    RingCloses(p, |child.contour|);
    var h := SearchFrom(child, 0, fuel, g1, p1).value;
    forall m | |g.segments| <= m < |h.0.segments|
      ensures p <= h.0.segments[m].0 < h.1 && p <= h.0.segments[m].1 < h.1
    {
      if m < |g1.segments| {
        assert h.0.segments[m] == g1.segments[m] == Ring(p, |child.contour|)[m - |g.segments|];
      }
    }
  }

  /** Each seed the walk adds lies inside some hole of the forest and outside that hole's children. */
  lemma {:induction false} SearchHoles(node: PolyNode, i: nat, fuel: nat, g: Geometry, p: int)
    requires i <= |node.children| && SearchFrom(node, i, fuel, g, p).Ok?
    ensures var h := SearchFrom(node, i, fuel, g, p).value.0;
      |g.holes| <= |h.holes| && h.holes[..|g.holes|] == g.holes
      && forall m :: |g.holes| <= m < |h.holes| ==> SeededIn(node, i, h.holes[m])
    decreases node, |node.children| - i, 1
  {
    if i < |node.children| {
      DescendHoles(node, i, fuel, g, p);
      var below := Descend(node, i, fuel, g, p).value;
      SearchHoles(node, i + 1, fuel, below.0, below.1);
      var h := SearchFrom(node, i, fuel, g, p).value.0;
      forall m | |g.holes| <= m < |h.holes|
        ensures SeededIn(node, i, h.holes[m])
      {
        if m < |below.0.holes| {
          assert h.holes[m] == below.0.holes[m];
        }
      }
    }
  }

  lemma {:induction false} DescendHoles(node: PolyNode, i: nat, fuel: nat, g: Geometry, p: int)
    requires i < |node.children| && Descend(node, i, fuel, g, p).Ok?
    ensures var h := Descend(node, i, fuel, g, p).value.0;
      |g.holes| <= |h.holes| && h.holes[..|g.holes|] == g.holes
      && forall m :: |g.holes| <= m < |h.holes| ==> SeededBelow(node, i, h.holes[m])
    decreases node, |node.children| - i, 0
  {
    var child := node.children[i];
    assert child in node.children;
    var seed := (if child.isHole then HoleSeed(child, fuel) else Ok(None)).value;
    if seed.Some? {
      HoleSeedInside(child, fuel);
    }
    ChildHoles(child, fuel, g, p, seed);
  }

  /** The child's own seed, if any, then the seeds of its subtree. */
  lemma {:induction false} ChildHoles(child: PolyNode, fuel: nat, g: Geometry, p: int, seed: Option<ControlPoint>)
    requires seed.Some? ==> child.isHole && InsideNode(child, At(seed.value.x, seed.value.y)) == Ok(true)
    requires SearchFrom(child, 0, fuel, AddHole(Emit(g, child.contour, p), seed), p + |child.contour|).Ok?
    ensures var h := SearchFrom(child, 0, fuel, AddHole(Emit(g, child.contour, p), seed), p + |child.contour|).value.0;
      |g.holes| <= |h.holes| && h.holes[..|g.holes|] == g.holes
      && forall m :: |g.holes| <= m < |h.holes| ==>
           (child.isHole && InsideNode(child, At(h.holes[m].0, h.holes[m].1)) == Ok(true)) || SeededIn(child, 0, h.holes[m])
    decreases child, |child.children| + 1, 0
  {
    var g1 := AddHole(Emit(g, child.contour, p), seed);
    SearchHoles(child, 0, fuel, g1, p + |child.contour|);
    var h := SearchFrom(child, 0, fuel, g1, p + |child.contour|).value.0;
    assert |g.holes| <= |g1.holes| <= |g.holes| + 1;
    forall m | |g.holes| <= m < |h.holes|
      ensures (child.isHole && InsideNode(child, At(h.holes[m].0, h.holes[m].1)) == Ok(true)) || SeededIn(child, 0, h.holes[m])
    {
      if m < |g1.holes| {
        assert h.holes[m] == g1.holes[m] == (seed.value.x, seed.value.y);
      }
    }
  }

  /** HoleSeed: a seed, as the coordinates handed to the triangulator, is inside the hole and outside its children. */
  lemma HoleSeedInside(node: PolyNode, fuel: nat)
    requires HoleSeed(node, fuel).Ok? && HoleSeed(node, fuel).value.Some?
    ensures var s := HoleSeed(node, fuel).value.value; InsideNode(node, At(s.x, s.y)) == Ok(true)
  {
    var s := HoleSeed(node, fuel).value.value;
    SeedInside(node, 0, fuel);
    SeedOffCurve(node, 0, fuel);
    assert At(s.x, s.y) == s;
  }

  /** Seeds are built by Add, so they carry no on-curve flag. */
  lemma {:induction false} SeedOffCurve(node: PolyNode, i: nat, fuel: nat)
    requires SeedFrom(node, i, fuel).Ok? && SeedFrom(node, i, fuel).value.Some?
    ensures !SeedFrom(node, i, fuel).value.value.isOnCurve
    decreases |node.contour| - i
  {
    if Turning(node.contour, i) < 0.0 {
      var n := |node.contour|;
      var j := PrevIndex(n, i);
      var a1, a2, a3 := node.contour[PrevIndex(n, j)], node.contour[j], node.contour[i];
      HalveInside(node, a2, Subtract(Mid(a1, a3), a2), 2.0, fuel);
    } else {
      SeedOffCurve(node, i + 1, fuel);
    }
  }

  // ---- the walk as the converter runs it ----

  /** IsInside: the children first, each through Contains, then the node's own contour. */
  method InsideNodeOf(node: PolyNode, point: ControlPoint) returns (r: Result<bool, Fault>)
    ensures r == InsideNode(node, point)
  {
    for i := 0 to |node.children|
      invariant ChildFrom(node.children, 0, point) == ChildFrom(node.children, i, point)
    {
      var contour := node.children[i].contour;
      if |contour| == 0 {
        return Err(IndexOutOfRange);
      }
      var hit := Contains(contour, point);
      if hit {
        return Ok(false);
      }
    }
    if |node.contour| == 0 {
      return Err(IndexOutOfRange);
    }
    var inside := Contains(node.contour, point);
    return Ok(inside);
  }

  /** One round of the halving loop, given the containment verdict on its candidate. */
  lemma HalveStep(node: PolyNode, a2: ControlPoint, c: ControlPoint, x: real, fuel: nat, inside: Result<bool, Fault>)
    requires fuel > 0 && inside == InsideNode(node, Add(a2, Multiply(c, x / 2.0)))
    ensures inside.Err? ==> Halve(node, a2, c, x, fuel) == Err(inside.error)
    ensures inside == Ok(true) ==> Halve(node, a2, c, x, fuel) == Ok(Add(a2, Multiply(c, x / 2.0)))
    ensures inside == Ok(false) ==> Halve(node, a2, c, x, fuel) == Halve(node, a2, c, x / 2.0, fuel - 1)
  {
  }

  /** The do-while loop halving x until the candidate is inside the hole; fuel bounds it. */
  method HalveOf(node: PolyNode, a2: ControlPoint, c: ControlPoint, fuel: nat) returns (r: Result<ControlPoint, Fault>)
    ensures r == Halve(node, a2, c, 2.0, fuel)
  {
    var x := 2.0;
    var f := fuel;
    while f > 0
      invariant Halve(node, a2, c, 2.0, fuel) == Halve(node, a2, c, x, f)
    {
      var hole := Add(a2, Multiply(c, x / 2.0));
      var inside := InsideNodeOf(node, hole);
      HalveStep(node, a2, c, x, f, inside);
      if inside.Err? {
        return Err(inside.error);
      }
      if inside.value {
        return Ok(hole);
      }
      x, f := x / 2.0, f - 1;
    }
    return Err(NoHoleSeed);
  }

  /** The corner loop with k, j, i walking the contour together. */
  method HoleSeedOf(node: PolyNode, fuel: nat) returns (r: Result<Option<ControlPoint>, Fault>)
    ensures r == HoleSeed(node, fuel)
  {
    var n := |node.contour|;
    if n == 0 {
      return Ok(None);
    }
    if n == 1 {
      return Err(IndexOutOfRange);
    }
    var j, k := n - 1, n - 2;
    for i := 0 to n
      invariant SeedFrom(node, 0, fuel) == SeedFrom(node, i, fuel)
      invariant i < n ==> j == PrevIndex(n, i) && k == PrevIndex(n, j)
    {
      var a1, a2, a3 := node.contour[k], node.contour[j], node.contour[i];
      if VectorProduct(Subtract(a2, a1), Subtract(a3, a1)) < 0.0 {
        var hole := HalveOf(node, a2, Subtract(Mid(a1, a3), a2), fuel);
        if hole.Err? {
          return Err(hole.error);
        }
        return Ok(Some(hole.value));
      }
      k, j := j, i;
    }
    return Ok(None);
  }

  /** The loop over one contour's points: each point, the segment from its predecessor, then the closing segment. */
  method EmitContour(g: Geometry, contour: seq<ControlPoint>, startIndex: int) returns (geo: Geometry, index: int)
    ensures geo == Emit(g, contour, startIndex) && index == startIndex + |contour|
  {
    geo, index := g, startIndex;
    for m := 0 to |contour|
      invariant geo == g.(points := g.points + Coordinates(contour[..m]), segments := g.segments + Chain(startIndex, m))
      invariant index == startIndex + m
    {
      var point := contour[m];
      assert contour[..m + 1] == contour[..m] + [point];
      CoordinatesAppend(contour[..m], [point]);
      geo := geo.(points := geo.points + [(point.x, point.y)]);
      if index > startIndex {
        assert Chain(startIndex, m + 1) == Chain(startIndex, m) + [(index - 1, index)];
        geo := geo.(segments := geo.segments + [(index - 1, index)]);
      } else {
        assert Chain(startIndex, m + 1) == Chain(startIndex, m);
      }
      index := index + 1;
    }
    geo := geo.(segments := geo.segments + [(index - 1, startIndex)]);
    assert contour[..|contour|] == contour;
  }

  /** SearchTree: the geometry and the point index threaded through a pre-order walk. */
  method SearchTree(node: PolyNode, fuel: nat, g: Geometry, pointIndex: int) returns (r: Result<(Geometry, int), Fault>)
    ensures r == SearchFrom(node, 0, fuel, g, pointIndex)
    decreases node
  {
    var geo, index := g, pointIndex;
    for i := 0 to |node.children|
      invariant SearchFrom(node, 0, fuel, g, pointIndex) == SearchFrom(node, i, fuel, geo, index)
    {
      var child := node.children[i];
      assert child in node.children;
      var before, startIndex := geo, index;
      geo, index := EmitContour(geo, child.contour, index);
      var seed := Ok(None);
      if child.isHole {
        seed := HoleSeedOf(child, fuel);
        if seed.Err? {
          return Err(seed.error);
        }
        if seed.value.Some? {
          geo := geo.(holes := geo.holes + [(seed.value.value.x, seed.value.value.y)]);
        }
      }
      assert geo == AddHole(Emit(before, child.contour, startIndex), seed.value);
      var below := SearchTree(child, fuel, geo, index);
      if below.Err? {
        return Err(below.error);
      }
      geo, index := below.value.0, below.value.1;
    }
    return Ok((geo, index));
  }

  // ---- what can go wrong ----

  /** The faults the walk can raise: an empty contour indexed, or a hole seed never found. */
  predicate WalkFault(f: Fault)
  {
    f == IndexOutOfRange || f == NoHoleSeed
  }

  lemma {:induction false} HalveFaults(node: PolyNode, a2: ControlPoint, c: ControlPoint, x: real, fuel: nat)
    ensures Halve(node, a2, c, x, fuel).Err? ==> WalkFault(Halve(node, a2, c, x, fuel).error)
    decreases fuel
  {
    if fuel > 0 {
      HalveFaults(node, a2, c, x / 2.0, fuel - 1);
    }
  }

  lemma {:induction false} SeedFaults(node: PolyNode, i: nat, fuel: nat)
    ensures SeedFrom(node, i, fuel).Err? ==> WalkFault(SeedFrom(node, i, fuel).error)
    decreases |node.contour| - i
  {
    var n := |node.contour|;
    if i < n && n != 1 {
      if Turning(node.contour, i) < 0.0 {
        var j := PrevIndex(n, i);
        HalveFaults(node, node.contour[j], Subtract(Mid(node.contour[PrevIndex(n, j)], node.contour[i]), node.contour[j]), 2.0, fuel);
      } else {
        SeedFaults(node, i + 1, fuel);
      }
    }
  }

  /** The walk never raises a null reference or a foreign node: only the two faults above. */
  lemma {:induction false} SearchFaults(node: PolyNode, i: nat, fuel: nat, g: Geometry, p: int)
    requires i <= |node.children|
    ensures SearchFrom(node, i, fuel, g, p).Err? ==> WalkFault(SearchFrom(node, i, fuel, g, p).error)
    decreases node, |node.children| - i, 1
  {
    if i < |node.children| {
      DescendFaults(node, i, fuel, g, p);
      var below := Descend(node, i, fuel, g, p);
      if below.Ok? {
        SearchFaults(node, i + 1, fuel, below.value.0, below.value.1);
      }
    }
  }

  lemma {:induction false} DescendFaults(node: PolyNode, i: nat, fuel: nat, g: Geometry, p: int)
    requires i < |node.children|
    ensures Descend(node, i, fuel, g, p).Err? ==> WalkFault(Descend(node, i, fuel, g, p).error)
    decreases node, |node.children| - i, 0
  {
    var child := node.children[i];
    assert child in node.children;
    if child.isHole {
      SeedFaults(child, 0, fuel);
    }
    var seed := if child.isHole then HoleSeed(child, fuel) else Ok(None);
    if seed.Ok? {
      SearchFaults(child, 0, fuel, AddHole(Emit(g, child.contour, p), seed.value), p + |child.contour|);
    }
  }
}
