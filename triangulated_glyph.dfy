/**
 * TriangulatedGlyph: a TrueType glyph turned into an indexed triangle list.
 * The on-curve outline is triangulated by an external triangulator; every
 * quadratic curve segment becomes a triangle of its own with texture
 * coordinates (0,0), (1/2,0), (1,1) at its corners, for a shader to fill the
 * curve's inside or outside.
 *
 * The polygon clipper and the triangulator are supplied by the caller, as is
 * the conversion from exact coordinates to single-precision floats.
 */
module TriangulatedGlyphs {
  import opened Wrappers
  import opened BigEndian
  import opened LittleEndian
  import opened ControlPoints
  import opened Triangles
  import opened Polygons
  import opened Glyphs
  import opened GlyphContours
  import opened Splitting
  import opened Winding
  import opened Classification
  import opened SearchTrees
  import opened Vertices
  import opened MeshIndexing
  import opened BinaryWriters
  import opened Blocks
  import TrueType

  /**
   * What the constructor calls outside itself: the clipper's union of the
   * contours into a polygon tree, the triangulator, the float conversion, and
   * a bound on the rounds of the hole-seed search.
   */
  datatype Services = Services(
    union: seq<seq<ControlPoint>> -> PolyNode,
    triangulate: Geometry -> seq<MeshTriangle>,
    toSingle: real -> Single,
    fuel: nat)

  datatype TriangulatedGlyph = TriangulatedGlyph(indices: seq<int>, vertices: seq<Vertex>, advanceWidth: int, leftSideBearing: int)

  /** A glyph with nothing to draw: no indices, no vertices, the metrics kept. */
  function Blank(metric: TrueType.HorizontalMetric): (g: TriangulatedGlyph)
    ensures g.indices == [] && g.vertices == []
    ensures g.advanceWidth == metric.advanceWidth && g.leftSideBearing == metric.leftSideBearing
  {
    TriangulatedGlyph([], [], metric.advanceWidth, metric.leftSideBearing)
  }

  /** The glyph's contours as the winding test reads them. */
  function ContourLists(contours: seq<Option<seq<ControlPoint>>>): (o: seq<seq<ControlPoint>>)
    ensures |o| == |contours| && forall i :: 0 <= i < |contours| ==> o[i] == Contents(contours[i])
  {
    seq(|contours|, i requires 0 <= i < |contours| => Contents(contours[i]))
  }

  /** The inner polygons handed to the clipper, each as its list of points. */
  function PolygonLists(polygons: seq<seq<Node>>): (o: seq<seq<ControlPoint>>)
    ensures |o| == |polygons| && forall k :: 0 <= k < |polygons| ==> o[k] == Polygons.Points(polygons[k])
  {
    seq(|polygons|, k requires 0 <= k < |polygons| => Polygons.Points(polygons[k]))
  }

  /** The curve triangles after classification and the triangulator's input. */
  datatype Traced = Traced(curves: seq<Triangle>, geometry: Geometry)

  /**
   * The constructor up to the triangulator: create the contours, split the
   * overlapping curve triangles, classify each by its winding number (adding
   * the control point of an inside curve to its polygon), unite the polygons
   * and walk the tree into points, segments and hole seeds. Under AsWritten
   * the split pass and the winding number are those of the code; under
   * Corrected, those it evidently intends.
   */
  function Trace(rule: Rule, contours: seq<Option<seq<ControlPoint>>>, svc: Services): (r: Result<Traced, Fault>)
    ensures (exists i :: 0 <= i < |contours| && contours[i].None?) ==> r == Err(NullReference)
    ensures r.Ok? ==> forall i :: 0 <= i < |contours| ==> contours[i].Some?
  {
    var created :- CreateContours(contours, |contours|);
    var passes :- SplitPasses(rule, created, 0);
    var classified :- Classify(Verdict(rule, ContourLists(contours)), passes.created, |passes.created.triangles|);
    var searched :- SearchFrom(svc.union(PolygonLists(classified.polygons)), 0, svc.fuel, Geometry([], [], []), 0);
    Ok(Traced(classified.triangles, searched.0))
  }

  /** The three vertices of a curve triangle: B at (0,0), A at (1/2,0), C at (1,1). */
  function CurveOf(toSingle: real -> Single, t: Triangle): (vs: seq<Vertex>)
    ensures |vs| == 3 && forall j :: 0 <= j < 3 ==> vs[j].isCurve && vs[j].isInside == t.isInside
  {
    [Curve(toSingle(t.b.x), toSingle(t.b.y), SingleZero, SingleZero, t.isInside),
     Curve(toSingle(t.a.x), toSingle(t.a.y), SingleHalf, SingleZero, t.isInside),
     Curve(toSingle(t.c.x), toSingle(t.c.y), SingleOne, SingleOne, t.isInside)]
  }

  function CurveVertices(toSingle: real -> Single, ts: seq<Triangle>): (vs: seq<Vertex>)
    ensures |vs| == 3 * |ts|
  {
    if |ts| == 0 then [] else CurveVertices(toSingle, ts[..|ts| - 1]) + CurveOf(toSingle, ts[|ts| - 1])
  }

  /** start, start+1, ..., start+n-1. */
  function Serial(start: int, n: nat): (s: seq<int>)
    ensures |s| == n && forall k :: 0 <= k < n ==> s[k] == start + k
  {
    seq(n, k => start + k)
  }

  /**
   * The buffers: nothing without points; otherwise the triangulated mesh,
   * indexed, followed by three fresh vertices per curve triangle.
   */
  function Assemble(svc: Services, traced: Traced, metric: TrueType.HorizontalMetric): TriangulatedGlyph
  {
    if |traced.geometry.points| == 0 then Blank(metric)
    else
      var mesh := svc.triangulate(traced.geometry);
      var s := PlaceAll(Start, svc.toSingle, MeshIndexing.Corners(mesh), 3 * |mesh|);
      TriangulatedGlyph(
        s.indices + Serial(|s.vertices|, 3 * |traced.curves|),
        s.vertices + CurveVertices(svc.toSingle, traced.curves),
        metric.advanceWidth, metric.leftSideBearing)
  }

  /** The constructor TriangulatedGlyph(glyphData, horizontalMetric). */
  function Build(rule: Rule, glyph: Glyph, metric: TrueType.HorizontalMetric, svc: Services): (r: Result<TriangulatedGlyph, Fault>)
    ensures glyph.IsCompound() || |glyph.outline.contours| == 0 ==> r == Ok(Blank(metric))
    ensures r.Ok? ==> r.value.advanceWidth == metric.advanceWidth && r.value.leftSideBearing == metric.leftSideBearing
  {
    match glyph.outline
    case Compound(_) => Ok(Blank(metric))
    case Simple(contours) =>
      if |contours| == 0 then Ok(Blank(metric))
      else
        var traced :- Trace(rule, contours, svc);
        Ok(Assemble(svc, traced, metric))
  }

  // ---- properties ----

  /** Curve vertex m is corner m % 3 of curve triangle m / 3. */
  lemma {:induction false} CurveLayout(toSingle: real -> Single, ts: seq<Triangle>)
    ensures forall m :: 0 <= m < 3 * |ts| ==> CurveVertices(toSingle, ts)[m] == CurveOf(toSingle, ts[m / 3])[m % 3]
  {
    if |ts| > 0 {
      var n := |ts| - 1;
      var front := ts[..n];
      CurveLayout(toSingle, front);
      var vs := CurveVertices(toSingle, ts);
      assert vs == CurveVertices(toSingle, front) + CurveOf(toSingle, ts[n]);
      forall m | 0 <= m < 3 * |ts|
        ensures vs[m] == CurveOf(toSingle, ts[m / 3])[m % 3]
      {
        if m < 3 * n {
          assert vs[m] == CurveVertices(toSingle, front)[m];
          assert m / 3 < n;
          assert front[m / 3] == ts[m / 3];
        } else {
          assert m / 3 == n && m % 3 == m - 3 * n;
        }
      }
    }
  }

  /** Every curve vertex is a curve vertex, inside exactly when its triangle is. */
  lemma CurveVerticesCurve(toSingle: real -> Single, ts: seq<Triangle>)
    ensures forall m :: 0 <= m < |CurveVertices(toSingle, ts)| ==>
      CurveVertices(toSingle, ts)[m].isCurve && CurveVertices(toSingle, ts)[m].isInside == ts[m / 3].isInside
  {
    CurveLayout(toSingle, ts);
  }

  /** The buffers form a triangle list: three indices per triangle, each naming a vertex. */
  lemma AssembleIndexed(svc: Services, traced: Traced, metric: TrueType.HorizontalMetric)
    ensures var g := Assemble(svc, traced, metric);
      |g.indices| % 3 == 0 && forall k :: 0 <= k < |g.indices| ==> 0 <= g.indices[k] < |g.vertices|
  {
    if |traced.geometry.points| > 0 {
      var mesh := svc.triangulate(traced.geometry);
      IndexBounds(svc.toSingle, MeshIndexing.Corners(mesh));
    }
  }

  /**
   * After the mesh come the curve triangles in order: vertex m+i is corner
   * i % 3 (B, A, C) of curve triangle i / 3, the last indices count up
   * through those vertices, and the mesh part in front is exactly the
   * indexing of the triangulator's corners.
   */
  lemma AssembleCurves(svc: Services, traced: Traced, metric: TrueType.HorizontalMetric)
    requires |traced.geometry.points| > 0
    ensures var g := Assemble(svc, traced, metric);
      var mesh := svc.triangulate(traced.geometry);
      var s := PlaceAll(Start, svc.toSingle, MeshIndexing.Corners(mesh), 3 * |mesh|);
      var m, n := |s.vertices|, |s.indices|;
      |g.vertices| == m + 3 * |traced.curves| && |g.indices| == n + 3 * |traced.curves|
      && (forall i :: 0 <= i < m ==> g.vertices[i] == s.vertices[i])
      && (forall i :: 0 <= i < n ==> g.indices[i] == s.indices[i])
      && (forall i :: m <= i < |g.vertices| ==> g.vertices[i] == CurveOf(svc.toSingle, traced.curves[(i - m) / 3])[(i - m) % 3])
      && (forall i :: n <= i < |g.indices| ==> g.indices[i] == m + (i - n))
  {
    var mesh := svc.triangulate(traced.geometry);
    var s := PlaceAll(Start, svc.toSingle, MeshIndexing.Corners(mesh), 3 * |mesh|);
    assert Assemble(svc, traced, metric) == TriangulatedGlyph(
      s.indices + Serial(|s.vertices|, 3 * |traced.curves|),
      s.vertices + CurveVertices(svc.toSingle, traced.curves),
      metric.advanceWidth, metric.leftSideBearing);
    CurvesAfter(s.indices, s.vertices, svc.toSingle, traced.curves);
  }

  /** The curve triangles appended behind any buffers. */
  lemma CurvesAfter(indices: seq<int>, vertices: seq<Vertex>, toSingle: real -> Single, curves: seq<Triangle>)
    ensures var allIndices, allVertices := indices + Serial(|vertices|, 3 * |curves|), vertices + CurveVertices(toSingle, curves);
      var m, n := |vertices|, |indices|;
      (forall i :: m <= i < |allVertices| ==> allVertices[i] == CurveOf(toSingle, curves[(i - m) / 3])[(i - m) % 3])
      && (forall i :: n <= i < |allIndices| ==> allIndices[i] == m + (i - n))
  {
    var cv := CurveVertices(toSingle, curves);
    CurveLayout(toSingle, curves);
    forall i | |vertices| <= i < |vertices| + |cv|
      ensures (vertices + cv)[i] == CurveOf(toSingle, curves[(i - |vertices|) / 3])[(i - |vertices|) % 3]
    {
      assert (vertices + cv)[i] == cv[i - |vertices|];
    }
  }

  /**
   * Every vertex is well formed, and the plain vertices are exactly those of
   * the mesh: a vertex is a curve vertex if and only if it comes after them.
   */
  lemma AssembleWellFormed(svc: Services, traced: Traced, metric: TrueType.HorizontalMetric)
    ensures var g := Assemble(svc, traced, metric);
      var m := |g.vertices| - 3 * (if |traced.geometry.points| == 0 then 0 else |traced.curves|);
      0 <= m && forall i :: 0 <= i < |g.vertices| ==> WellFormed(g.vertices[i]) && (g.vertices[i].isCurve <==> i >= m)
  {
    if |traced.geometry.points| > 0 {
      var g := Assemble(svc, traced, metric);
      var mesh := svc.triangulate(traced.geometry);
      var cs := MeshIndexing.Corners(mesh);
      var s := PlaceAll(Start, svc.toSingle, cs, 3 * |mesh|);
      var cv := CurveVertices(svc.toSingle, traced.curves);
      IndexPlain(svc.toSingle, cs, 3 * |mesh|);
      CurveVerticesCurve(svc.toSingle, traced.curves);
      assert g.vertices == s.vertices + cv;
      forall i | 0 <= i < |g.vertices|
        ensures WellFormed(g.vertices[i]) && (g.vertices[i].isCurve <==> i >= |s.vertices|)
      {
        if i < |s.vertices| {
          assert g.vertices[i] == s.vertices[i];
        } else {
          assert g.vertices[i] == cv[i - |s.vertices|];
        }
      }
    }
  }

  /**
   * Each curve triangle that reaches the buffers carries the verdict of its
   * winding number: inside exactly when the point halfway between B and C has
   * winding number zero against the glyph's contours.
   */
  lemma TraceMarks(rule: Rule, contours: seq<Option<seq<ControlPoint>>>, svc: Services)
    requires Trace(rule, contours, svc).Ok?
    ensures forall t :: t in Trace(rule, contours, svc).value.curves ==>
      (t.isInside <==> WindingNumber(rule, ContourLists(contours), Mid(t.b, t.c), |contours|) == 0)
  {
    var created := CreateContours(contours, |contours|).value;
    var passes := SplitPasses(rule, created, 0).value;
    var inside := Verdict(rule, ContourLists(contours));
    ClassifyMarks(inside, passes.created, |passes.created.triangles|);
    var d := Classify(inside, passes.created, |passes.created.triangles|).value;
    forall t | t in d.triangles
      ensures t.isInside <==> WindingNumber(rule, ContourLists(contours), Mid(t.b, t.c), |contours|) == 0
    {
      var j :| 0 <= j < |d.triangles| && d.triangles[j] == t;
      assert Probe(passes.created.triangles[j]) == Probe(t);
    }
  }

  /**
   * The constructor fails with a null reference exactly when a contour is
   * null. Its only other failures are those of the tree walk and, for the
   * split pass as written, an index error in RemoveAt; the corrected split
   * pass and the classification never fail on the contours as created.
   */
  lemma BuildFaults(rule: Rule, glyph: Glyph, metric: TrueType.HorizontalMetric, svc: Services)
    ensures Build(rule, glyph, metric, svc).Err? && Build(rule, glyph, metric, svc).error == NullReference
      <==> glyph.outline.Simple? && exists i :: 0 <= i < |glyph.outline.contours| && glyph.outline.contours[i].None?
    ensures Build(rule, glyph, metric, svc).Err? ==>
      Build(rule, glyph, metric, svc).error == NullReference || WalkFault(Build(rule, glyph, metric, svc).error)
      || (rule == AsWritten && Build(rule, glyph, metric, svc).error == IndexOutOfRange)
  {
    if glyph.outline.Simple? && |glyph.outline.contours| > 0 {
      var contours := glyph.outline.contours;
      var created := CreateContours(contours, |contours|);
      if created.Ok? {
        CreatedLinked(contours, |contours|);
        PassesFacts(rule, created.value);
        var passes := SplitPasses(rule, created.value, 0);
        if passes.Ok? {
          var inside := Verdict(rule, ContourLists(contours));
          ClassifyLinked(inside, passes.value.created, |passes.value.created.triangles|);
          var d := Classify(inside, passes.value.created, |passes.value.created.triangles|).value;
          SearchFaults(svc.union(PolygonLists(d.polygons)), 0, svc.fuel, Geometry([], [], []), 0);
        }
      }
    }
  }

  /** A built glyph is a valid triangle list of well-formed vertices. */
  lemma BuildIndexed(rule: Rule, glyph: Glyph, metric: TrueType.HorizontalMetric, svc: Services)
    requires Build(rule, glyph, metric, svc).Ok?
    ensures var g := Build(rule, glyph, metric, svc).value;
      |g.indices| % 3 == 0
      && (forall k :: 0 <= k < |g.indices| ==> 0 <= g.indices[k] < |g.vertices|)
      && forall i :: 0 <= i < |g.vertices| ==> WellFormed(g.vertices[i])
  {
    if glyph.outline.Simple? && |glyph.outline.contours| > 0 {
      var traced := Trace(rule, glyph.outline.contours, svc).value;
      AssembleIndexed(svc, traced, metric);
      AssembleWellFormed(svc, traced, metric);
    }
  }

  // ---- the constructor as it runs ----

  /** The stages up to the triangulator, each by its own loop. */
  method TraceOf(rule: Rule, contours: seq<Option<seq<ControlPoint>>>, svc: Services) returns (r: Result<Traced, Fault>)
    ensures r == Trace(rule, contours, svc)
  {
    var created := CreateContoursOf(contours);
    if created.Err? {
      return Err(created.error);
    }
    var passes := SplitUntilDone(rule, created.value);
    if passes.Err? {
      return Err(passes.error);
    }
    var classified := ClassifyTriangles(rule, ContourLists(contours), passes.value.created);
    if classified.Err? {
      return Err(classified.error);
    }
    var tree := svc.union(PolygonLists(classified.value.polygons));
    var searched := SearchTree(tree, svc.fuel, Geometry([], [], []), 0);
    if searched.Err? {
      return Err(searched.error);
    }
    return Ok(Traced(classified.value.triangles, searched.value.0));
  }

  /** The loop over the curve triangles: B, A, C appended, each indexed by its position. */
  method AppendCurves(indices: seq<int>, vertices: seq<Vertex>, toSingle: real -> Single, curves: seq<Triangle>)
    returns (allIndices: seq<int>, allVertices: seq<Vertex>)
    ensures allIndices == indices + Serial(|vertices|, 3 * |curves|)
    ensures allVertices == vertices + CurveVertices(toSingle, curves)
  {
    allIndices, allVertices := indices, vertices;
    for k := 0 to |curves|
      invariant allIndices == indices + Serial(|vertices|, 3 * k)
      invariant allVertices == vertices + CurveVertices(toSingle, curves[..k])
    {
      var t := curves[k];
      allIndices := allIndices + [|allVertices|];
      allVertices := allVertices + [Curve(toSingle(t.b.x), toSingle(t.b.y), SingleZero, SingleZero, t.isInside)];
      allIndices := allIndices + [|allVertices|];
      allVertices := allVertices + [Curve(toSingle(t.a.x), toSingle(t.a.y), SingleHalf, SingleZero, t.isInside)];
      allIndices := allIndices + [|allVertices|];
      allVertices := allVertices + [Curve(toSingle(t.c.x), toSingle(t.c.y), SingleOne, SingleOne, t.isInside)];
      assert curves[..k + 1][..k] == curves[..k];
      assert Serial(|vertices|, 3 * k + 3) == Serial(|vertices|, 3 * k) + [|vertices| + 3 * k, |vertices| + 3 * k + 1, |vertices| + 3 * k + 2];
    }
    assert curves[..|curves|] == curves;
  }

  /** The constructor: the traced outline, then the mesh and the curve triangles. */
  method Triangulate(rule: Rule, glyph: Glyph, metric: TrueType.HorizontalMetric, svc: Services) returns (r: Result<TriangulatedGlyph, Fault>)
    ensures r == Build(rule, glyph, metric, svc)
  {
    if glyph.IsCompound() || |glyph.outline.contours| == 0 {
      return Ok(Blank(metric));
    }
    var traced := TraceOf(rule, glyph.outline.contours, svc);
    if traced.Err? {
      return Err(traced.error);
    }
    if |traced.value.geometry.points| == 0 {
      return Ok(Blank(metric));
    }
    var mesh := svc.triangulate(traced.value.geometry);
    var indices, vertices := IndexMesh(mesh, svc.toSingle);
    indices, vertices := AppendCurves(indices, vertices, svc.toSingle, traced.value.curves);
    return Ok(TriangulatedGlyph(indices, vertices, metric.advanceWidth, metric.leftSideBearing));
  }

  // ---- Save ----

  /** A vertex: X, Y, the flag byte, and U, V for a curve vertex only. */
  function VertexBytes(v: Vertex): (bs: seq<Byte>)
    ensures |bs| == if v.isCurve then 17 else 9
  {
    SingleBytes(v.x) + SingleBytes(v.y) + [FlagByte(v)] + (if v.isCurve then SingleBytes(v.u) + SingleBytes(v.v) else [])
  }

  /** The indices one after the other, four bytes each. */
  function IndicesBytes(xs: seq<int>): (bs: seq<Byte>)
    ensures |bs| == 4 * |xs|
  {
    ConcatLength(xs, Int32Bytes, 4);
    Concat(xs, Int32Bytes)
  }

  /** The vertex records one after the other. */
  function VerticesBytes(vs: seq<Vertex>): seq<Byte>
  {
    Concat(vs, VertexBytes)
  }

  /** The index buffer with its count in front. */
  function IndexBlock(xs: seq<int>): seq<Byte>
  {
    Int32Bytes(|xs|) + IndicesBytes(xs)
  }

  /** The vertex buffer with its count in front. */
  function VertexBlock(vs: seq<Vertex>): seq<Byte>
  {
    Int32Bytes(|vs|) + VerticesBytes(vs)
  }

  /** The glyph record: advance width, left side bearing, the counted indices, the counted vertices. */
  function GlyphBytes(g: TriangulatedGlyph): seq<Byte>
  {
    Int32Bytes(g.advanceWidth) + Int32Bytes(g.leftSideBearing) + IndexBlock(g.indices) + VertexBlock(g.vertices)
  }

  method WriteVertex(writer: BinaryWriter, v: Vertex)
    modifies writer
    ensures writer.bytes == old(writer.bytes) + VertexBytes(v)
  {
    writer.WriteSingle(v.x);
    writer.WriteSingle(v.y);
    writer.WriteByte(FlagByte(v));
    if v.isCurve {
      writer.WriteSingle(v.u);
      writer.WriteSingle(v.v);
    }
  }

  method WriteIndices(writer: BinaryWriter, xs: seq<int>)
    modifies writer
    ensures writer.bytes == old(writer.bytes) + IndexBlock(xs)
  {
    writer.WriteInt32(|xs|);
    ghost var start := writer.bytes;
    for k := 0 to |xs|
      invariant writer.bytes == start + IndicesBytes(xs[..k])
    {
      writer.WriteInt32(xs[k]);
      assert xs[..k + 1] == xs[..k] + [xs[k]];
      ConcatSnoc(xs[..k], xs[k], Int32Bytes);
      AppendTwice(start, IndicesBytes(xs[..k]), Int32Bytes(xs[k]));
    }
    assert xs[..|xs|] == xs;
  }

  method WriteVertices(writer: BinaryWriter, vs: seq<Vertex>)
    modifies writer
    ensures writer.bytes == old(writer.bytes) + VertexBlock(vs)
  {
    writer.WriteInt32(|vs|);
    ghost var start := writer.bytes;
    for k := 0 to |vs|
      invariant writer.bytes == start + VerticesBytes(vs[..k])
    {
      WriteVertex(writer, vs[k]);
      assert vs[..k + 1] == vs[..k] + [vs[k]];
      ConcatSnoc(vs[..k], vs[k], VertexBytes);
      AppendTwice(start, VerticesBytes(vs[..k]), VertexBytes(vs[k]));
    }
    assert vs[..|vs|] == vs;
  }

  /** Save(writer). */
  method Save(g: TriangulatedGlyph, writer: BinaryWriter)
    modifies writer
    ensures writer.bytes == old(writer.bytes) + GlyphBytes(g)
  {
    writer.WriteInt32(g.advanceWidth);
    writer.WriteInt32(g.leftSideBearing);
    WriteIndices(writer, g.indices);
    WriteVertices(writer, g.vertices);
  }
}
