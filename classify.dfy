/**
 * After the split passes each curve triangle is classified by the winding
 * number of the midpoint of B and C against the glyph's own contours: a
 * winding number of 0 marks it IsInside, and the apex A of such a triangle
 * is inserted into its polygon directly after B's node.
 */
module Classification {
  import opened Wrappers
  import opened ControlPoints
  import opened Triangles
  import opened Polygons
  import opened GlyphContours
  import opened Winding

  /** The point whose winding number decides the triangle. */
  function Probe(t: Triangle): (p: ControlPoint)
    ensures p.x - t.b.x == t.c.x - p.x && p.y - t.b.y == t.c.y - p.y
  {
    Mid(t.b, t.c)
  }

  predicate IsInside(rule: Rule, glyph: seq<seq<ControlPoint>>, t: Triangle)
  {
    WindingNumber(rule, glyph, Probe(t), |glyph|) == 0
  }

  /** IsInside as a verdict on triangles. */
  function Verdict(rule: Rule, glyph: seq<seq<ControlPoint>>): Triangle -> bool
  {
    t => IsInside(rule, glyph, t)
  }

  /** The node count of all polygons together. */
  function NodeCount(polygons: seq<seq<Node>>): nat
  {
    if |polygons| == 0 then 0 else NodeCount(polygons[..|polygons| - 1]) + |polygons[|polygons| - 1]|
  }

  /** How many of triangles 0 .. n-1 the verdict puts inside. */
  function InsideCount(inside: Triangle -> bool, ts: seq<Triangle>, n: nat): (k: nat)
    requires n <= |ts|
    ensures k <= n
  {
    if n == 0 then 0 else InsideCount(inside, ts, n - 1) + (if inside(ts[n - 1]) then 1 else 0)
  }

  /**
   * Triangle i given its verdict: IsInside set and, when set, A added after
   * the triangle's node. A triangle without a node fails only when it is
   * inside, as the source reads Contour only then.
   */
  function Mark(c: Created, i: nat, inside: bool): (r: Result<Created, Fault>)
    requires i < |c.triangles|
    ensures r.Ok? ==> |r.value.triangles| == |c.triangles| && |r.value.polygons| == |c.polygons|
    ensures r.Ok? ==> r.value.triangles == c.triangles[i := c.triangles[i].(isInside := inside)]
    ensures r.Err? ==> inside
  {
    var t := c.triangles[i];
    var triangles := c.triangles[i := t.(isInside := inside)];
    if !inside then Ok(c.(triangles := triangles))
    else match t.bNode
      case None => Err(NullReference)
      case Some(ref) =>
        if ref.contour >= |c.polygons| then Err(NodeNotInList)
        else
          var poly :- AddAfter(c.polygons[ref.contour], ref.id, Node(c.nextId, t.a));
          Ok(Created(c.polygons[ref.contour := poly], triangles, c.nextId + 1))
  }

  /**
   * The loop over triangles 0 .. n-1 under a verdict on each triangle; the
   * pipeline's verdict is IsInside under its counting rule.
   */
  function Classify(inside: Triangle -> bool, c: Created, n: nat): (r: Result<Created, Fault>)
    requires n <= |c.triangles|
    ensures r.Ok? ==> |r.value.triangles| == |c.triangles|
  {
    if n == 0 then Ok(c)
    else
      var prior :- Classify(inside, c, n - 1);
      Mark(prior, n - 1, inside(prior.triangles[n - 1]))
  }

  // ---- properties ----

  lemma {:induction false} NodeCountUpdate(polygons: seq<seq<Node>>, k: nat, poly: seq<Node>)
    requires k < |polygons|
    ensures NodeCount(polygons[k := poly]) == NodeCount(polygons) - |polygons[k]| + |poly|
  {
    var n := |polygons| - 1;
    if k < n {
      NodeCountUpdate(polygons[..n], k, poly);
      assert polygons[k := poly][..n] == polygons[..n][k := poly];
    } else {
      assert polygons[k := poly][..n] == polygons[..n];
    }
  }

  /** Setting IsInside leaves B and its node as they were. */
  lemma MarkKeepsHold(polygons: seq<seq<Node>>, t: Triangle, inside: bool)
    requires Holds(polygons, t)
    ensures Holds(polygons, t.(isInside := inside))
  {
    var m :| 0 <= m < |polygons[t.bNode.value.contour]|
      && polygons[t.bNode.value.contour][m].id == t.bNode.value.id
      && polygons[t.bNode.value.contour][m].point == t.b;
    var u := t.(isInside := inside);
    assert polygons[u.bNode.value.contour][m].point == u.b;
  }

  /**
   * A successful step adds one node, under the next fresh identity and
   * directly after the triangle's B node, exactly when the verdict is inside;
   * otherwise the polygons are as they were.
   */
  lemma MarkCounts(c: Created, i: nat, inside: bool)
    requires i < |c.triangles| && Mark(c, i, inside).Ok?
    ensures var d := Mark(c, i, inside).value;
      var t := c.triangles[i];
      |d.polygons| == |c.polygons|
      && d.nextId == c.nextId + (if inside then 1 else 0)
      && NodeCount(d.polygons) == NodeCount(c.polygons) + (if inside then 1 else 0)
      && (inside ==> (
            var k := t.bNode.value.contour;
            var m := NodeIndex(c.polygons[k], t.bNode.value.id).value;
            m + 1 < |d.polygons[k]| && d.polygons[k][m + 1] == Node(c.nextId, t.a)))
      && (!inside ==> d.polygons == c.polygons)
  {
    if inside {
      var t := c.triangles[i];
      var k := t.bNode.value.contour;
      var poly := AddAfter(c.polygons[k], t.bNode.value.id, Node(c.nextId, t.a)).value;
      NodeCountUpdate(c.polygons, k, poly);
    }
  }

  /** Marking one triangle keeps the contours linked. */
  lemma RelabelLinked(d: Created, i: nat, inside: bool)
    requires i < |d.triangles| && Linked(d)
    ensures Linked(d.(triangles := d.triangles[i := d.triangles[i].(isInside := inside)]))
  {
    var triangles := d.triangles[i := d.triangles[i].(isInside := inside)];
    forall u | u in triangles
      ensures Holds(d.polygons, u)
    {
      var j :| 0 <= j < |triangles| && triangles[j] == u;
      assert d.triangles[j] in d.triangles;
      if j == i {
        MarkKeepsHold(d.polygons, d.triangles[i], inside);
      }
    }
  }

  /** On linked contours one classification step succeeds and keeps them linked. */
  lemma MarkLinked(c: Created, i: nat, inside: bool)
    requires i < |c.triangles| && Linked(c)
    ensures Mark(c, i, inside).Ok? && Linked(Mark(c, i, inside).value)
  {
    var t := c.triangles[i];
    assert t in c.triangles;
    if inside {
      var k := t.bNode.value.contour;
      InsertKeepsLinks(c.polygons, c.nextId, k, t.bNode.value.id, t.a);
      var ps := c.polygons[k := AddAfter(c.polygons[k], t.bNode.value.id, Node(c.nextId, t.a)).value];
      var e := Created(ps, c.triangles, c.nextId + 1);
      assert forall u :: u in e.triangles ==> Holds(c.polygons, u);
      RelabelLinked(e, i, true);
    } else {
      RelabelLinked(c, i, false);
    }
  }

  /** Classifying triangles 0 .. n-1 of linked contours succeeds and keeps them linked. */
  lemma {:induction false} ClassifyLinked(inside: Triangle -> bool, c: Created, n: nat)
    requires n <= |c.triangles| && Linked(c)
    ensures Classify(inside, c, n).Ok? && Linked(Classify(inside, c, n).value)
  {
    if n > 0 {
      ClassifyLinked(inside, c, n - 1);
      var prior := Classify(inside, c, n - 1).value;
      MarkLinked(prior, n - 1, inside(prior.triangles[n - 1]));
    }
  }

  /** A successful classification adds one fresh node per inside triangle. */
  lemma {:induction false} ClassifyCounts(inside: Triangle -> bool, c: Created, n: nat)
    requires n <= |c.triangles| && Classify(inside, c, n).Ok?
    ensures var d := Classify(inside, c, n).value;
      |d.polygons| == |c.polygons|
      && d.nextId == c.nextId + InsideCount(inside, c.triangles, n)
      && NodeCount(d.polygons) == NodeCount(c.polygons) + InsideCount(inside, c.triangles, n)
  {
    if n > 0 {
      ClassifyCounts(inside, c, n - 1);
      ClassifyMarks(inside, c, n - 1);
      var prior := Classify(inside, c, n - 1).value;
      assert prior.triangles[n - 1] == c.triangles[n - 1];
      MarkCounts(prior, n - 1, inside(c.triangles[n - 1]));
    }
  }

  /**
   * After a successful classification of triangles 0 .. n-1 each of them is
   * marked by its own winding number and nothing else about it changes; the
   * rest are untouched.
   */
  lemma {:induction false} ClassifyMarks(inside: Triangle -> bool, c: Created, n: nat)
    requires n <= |c.triangles| && Classify(inside, c, n).Ok?
    ensures var d := Classify(inside, c, n).value;
      (forall j :: 0 <= j < n ==> d.triangles[j] == c.triangles[j].(isInside := inside(c.triangles[j])))
      && (forall j :: n <= j < |c.triangles| ==> d.triangles[j] == c.triangles[j])
  {
    if n > 0 {
      ClassifyMarks(inside, c, n - 1);
    }
  }

  /** Classify over one more triangle, given the triangles before it. */
  lemma ClassifyNext(inside: Triangle -> bool, c: Created, i: nat, d: Created)
    requires i < |c.triangles| && Classify(inside, c, i) == Ok(d)
    ensures i < |d.triangles| && Classify(inside, c, i + 1) == Mark(d, i, inside(d.triangles[i]))
  {
  }

  /** A failure at some triangle is the failure of the whole loop. */
  lemma {:induction false} ClassifyFailureStays(inside: Triangle -> bool, c: Created, i: nat, n: nat)
    requires i <= n <= |c.triangles| && Classify(inside, c, i).Err?
    ensures Classify(inside, c, n) == Classify(inside, c, i)
    decreases n
  {
    if n > i {
      ClassifyFailureStays(inside, c, i, n - 1);
    }
  }

  /** The body of the loop for triangle i, given its verdict. */
  method MarkTriangle(d: Created, i: nat, inside: bool) returns (r: Result<Created, Fault>)
    requires i < |d.triangles|
    ensures r == Mark(d, i, inside)
  {
    var t := d.triangles[i];
    var triangles := d.triangles[i := t.(isInside := inside)];
    if !inside {
      return Ok(d.(triangles := triangles));
    }
    if t.bNode.None? {
      return Err(NullReference);
    }
    var ref := t.bNode.value;
    if ref.contour >= |d.polygons| {
      return Err(NodeNotInList);
    }
    var poly := AddAfter(d.polygons[ref.contour], ref.id, Node(d.nextId, t.a));
    if poly.Err? {
      return Err(poly.error);
    }
    return Ok(Created(d.polygons[ref.contour := poly.value], triangles, d.nextId + 1));
  }

  /** The loop over the triangles, one winding number each. */
  method ClassifyTriangles(rule: Rule, glyph: seq<seq<ControlPoint>>, c: Created) returns (r: Result<Created, Fault>)
    ensures r == Classify(Verdict(rule, glyph), c, |c.triangles|)
  {
    var d := c;
    for i := 0 to |c.triangles|
      invariant Classify(Verdict(rule, glyph), c, i) == Ok(d)
    {
      ClassifyNext(Verdict(rule, glyph), c, i, d);
      var w := GetWindingNumber(rule, glyph, Probe(d.triangles[i]));
      assert (w == 0) == Verdict(rule, glyph)(d.triangles[i]);
      var step := MarkTriangle(d, i, w == 0);
      if step.Err? {
        ClassifyFailureStays(Verdict(rule, glyph), c, i + 1, |c.triangles|);
        return step;
      }
      d := step.value;
    }
    return Ok(d);
  }
}
