/**
 * SplitTriangles: a curve triangle that overlaps a smaller, non-neighbouring
 * curve triangle is cut in two at its curve's midpoint. The new on-curve
 * point goes into the polygon right after the triangle's node; the first
 * half keeps that node, the second half gets the new one. Indices of split
 * triangles are queued and removed after the pass, the halves appended.
 * At most four passes run.
 */
module Splitting {
  import opened Wrappers
  import opened ControlPoints
  import opened Triangles
  import opened Polygons
  import opened GlyphContours
  import opened ListRemoval
  import opened Winding

  /** Pairs a pass does not compare: the same triangle, list neighbours, the first with the last. */
  predicate Neighbours(i: int, j: int, n: int)
  {
    i == j || i - 1 == j || i + 1 == j || (i == n - 1 && j == 0) || (i == 0 && j == n - 1)
  }

  /** Triangle i is split when compared with triangle j. */
  predicate Qualifies(ts: seq<Triangle>, i: nat, j: nat)
    requires i < |ts| && j < |ts|
  {
    !Neighbours(i, j, |ts|) && IntersectsWith(ts[i], ts[j]) && Area(ts[i]) > Area(ts[j])
  }

  /** The polygons once the new on-curve point is in, and the two halves linked to their nodes. */
  datatype Spliced = Spliced(polygons: seq<seq<Node>>, first: Triangle, second: Triangle)

  /** One split: the halves of t, and node nextId holding the new point right after t's node. */
  function SplitAt(polygons: seq<seq<Node>>, nextId: nat, t: Triangle): (r: Result<Spliced, Fault>)
    ensures t.bNode.None? ==> r == Err(NullReference)
    ensures r.Ok? <==> t.bNode.Some? && t.bNode.value.contour < |polygons|
                       && NodeIndex(polygons[t.bNode.value.contour], t.bNode.value.id).Some?
    ensures r.Ok? ==> |r.value.polygons| == |polygons|
    ensures r.Ok? ==> forall k :: 0 <= k < |polygons| && k != t.bNode.value.contour ==>
                        r.value.polygons[k] == polygons[k]
    ensures r.Ok? ==> |r.value.polygons[t.bNode.value.contour]| == |polygons[t.bNode.value.contour]| + 1
    ensures r.Ok? ==> r.value.first.b == t.b && r.value.first.bNode == t.bNode
    ensures r.Ok? ==> r.value.second.b == Split(t).newOnPoint
                      && r.value.second.bNode == Some(NodeRef(t.bNode.value.contour, nextId))
  {
    match t.bNode
    case None => Err(NullReference)
    case Some(node) =>
      if node.contour >= |polygons| then Err(NodeNotInList)
      else
        var h := Split(t);
        var poly :- AddAfter(polygons[node.contour], node.id, Node(nextId, h.newOnPoint));
        Ok(Spliced(polygons[node.contour := poly], h.first.(bNode := t.bNode),
                   h.second.(bNode := Some(NodeRef(node.contour, nextId)))))
  }

  /** The state a pass carries: the polygons, the next identity, the queued removals and additions. */
  datatype Pass = Pass(polygons: seq<seq<Node>>, nextId: nat, toRemove: seq<nat>, toAdd: seq<Triangle>, split: bool)

  /** An n by n table of comparisons. */
  predicate Square(g: seq<seq<bool>>, n: nat)
  {
    |g| == n && forall r :: 0 <= r < n ==> |g[r]| == n
  }

  /** Row i, column j of g is Qualifies(ts, i, j). */
  predicate Records(ts: seq<Triangle>, g: seq<seq<bool>>)
  {
    Square(g, |ts|)
    && forall i, j {:trigger Qualifies(ts, i, j)} :: 0 <= i < |ts| && 0 <= j < |ts| ==> g[i][j] == Qualifies(ts, i, j)
  }

  /** Which triangle is split against which. */
  function Comparisons(ts: seq<Triangle>): (g: seq<seq<bool>>)
    ensures Records(ts, g)
  {
    seq(|ts|, i requires 0 <= i < |ts| => seq(|ts|, j requires 0 <= j < |ts| => Qualifies(ts, i, j)))
  }

  /** Comparing triangle i with triangle j, whose outcome is g[i][j]. */
  function Step(ts: seq<Triangle>, g: seq<seq<bool>>, i: nat, j: nat, s: Pass): Result<Pass, Fault>
    requires Square(g, |ts|) && i < |ts| && j < |ts|
  {
    if g[i][j] then
      var sp :- SplitAt(s.polygons, s.nextId, ts[i]);
      Ok(Pass(sp.polygons, s.nextId + 1, s.toRemove + [i], s.toAdd + [sp.first, sp.second], true))
    else Ok(s)
  }

  /** Triangle i compared with triangles 0 .. j-1. */
  function Scan(ts: seq<Triangle>, g: seq<seq<bool>>, i: nat, j: nat, s: Pass): Result<Pass, Fault>
    requires Square(g, |ts|) && i < |ts| && j <= |ts|
  {
    if j == 0 then Ok(s)
    else
      var s' :- Scan(ts, g, i, j - 1, s);
      Step(ts, g, i, j - 1, s')
  }

  /** The rows of triangles |ts|-1 down to |ts|-m. */
  function Rows(ts: seq<Triangle>, g: seq<seq<bool>>, m: nat, s: Pass): Result<Pass, Fault>
    requires Square(g, |ts|) && m <= |ts|
  {
    if m == 0 then Ok(s)
    else
      var s' :- Rows(ts, g, m - 1, s);
      Scan(ts, g, |ts| - m, |ts|, s')
  }

  datatype Passed = Passed(created: Created, split: bool)

  /** A pass in which g[i][j] decides whether comparing triangle i with triangle j splits i. */
  function PassWith(c: Created, g: seq<seq<bool>>): Result<Passed, Fault>
    requires Square(g, |c.triangles|)
  {
    var ts := c.triangles;
    var s :- Rows(ts, g, |ts|, Pass(c.polygons, c.nextId, [], [], false));
    var kept :- RemoveAll(ts, s.toRemove);
    Ok(Passed(Created(s.polygons, kept + s.toAdd, s.nextId), s.split))
  }

  /**
   * One pass of SplitTriangles as written: a triangle is split, and its index
   * queued, once for every triangle it qualifies against.
   */
  function SplitPass(c: Created): Result<Passed, Fault>
  {
    PassWith(c, Comparisons(c.triangles))
  }

  /** No entry of the row before column j is set. */
  predicate NoneBefore(row: seq<bool>, j: nat)
    requires j <= |row|
  {
    forall k :: 0 <= k < j ==> !row[k]
  }

  /** Each row keeps only its first set entry. */
  function FirstOnly(g: seq<seq<bool>>): (f: seq<seq<bool>>)
    requires Square(g, |g|)
    ensures Square(f, |g|)
    ensures forall i, j :: 0 <= i < |g| && 0 <= j < |g| ==> (f[i][j] <==> g[i][j] && NoneBefore(g[i], j))
  {
    seq(|g|, i requires 0 <= i < |g| => seq(|g|, j requires 0 <= j < |g| => g[i][j] && NoneBefore(g[i], j)))
  }

  /**
   * One pass with each triangle split at most once, against the first
   * triangle it qualifies against: the pass SplitTriangles evidently intends.
   */
  function SplitPassOnce(c: Created): Result<Passed, Fault>
  {
    PassWith(c, FirstOnly(Comparisons(c.triangles)))
  }

  // ---- a failure ends the pass ----

  lemma {:induction false} ScanFails(ts: seq<Triangle>, g: seq<seq<bool>>, i: nat, j: nat, n: nat, s: Pass)
    requires Square(g, |ts|) && i < |ts| && j <= n <= |ts|
    requires Scan(ts, g, i, j, s).Err?
    ensures Scan(ts, g, i, n, s) == Scan(ts, g, i, j, s)
    decreases n - j
  {
    if j < n {
      ScanFails(ts, g, i, j + 1, n, s);
    }
  }

  lemma {:induction false} RowsFail(ts: seq<Triangle>, g: seq<seq<bool>>, m: nat, n: nat, s: Pass)
    requires Square(g, |ts|) && m <= n <= |ts|
    requires Rows(ts, g, m, s).Err?
    ensures Rows(ts, g, n, s) == Rows(ts, g, m, s)
    decreases n - m
  {
    if m < n {
      RowsFail(ts, g, m + 1, n, s);
    }
  }

  /** One more row after rows that succeeded. */
  lemma RowsNext(ts: seq<Triangle>, g: seq<seq<bool>>, m: nat, s: Pass, state: Pass)
    requires Square(g, |ts|) && m < |ts|
    requires Rows(ts, g, m, s) == Ok(state)
    ensures Rows(ts, g, m + 1, s) == Scan(ts, g, |ts| - 1 - m, |ts|, state)
  {
  }

  // ---- the pass keeps every triangle linked to the node holding its B ----

  predicate PassLinked(ts: seq<Triangle>, s: Pass)
  {
    IdsBelow(s.polygons, s.nextId)
    && (forall t :: t in ts ==> Holds(s.polygons, t))
    && (forall t :: t in s.toAdd ==> Holds(s.polygons, t))
  }

  /** A split keeps every linked triangle linked, links both halves, and the new identity is fresh. */
  lemma SplitKeepsLinks(polygons: seq<seq<Node>>, nextId: nat, t: Triangle)
    requires Holds(polygons, t) && IdsBelow(polygons, nextId)
    ensures SplitAt(polygons, nextId, t).Ok?
    ensures var sp := SplitAt(polygons, nextId, t).value;
      IdsBelow(sp.polygons, nextId + 1) && Holds(sp.polygons, sp.first) && Holds(sp.polygons, sp.second)
      && forall u :: Holds(polygons, u) ==> Holds(sp.polygons, u)
  {
    var k, id := t.bNode.value.contour, t.bNode.value.id;
    var w :| 0 <= w < |polygons[k]| && polygons[k][w].id == id && polygons[k][w].point == t.b;
    assert NodeIndex(polygons[k], id).Some?;
    var sp := SplitAt(polygons, nextId, t).value;
    var node := Node(nextId, Split(t).newOnPoint);
    var m := NodeIndex(polygons[k], id).value;
    InsertKeepsLinks(polygons, nextId, k, id, Split(t).newOnPoint);
    assert sp.polygons == polygons[k := AddAfter(polygons[k], id, node).value];
    assert sp.polygons[k][m + 1] == node;
  }

  lemma StepLinked(ts: seq<Triangle>, g: seq<seq<bool>>, i: nat, j: nat, s: Pass)
    requires Square(g, |ts|) && i < |ts| && j < |ts|
    requires PassLinked(ts, s)
    ensures Step(ts, g, i, j, s).Ok? && PassLinked(ts, Step(ts, g, i, j, s).value)
  {
    if g[i][j] {
      assert ts[i] in ts;
      SplitKeepsLinks(s.polygons, s.nextId, ts[i]);
      var sp := SplitAt(s.polygons, s.nextId, ts[i]).value;
      forall t | t in s.toAdd + [sp.first, sp.second]
        ensures Holds(sp.polygons, t)
      {
        if t in s.toAdd {
          assert Holds(s.polygons, t);
        }
      }
    }
  }

  lemma {:induction false} ScanLinked(ts: seq<Triangle>, g: seq<seq<bool>>, i: nat, n: nat, s: Pass)
    requires Square(g, |ts|) && i < |ts| && n <= |ts|
    requires PassLinked(ts, s)
    ensures Scan(ts, g, i, n, s).Ok? && PassLinked(ts, Scan(ts, g, i, n, s).value)
  {
    if n > 0 {
      ScanLinked(ts, g, i, n - 1, s);
      StepLinked(ts, g, i, n - 1, Scan(ts, g, i, n - 1, s).value);
    }
  }

  lemma {:induction false} RowsLinked(ts: seq<Triangle>, g: seq<seq<bool>>, m: nat, s: Pass)
    requires Square(g, |ts|) && m <= |ts|
    requires PassLinked(ts, s)
    ensures Rows(ts, g, m, s).Ok? && PassLinked(ts, Rows(ts, g, m, s).value)
  {
    if m > 0 {
      RowsLinked(ts, g, m - 1, s);
      ScanLinked(ts, g, |ts| - m, |ts|, Rows(ts, g, m - 1, s).value);
    }
  }

  // ---- what a pass queues ----

  /** How many of the comparisons j < n of row i split. */
  function Hits(g: seq<seq<bool>>, i: nat, n: nat): (h: nat)
    requires i < |g| && n <= |g[i]|
    ensures h <= n
  {
    if n == 0 then 0 else Hits(g, i, n - 1) + (if g[i][n - 1] then 1 else 0)
  }

  /** i, n times. */
  function Repeat(i: nat, n: nat): (r: seq<nat>)
    ensures |r| == n && forall q :: 0 <= q < n ==> r[q] == i
  {
    if n == 0 then [] else Repeat(i, n - 1) + [i]
  }

  /** The row of triangle i over j < n: its index queued once per hit, two halves per hit. */
  lemma {:induction false} ScanQueues(ts: seq<Triangle>, g: seq<seq<bool>>, i: nat, n: nat, s: Pass)
    requires Square(g, |ts|) && i < |ts| && n <= |ts|
    requires Scan(ts, g, i, n, s).Ok?
    ensures var s' := Scan(ts, g, i, n, s).value;
      (s'.split <==> s.split || Hits(g, i, n) > 0)
      && s'.toRemove == s.toRemove + Repeat(i, Hits(g, i, n))
      && |s'.toAdd| == |s.toAdd| + 2 * Hits(g, i, n)
      && (Hits(g, i, n) == 0 ==> s' == s)
  {
    if n > 0 {
      ScanQueues(ts, g, i, n - 1, s);
      var s1 := Scan(ts, g, i, n - 1, s).value;
      assert Repeat(i, Hits(g, i, n - 1)) + (if g[i][n - 1] then [i] else []) == Repeat(i, Hits(g, i, n));
    }
  }

  /** Indices queued by the rows |g|-1 down to |g|-m, each once per hit. */
  function Queued(g: seq<seq<bool>>, m: nat): (q: seq<nat>)
    requires Square(g, |g|) && m <= |g|
  {
    if m == 0 then [] else Queued(g, m - 1) + Repeat(|g| - m, Hits(g, |g| - m, |g|))
  }

  /** Some comparison of the rows |g|-1 down to |g|-m splits. */
  predicate AnyHit(g: seq<seq<bool>>, m: nat)
    requires Square(g, |g|) && m <= |g|
  {
    exists r :: |g| - m <= r < |g| && Hits(g, r, |g|) > 0
  }

  lemma {:induction false} RowsQueue(ts: seq<Triangle>, g: seq<seq<bool>>, m: nat, s: Pass)
    requires Square(g, |ts|) && m <= |ts|
    requires Rows(ts, g, m, s).Ok?
    ensures var s' := Rows(ts, g, m, s).value;
      (s'.split <==> s.split || AnyHit(g, m))
      && s'.toRemove == s.toRemove + Queued(g, m)
      && |s'.toAdd| == |s.toAdd| + 2 * |Queued(g, m)|
      && (!AnyHit(g, m) ==> s' == s)
  {
    if m > 0 {
      RowsQueue(ts, g, m - 1, s);
      var s1 := Rows(ts, g, m - 1, s).value;
      var r := |ts| - m;
      ScanQueues(ts, g, r, |ts|, s1);
      assert Rows(ts, g, m, s) == Scan(ts, g, r, |ts|, s1);
      assert AnyHit(g, m) <==> AnyHit(g, m - 1) || Hits(g, r, |ts|) > 0;
      assert s.toRemove + Queued(g, m - 1) + Repeat(r, Hits(g, r, |ts|)) == s.toRemove + Queued(g, m);
    }
  }

  /** Some triangle qualifies against another. */
  predicate SomeQualify(ts: seq<Triangle>)
  {
    exists i, j :: 0 <= i < |ts| && 0 <= j < |ts| && Qualifies(ts, i, j)
  }

  lemma {:induction false} HitsCount(g: seq<seq<bool>>, i: nat, n: nat)
    requires i < |g| && n <= |g[i]|
    ensures Hits(g, i, n) > 0 <==> exists j :: 0 <= j < n && g[i][j]
  {
    if n > 0 {
      HitsCount(g, i, n - 1);
    }
  }

  lemma AnyHitExists(g: seq<seq<bool>>)
    requires Square(g, |g|)
    ensures AnyHit(g, |g|) <==> exists i, j :: 0 <= i < |g| && 0 <= j < |g| && g[i][j]
  {
    if AnyHit(g, |g|) {
      var r :| 0 <= r < |g| && Hits(g, r, |g|) > 0;
      HitsCount(g, r, |g|);
    }
    if exists i, j :: 0 <= i < |g| && 0 <= j < |g| && g[i][j] {
      var i, j :| 0 <= i < |g| && 0 <= j < |g| && g[i][j];
      HitsCount(g, i, |g|);
    }
  }

  /** Keeping only the first set entry of each row keeps every row that had one. */
  lemma FirstOnlyAnyHit(g: seq<seq<bool>>)
    requires Square(g, |g|)
    ensures AnyHit(FirstOnly(g), |g|) <==> AnyHit(g, |g|)
  {
    var f := FirstOnly(g);
    AnyHitExists(g);
    AnyHitExists(f);
    if exists i, j :: 0 <= i < |g| && 0 <= j < |g| && g[i][j] {
      var i, j :| 0 <= i < |g| && 0 <= j < |g| && g[i][j];
      var j0 := FirstSet(g[i], j);
      assert f[i][j0];
    }
  }

  lemma AnyHitIsSomeQualify(ts: seq<Triangle>)
    ensures AnyHit(Comparisons(ts), |ts|) <==> SomeQualify(ts)
    ensures AnyHit(FirstOnly(Comparisons(ts)), |ts|) <==> SomeQualify(ts)
  {
    var g := Comparisons(ts);
    AnyHitExists(g);
    FirstOnlyAnyHit(g);
    if exists i, j :: 0 <= i < |ts| && 0 <= j < |ts| && g[i][j] {
      var i, j :| 0 <= i < |ts| && 0 <= j < |ts| && g[i][j];
      assert Qualifies(ts, i, j);
    }
    if SomeQualify(ts) {
      var i, j :| 0 <= i < |ts| && 0 <= j < |ts| && Qualifies(ts, i, j);
      assert g[i][j];
    }
  }

  /** The first set entry of a row at or before a set entry j. */
  function FirstSet(row: seq<bool>, j: nat): (j0: nat)
    requires j < |row| && row[j]
    ensures j0 <= j && row[j0] && NoneBefore(row, j0)
  {
    if NoneBefore(row, j) then j
    else
      var k :| 0 <= k < j && row[k];
      FirstSet(row, k)
  }

  /**
   * A pass splits exactly when some comparison of g splits; a pass without
   * a split leaves everything as it was; on linked triangles it can only
   * fail in RemoveAt, and it keeps them linked.
   */
  lemma PassFacts(c: Created, g: seq<seq<bool>>)
    requires Square(g, |c.triangles|)
    ensures PassWith(c, g).Ok? ==> (PassWith(c, g).value.split <==> AnyHit(g, |g|))
    ensures PassWith(c, g).Ok? && !PassWith(c, g).value.split ==> PassWith(c, g).value.created == c
    ensures Linked(c) && PassWith(c, g).Err? ==> PassWith(c, g).error == IndexOutOfRange
    ensures Linked(c) && PassWith(c, g).Ok? ==> Linked(PassWith(c, g).value.created)
  {
    var ts := c.triangles;
    var s0 := Pass(c.polygons, c.nextId, [], [], false);
    if Linked(c) {
      RowsLinked(ts, g, |ts|, s0);
    }
    if Rows(ts, g, |ts|, s0).Ok? {
      RowsQueue(ts, g, |ts|, s0);
      var s := Rows(ts, g, |ts|, s0).value;
      if !s.split {
        assert s == s0;
        assert ts[..] + [] == ts;
      }
      if Linked(c) && RemoveAll(ts, s.toRemove).Ok? {
        var kept := RemoveAll(ts, s.toRemove).value;
        forall t | t in kept + s.toAdd
          ensures Holds(s.polygons, t)
        {
          if t in kept {
            assert t in multiset(kept);
          }
        }
      }
    }
  }

  /**
   * Both passes split exactly when some triangle qualifies against another,
   * change nothing otherwise, and keep linked triangles linked.
   */
  lemma SplitPassFacts(c: Created)
    ensures SplitPass(c).Ok? ==> (SplitPass(c).value.split <==> SomeQualify(c.triangles))
    ensures SplitPassOnce(c).Ok? ==> (SplitPassOnce(c).value.split <==> SomeQualify(c.triangles))
    ensures SplitPass(c).Ok? && !SplitPass(c).value.split ==> SplitPass(c).value.created == c
    ensures SplitPassOnce(c).Ok? && !SplitPassOnce(c).value.split ==> SplitPassOnce(c).value.created == c
    ensures Linked(c) && SplitPass(c).Err? ==> SplitPass(c).error == IndexOutOfRange
    ensures Linked(c) && SplitPass(c).Ok? ==> Linked(SplitPass(c).value.created)
    ensures Linked(c) && SplitPassOnce(c).Ok? ==> Linked(SplitPassOnce(c).value.created)
  {
    var g := Comparisons(c.triangles);
    AnyHitIsSomeQualify(c.triangles);
    PassFacts(c, g);
    PassFacts(c, FirstOnly(g));
  }

  // ---- the pass that splits each triangle at most once ----

  lemma {:induction false} FirstOnlyHits(g: seq<seq<bool>>, i: nat, n: nat)
    requires Square(g, |g|) && i < |g| && n <= |g|
    ensures Hits(FirstOnly(g), i, n) == if exists j :: 0 <= j < n && g[i][j] then 1 else 0
  {
    if n > 0 {
      FirstOnlyHits(g, i, n - 1);
      if exists j :: 0 <= j < n - 1 && g[i][j] {
        var j :| 0 <= j < n - 1 && g[i][j];
        assert !NoneBefore(g[i], n - 1);
      }
    }
  }

  /** The rows of g with a set entry. */
  function HitRows(g: seq<seq<bool>>): (r: set<nat>)
    requires Square(g, |g|)
    ensures forall i: nat :: i in r <==> i < |g| && Hits(g, i, |g|) > 0
  {
    set i: nat | i < |g| && Hits(g, i, |g|) > 0
  }

  /** Triangle i qualifies against some other triangle. */
  predicate QualifiesSome(ts: seq<Triangle>, i: nat)
    requires i < |ts|
  {
    exists j :: 0 <= j < |ts| && Qualifies(ts, i, j)
  }

  /** The triangles that qualify against some other triangle. */
  function SplitSet(ts: seq<Triangle>): (r: set<nat>)
    ensures forall i: nat :: i in r <==> i < |ts| && QualifiesSome(ts, i)
  {
    set i: nat | i < |ts| && QualifiesSome(ts, i)
  }

  lemma HitRowsAreSplitSet(ts: seq<Triangle>)
    ensures HitRows(Comparisons(ts)) == SplitSet(ts)
  {
    var g := Comparisons(ts);
    forall i | 0 <= i < |ts|
      ensures Hits(g, i, |ts|) > 0 <==> QualifiesSome(ts, i)
    {
      HitsCount(g, i, |ts|);
      if QualifiesSome(ts, i) {
        var j :| 0 <= j < |ts| && Qualifies(ts, i, j);
        assert g[i][j];
      }
      if exists j :: 0 <= j < |ts| && g[i][j] {
        var j :| 0 <= j < |ts| && g[i][j];
        assert Qualifies(ts, i, j);
      }
    }
  }

  /** With at most one hit per row, the queue is strictly decreasing and holds the rows with a hit. */
  lemma {:induction false} QueuedDecreasing(g: seq<seq<bool>>, m: nat)
    requires Square(g, |g|) && m <= |g|
    requires forall r :: |g| - m <= r < |g| ==> Hits(g, r, |g|) <= 1
    ensures StrictlyDecreasing(Queued(g, m))
    ensures forall x :: x in Queued(g, m) <==> |g| - m <= x < |g| && Hits(g, x, |g|) == 1
  {
    if m > 0 {
      QueuedDecreasing(g, m - 1);
      var r := |g| - m;
      var before := Queued(g, m - 1);
      assert forall q :: 0 <= q < |before| ==> before[q] in before;
      if Hits(g, r, |g|) == 1 {
        assert Queued(g, m) == before + [r];
      } else {
        assert Queued(g, m) == before;
      }
    }
  }

  lemma {:induction false} DecreasingDistinct(idx: seq<nat>)
    requires StrictlyDecreasing(idx)
    ensures |Indices(idx)| == |idx|
  {
    if |idx| > 0 {
      DecreasingDistinct(idx[..|idx| - 1]);
      assert idx[|idx| - 1] !in idx[..|idx| - 1];
    }
  }

  /** In the corrected table a row has at most one hit, and one exactly when the row had any. */
  lemma FirstOnlyRow(g: seq<seq<bool>>, r: nat)
    requires Square(g, |g|) && r < |g|
    ensures Hits(FirstOnly(g), r, |g|) <= 1
    ensures Hits(FirstOnly(g), r, |g|) == 1 <==> Hits(g, r, |g|) > 0
  {
    FirstOnlyHits(g, r, |g|);
    HitsCount(g, r, |g|);
  }

  /** The corrected table queues each row with a hit once, in decreasing order. */
  lemma QueuedOnce(g: seq<seq<bool>>)
    requires Square(g, |g|)
    ensures var q := Queued(FirstOnly(g), |g|);
      StrictlyDecreasing(q) && Indices(q) == HitRows(g) && |q| == |HitRows(g)|
      && forall k :: 0 <= k < |q| ==> q[k] < |g|
  {
    var f := FirstOnly(g);
    forall r | 0 <= r < |g|
      ensures Hits(f, r, |g|) <= 1
    {
      FirstOnlyRow(g, r);
    }
    QueuedDecreasing(f, |g|);
    var q := Queued(f, |g|);
    forall x: nat
      ensures x in Indices(q) <==> x in HitRows(g)
    {
      if x < |g| {
        FirstOnlyRow(g, x);
      }
    }
    assert Indices(q) == HitRows(g);
    DecreasingDistinct(q);
    forall k | 0 <= k < |q|
      ensures q[k] < |g|
    {
      assert q[k] in q;
    }
  }

  /** The corrected pass over any table: on linked triangles it removes exactly the rows with a hit. */
  lemma PassOnceExactWith(c: Created, g: seq<seq<bool>>)
    requires Square(g, |c.triangles|) && Linked(c)
    ensures PassWith(c, FirstOnly(g)).Ok?
    ensures var p := PassWith(c, FirstOnly(g)).value.created; var kept := Without(c.triangles, HitRows(g));
      |p.triangles| == |c.triangles| + |HitRows(g)| && |kept| <= |p.triangles| && p.triangles[..|kept|] == kept
  {
    var ts := c.triangles;
    var f := FirstOnly(g);
    var s0 := Pass(c.polygons, c.nextId, [], [], false);
    RowsLinked(ts, f, |ts|, s0);
    RowsQueue(ts, f, |ts|, s0);
    var s := Rows(ts, f, |ts|, s0).value;
    var q := Queued(f, |ts|);
    assert s.toRemove == q;
    QueuedOnce(g);
    RemoveDecreasing(ts, q);
    var kept := Without(ts, HitRows(g));
    assert RemoveAll(ts, s.toRemove) == Ok(kept);
    assert PassWith(c, f) == Ok(Passed(Created(s.polygons, kept + s.toAdd, s.nextId), s.split));
    assert |kept| == |ts| - |q|;
    assert (kept + s.toAdd)[..|kept|] == kept;
  }

  /**
   * On linked triangles the corrected pass succeeds and removes exactly the
   * triangles that qualify against another, keeping the rest in order, and
   * appends two halves for each.
   */
  lemma PassOnceExact(c: Created)
    requires Linked(c)
    ensures SplitPassOnce(c).Ok?
    ensures var p := SplitPassOnce(c).value.created; var kept := Without(c.triangles, SplitSet(c.triangles));
      |p.triangles| == |c.triangles| + |SplitSet(c.triangles)| && |kept| <= |p.triangles| && p.triangles[..|kept|] == kept
  {
    PassOnceExactWith(c, Comparisons(c.triangles));
    HitRowsAreSplitSet(c.triangles);
  }

  /** With at most one hit per row, the corrected pass is the pass as written. */
  lemma {:induction false} FirstOnlyUnchanged(g: seq<seq<bool>>)
    requires Square(g, |g|)
    requires forall r :: 0 <= r < |g| ==> Hits(g, r, |g|) <= 1
    ensures FirstOnly(g) == g
  {
    var f := FirstOnly(g);
    forall i, j | 0 <= i < |g| && 0 <= j < |g|
      ensures f[i][j] == g[i][j]
    {
      if g[i][j] && !NoneBefore(g[i], j) {
        var k :| 0 <= k < j && g[i][k];
        TwoHits(g, i, k, j, |g|);
      }
    }
    forall i | 0 <= i < |g|
      ensures f[i] == g[i]
    {
    }
  }

  lemma {:induction false} TwoHits(g: seq<seq<bool>>, i: nat, k: nat, j: nat, n: nat)
    requires Square(g, |g|) && i < |g| && k < j < n <= |g|
    requires g[i][k] && g[i][j]
    ensures Hits(g, i, n) >= 2
  {
    if j < n - 1 {
      TwoHits(g, i, k, j, n - 1);
    } else {
      HitsCount(g, i, j);
    }
  }

  // ---- the pass as written, on a triangle that qualifies twice ----

  lemma {:induction false} QueuedNone(g: seq<seq<bool>>, m: nat)
    requires Square(g, |g|) && m <= |g|
    requires forall r :: |g| - m <= r < |g| ==> Hits(g, r, |g|) == 0
    ensures Queued(g, m) == []
  {
    if m > 0 {
      QueuedNone(g, m - 1);
    }
  }

  lemma QueuedTwiceFront(g: seq<seq<bool>>)
    requires Square(g, |g|) && |g| >= 1
    requires Hits(g, 0, |g|) == 2
    requires forall r :: 1 <= r < |g| ==> Hits(g, r, |g|) == 0
    ensures Queued(g, |g|) == [0, 0]
  {
    QueuedNone(g, |g| - 1);
    assert Queued(g, |g|) == Queued(g, |g| - 1) + Repeat(0, 2);
  }

  lemma TwiceSplitDropsNextWith(c: Created, g: seq<seq<bool>>)
    requires Square(g, |c.triangles|) && Linked(c) && |c.triangles| >= 2
    requires Hits(g, 0, |g|) == 2
    requires forall r :: 1 <= r < |g| ==> Hits(g, r, |g|) == 0
    ensures PassWith(c, g).Ok?
    ensures var p := PassWith(c, g).value.created;
      |p.triangles| == |c.triangles| + 2 && p.triangles[..|c.triangles| - 2] == c.triangles[2..]
  {
    var ts := c.triangles;
    var s0 := Pass(c.polygons, c.nextId, [], [], false);
    RowsLinked(ts, g, |ts|, s0);
    RowsQueue(ts, g, |ts|, s0);
    QueuedTwiceFront(g);
    var s := Rows(ts, g, |ts|, s0).value;
    assert s.toRemove == [0, 0] && |s.toAdd| == 4;
    RemoveFrontTwice(ts);
    assert PassWith(c, g) == Ok(Passed(Created(s.polygons, ts[2..] + s.toAdd, s.nextId), s.split));
    assert (ts[2..] + s.toAdd)[..|ts| - 2] == ts[2..];
  }

  /**
   * When triangle 0 qualifies against two others and no other triangle
   * qualifies, the pass as written queues index 0 twice: the second RemoveAt
   * deletes triangle 1, which was not split, and the halves are added twice.
   */
  lemma TwiceSplitDropsNext(c: Created)
    requires Linked(c) && |c.triangles| >= 2
    requires Hits(Comparisons(c.triangles), 0, |c.triangles|) == 2
    requires forall r :: 1 <= r < |c.triangles| ==> Hits(Comparisons(c.triangles), r, |c.triangles|) == 0
    ensures SplitPass(c).Ok?
    ensures var p := SplitPass(c).value.created;
      |p.triangles| == |c.triangles| + 2 && p.triangles[..|c.triangles| - 2] == c.triangles[2..]
  {
    TwiceSplitDropsNextWith(c, Comparisons(c.triangles));
  }

  // ---- the passes ----

  datatype Passes = Passes(created: Created, count: nat)

  /** A table for every list of triangles, each square. */
  ghost predicate Tables(cmp: seq<Triangle> -> seq<seq<bool>>)
  {
    forall ts :: Square(cmp(ts), |ts|)
  }

  /**
   * The table a pass works from: as written every entry, so that a triangle
   * is split once per triangle it qualifies against; corrected only the
   * first entry of each row.
   */
  function Table(rule: Rule, g: seq<seq<bool>>): (f: seq<seq<bool>>)
    requires Square(g, |g|)
    ensures Square(f, |g|)
    ensures rule == AsWritten ==> f == g
    ensures rule == Corrected ==> f == FirstOnly(g)
  {
    match rule
    case AsWritten => g
    case Corrected => FirstOnly(g)
  }

  /**
   * The do-while loop, the table of each pass given by cmp and read under
   * rule: passes until one splits nothing, at most four.
   */
  function PassesUnder(rule: Rule, cmp: seq<Triangle> -> seq<seq<bool>>, c: Created, done: nat): (r: Result<Passes, Fault>)
    requires done < 4 && Tables(cmp)
    ensures r.Ok? ==> done < r.value.count <= 4
    decreases 4 - done
  {
    var p :- PassWith(c, Table(rule, cmp(c.triangles)));
    if p.split && done + 1 < 4 then PassesUnder(rule, cmp, p.created, done + 1)
    else Ok(Passes(p.created, done + 1))
  }

  lemma ComparisonTables()
    ensures Tables(Comparisons)
  {
    forall ts: seq<Triangle>
      ensures Square(Comparisons(ts), |ts|)
    {
    }
  }

  /** The passes of the glyph's constructor: SplitTriangles as written, or the corrected pass. */
  function SplitPasses(rule: Rule, c: Created, done: nat): (r: Result<Passes, Fault>)
    requires done < 4
    ensures r.Ok? ==> done < r.value.count <= 4
  {
    ComparisonTables();
    PassesUnder(rule, Comparisons, c, done)
  }

  /** A pass under either rule that splits nothing leaves the triangles alone, and its table has no hit. */
  lemma Settles(rule: Rule, c: Created, g: seq<seq<bool>>)
    requires Square(g, |c.triangles|)
    requires PassWith(c, Table(rule, g)).Ok? && !PassWith(c, Table(rule, g)).value.split
    ensures PassWith(c, Table(rule, g)).value.created == c
    ensures !AnyHit(g, |g|)
  {
    PassFacts(c, Table(rule, g));
    FirstOnlyAnyHit(g);
  }

  /** PassesUnder, one pass unfolded. */
  lemma PassesNext(rule: Rule, cmp: seq<Triangle> -> seq<seq<bool>>, c: Created, done: nat, g: seq<seq<bool>>)
    requires done < 4 && Tables(cmp) && g == cmp(c.triangles)
    ensures PassWith(c, Table(rule, g)).Err? ==> PassesUnder(rule, cmp, c, done).Err?
    ensures PassWith(c, Table(rule, g)).Ok? ==>
      var p := PassWith(c, Table(rule, g)).value;
      PassesUnder(rule, cmp, c, done) == if p.split && done + 1 < 4 then PassesUnder(rule, cmp, p.created, done + 1)
                                         else Ok(Passes(p.created, done + 1))
  {
  }

  lemma {:induction false} PassesStop(rule: Rule, cmp: seq<Triangle> -> seq<seq<bool>>, c: Created, done: nat)
    requires done < 4 && Tables(cmp)
    ensures PassesUnder(rule, cmp, c, done).Ok? && PassesUnder(rule, cmp, c, done).value.count < 4 ==>
      !AnyHit(cmp(PassesUnder(rule, cmp, c, done).value.created.triangles), |PassesUnder(rule, cmp, c, done).value.created.triangles|)
    decreases 4 - done
  {
    var r := PassesUnder(rule, cmp, c, done);
    if r.Ok? && r.value.count < 4 {
      var g := cmp(c.triangles);
      PassesNext(rule, cmp, c, done, g);
      var p := PassWith(c, Table(rule, g)).value;
      if p.split && done + 1 < 4 {
        PassesStop(rule, cmp, p.created, done + 1);
      } else {
        assert r.value == Passes(p.created, done + 1);
        Settles(rule, c, g);
      }
    }
  }

  /**
   * On linked triangles the passes keep them linked; the corrected passes
   * always succeed, the passes as written can only fail in RemoveAt.
   */
  lemma {:induction false} PassesLinked(rule: Rule, cmp: seq<Triangle> -> seq<seq<bool>>, c: Created, done: nat)
    requires done < 4 && Tables(cmp) && Linked(c)
    ensures rule == Corrected ==> PassesUnder(rule, cmp, c, done).Ok?
    ensures PassesUnder(rule, cmp, c, done).Err? ==> PassesUnder(rule, cmp, c, done).error == IndexOutOfRange
    ensures PassesUnder(rule, cmp, c, done).Ok? ==> Linked(PassesUnder(rule, cmp, c, done).value.created)
    decreases 4 - done
  {
    var g := cmp(c.triangles);
    assert Square(g, |c.triangles|);
    PassFacts(c, Table(rule, g));
    if rule == Corrected {
      PassOnceExactWith(c, g);
    }
    var once := PassWith(c, Table(rule, g));
    if once.Ok? {
      var p := once.value;
      if p.split && done + 1 < 4 {
        PassesLinked(rule, cmp, p.created, done + 1);
      }
    }
  }

  /**
   * The passes stop after four, or after a pass that found nothing to split;
   * on linked triangles they keep the triangles linked, the corrected passes
   * succeed and the passes as written fail only with an index error.
   */
  lemma PassesFacts(rule: Rule, c: Created)
    ensures SplitPasses(rule, c, 0).Ok? ==>
      1 <= SplitPasses(rule, c, 0).value.count <= 4
      && (SplitPasses(rule, c, 0).value.count == 4 || !SomeQualify(SplitPasses(rule, c, 0).value.created.triangles))
    ensures Linked(c) && rule == Corrected ==> SplitPasses(rule, c, 0).Ok?
    ensures Linked(c) && SplitPasses(rule, c, 0).Err? ==> SplitPasses(rule, c, 0).error == IndexOutOfRange
    ensures Linked(c) && SplitPasses(rule, c, 0).Ok? ==> Linked(SplitPasses(rule, c, 0).value.created)
  {
    ComparisonTables();
    PassesStop(rule, Comparisons, c, 0);
    if Linked(c) {
      PassesLinked(rule, Comparisons, c, 0);
    }
    if SplitPasses(rule, c, 0).Ok? {
      AnyHitIsSomeQualify(SplitPasses(rule, c, 0).value.created.triangles);
    }
  }

  // ---- the loops ----

  /** The body of the inner loop: triangle i against triangle j. */
  method Compare(ts: seq<Triangle>, ghost g: seq<seq<bool>>, i: nat, j: nat, s: Pass)
    returns (r: Result<Pass, Fault>, hit: bool)
    requires i < |ts| && j < |ts| && Records(ts, g)
    ensures r == Step(ts, g, i, j, s)
    ensures hit == Qualifies(ts, i, j)
  {
    hit := false;
    if i == j || i - 1 == j || i + 1 == j || (i == |ts| - 1 && j == 0) || (i == 0 && j == |ts| - 1) {
      assert !Qualifies(ts, i, j);
      return Ok(s), hit;
    }
    var triangleA, triangleB := ts[i], ts[j];
    if IntersectsWith(triangleA, triangleB) && Area(triangleA) > Area(triangleB) {
      assert Qualifies(ts, i, j);
      hit := true;
      var spliced := SplitAt(s.polygons, s.nextId, triangleA);
      if spliced.Err? {
        return Err(spliced.error), hit;
      }
      var newTriangles := [spliced.value.first, spliced.value.second];
      return Ok(Pass(spliced.value.polygons, s.nextId + 1, s.toRemove + [i], s.toAdd + newTriangles, true)), hit;
    }
    assert !Qualifies(ts, i, j);
    return Ok(s), hit;
  }

  /** The inner loop: triangle i against every triangle j. */
  method ScanRow(ts: seq<Triangle>, ghost g: seq<seq<bool>>, i: nat, s: Pass) returns (r: Result<Pass, Fault>)
    requires i < |ts| && Records(ts, g)
    ensures r == Scan(ts, g, i, |ts|, s)
  {
    var state := s;
    for j := 0 to |ts|
      invariant Scan(ts, g, i, j, s) == Ok(state)
    {
      var next, _ := Compare(ts, g, i, j, state);
      if next.Err? {
        ScanFails(ts, g, i, j + 1, |ts|, s);
        return next;
      }
      state := next.value;
    }
    return Ok(state);
  }

  /** No entry of row i from column j on is set: the rest of the row changes nothing. */
  lemma {:induction false} ScanIdle(ts: seq<Triangle>, g: seq<seq<bool>>, i: nat, j: nat, n: nat, s: Pass)
    requires Square(g, |ts|) && i < |ts| && j <= n <= |ts|
    requires forall k :: j <= k < n ==> !g[i][k]
    ensures Scan(ts, g, i, n, s) == Scan(ts, g, i, j, s)
  {
    if j < n {
      ScanIdle(ts, g, i, j, n - 1, s);
    }
  }

  /** Row i of the corrected table agrees with the full one up to and including its first hit, and is clear after it. */
  lemma FirstOnlyPrefix(g: seq<seq<bool>>, i: nat, j: nat)
    requires Square(g, |g|) && i < |g| && j < |g| && NoneBefore(g[i], j)
    ensures FirstOnly(g)[i][j] == g[i][j]
    ensures g[i][j] ==> forall k :: j < k < |g| ==> !FirstOnly(g)[i][k]
  {
    if g[i][j] {
      forall k | j < k < |g|
        ensures !FirstOnly(g)[i][k]
      {
        assert !NoneBefore(g[i], k);
      }
    }
  }

  /** Scan over one more comparison, given the comparisons before it. */
  lemma ScanNext(ts: seq<Triangle>, g: seq<seq<bool>>, f: seq<seq<bool>>, i: nat, j: nat, s: Pass, state: Pass)
    requires Square(g, |ts|) && Square(f, |ts|) && i < |ts| && j < |ts| && f[i][j] == g[i][j]
    requires Scan(ts, f, i, j, s) == Ok(state)
    ensures Scan(ts, f, i, j + 1, s) == Step(ts, g, i, j, state)
  {
  }

  /** The inner loop, leaving it at the first triangle that triangle i qualifies against. */
  method ScanRowFirst(ts: seq<Triangle>, ghost g: seq<seq<bool>>, ghost f: seq<seq<bool>>, i: nat, s: Pass)
    returns (r: Result<Pass, Fault>)
    requires i < |ts| && Records(ts, g) && f == FirstOnly(g)
    ensures r == Scan(ts, f, i, |ts|, s)
  {
    var state := s;
    for j := 0 to |ts|
      invariant Scan(ts, f, i, j, s) == Ok(state)
      invariant NoneBefore(g[i], j)
    {
      var next, hit := Compare(ts, g, i, j, state);
      FirstOnlyPrefix(g, i, j);
      ScanNext(ts, g, f, i, j, s, state);
      if next.Err? {
        ScanFails(ts, f, i, j + 1, |ts|, s);
        return next;
      }
      state := next.value;
      if hit {
        ScanIdle(ts, f, i, j + 1, |ts|, s);
        return Ok(state);
      }
    }
    return Ok(state);
  }

  /** The outer loop: triangles |ts|-1 down to 0. */
  method ScanRows(ts: seq<Triangle>, ghost g: seq<seq<bool>>, s: Pass) returns (r: Result<Pass, Fault>)
    requires Records(ts, g)
    ensures r == Rows(ts, g, |ts|, s)
  {
    var state := s;
    var i := |ts| - 1;
    while i >= 0
      invariant -1 <= i < |ts|
      invariant Rows(ts, g, |ts| - 1 - i, s) == Ok(state)
      decreases i
    {
      var row := ScanRow(ts, g, i, state);
      RowsNext(ts, g, |ts| - 1 - i, s, state);
      if row.Err? {
        RowsFail(ts, g, |ts| - i, |ts|, s);
        return row;
      }
      state := row.value;
      i := i - 1;
    }
    return Ok(state);
  }

  /** The outer loop of the corrected pass. */
  method ScanRowsFirst(ts: seq<Triangle>, ghost g: seq<seq<bool>>, s: Pass) returns (r: Result<Pass, Fault>)
    requires Records(ts, g)
    ensures r == Rows(ts, FirstOnly(g), |ts|, s)
  {
    ghost var f := FirstOnly(g);
    var state := s;
    var i := |ts| - 1;
    while i >= 0
      invariant -1 <= i < |ts|
      invariant Rows(ts, f, |ts| - 1 - i, s) == Ok(state)
      decreases i
    {
      var row := ScanRowFirst(ts, g, f, i, state);
      RowsNext(ts, f, |ts| - 1 - i, s, state);
      if row.Err? {
        RowsFail(ts, f, |ts| - i, |ts|, s);
        return row;
      }
      state := row.value;
      i := i - 1;
    }
    return Ok(state);
  }

  /** SplitTriangles: one pass, true when something was split. */
  method SplitTriangles(c: Created) returns (r: Result<Passed, Fault>)
    ensures r == SplitPass(c)
  {
    var ts := c.triangles;
    var rows := ScanRows(ts, Comparisons(ts), Pass(c.polygons, c.nextId, [], [], false));
    if rows.Err? {
      return Err(rows.error);
    }
    var s := rows.value;
    var kept := RemoveQueued(ts, s.toRemove);
    if kept.Err? {
      return Err(kept.error);
    }
    return Ok(Passed(Created(s.polygons, kept.value + s.toAdd, s.nextId), s.split));
  }

  /** The corrected pass: each triangle split at most once. */
  method SplitTrianglesOnce(c: Created) returns (r: Result<Passed, Fault>)
    ensures r == SplitPassOnce(c)
  {
    var ts := c.triangles;
    var rows := ScanRowsFirst(ts, Comparisons(ts), Pass(c.polygons, c.nextId, [], [], false));
    if rows.Err? {
      return Err(rows.error);
    }
    var s := rows.value;
    var kept := RemoveQueued(ts, s.toRemove);
    if kept.Err? {
      return Err(kept.error);
    }
    return Ok(Passed(Created(s.polygons, kept.value + s.toAdd, s.nextId), s.split));
  }

  /** The do-while loop of the glyph's constructor, each pass SplitTriangles as written or the corrected pass. */
  method SplitUntilDone(rule: Rule, c: Created) returns (r: Result<Passes, Fault>)
    ensures r == SplitPasses(rule, c, 0)
  {
    var created := c;
    var count := 0;
    while true
      invariant count < 4
      invariant SplitPasses(rule, c, 0) == SplitPasses(rule, created, count)
      decreases 4 - count
    {
      var pass;
      if rule == AsWritten {
        pass := SplitTriangles(created);
      } else {
        pass := SplitTrianglesOnce(created);
      }
      if pass.Err? {
        return Err(pass.error);
      }
      created := pass.value.created;
      count := count + 1;
      if !(pass.value.split && count < 4) {
        return Ok(Passes(created, count));
      }
    }
  }
}
