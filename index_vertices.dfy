/**
 * IndexVertices: the triangulator's triangles become an index buffer. A mesh
 * vertex seen for the first time gets the next index and a new plain vertex;
 * a vertex seen before reuses its index.
 */
module MeshIndexing {
  import opened Vertices

  /** A vertex of the triangulator's mesh, with its identity. */
  datatype MeshVertex = MeshVertex(id: int, x: real, y: real)

  /** A triangle of the mesh; P0, P1, P2 are the identities of its corners. */
  datatype MeshTriangle = MeshTriangle(v0: MeshVertex, v1: MeshVertex, v2: MeshVertex)

  /** The dictionary from identities to indices, the next index, and the buffers filled so far. */
  datatype Indexing = Indexing(dict: map<int, nat>, highest: nat, indices: seq<int>, vertices: seq<Vertex>)

  const Start := Indexing(map[], 0, [], [])

  /** The corners of all triangles in order, three per triangle. */
  function Corners(ts: seq<MeshTriangle>): (cs: seq<MeshVertex>)
    ensures |cs| == 3 * |ts|
  {
    if |ts| == 0 then [] else Corners(ts[..|ts| - 1]) + [ts[|ts| - 1].v0, ts[|ts| - 1].v1, ts[|ts| - 1].v2]
  }

  /** The distinct identities among some corners. */
  function Ids(cs: seq<MeshVertex>): set<int>
  {
    if |cs| == 0 then {} else Ids(cs[..|cs| - 1]) + {cs[|cs| - 1].id}
  }

  function PlainOf(toSingle: real -> Single, v: MeshVertex): Vertex
  {
    Plain(toSingle(v.x), toSingle(v.y))
  }

  /** One corner: the stored index of a known identity, or the next index and a new vertex. */
  function Place(s: Indexing, toSingle: real -> Single, v: MeshVertex): Indexing
  {
    if v.id in s.dict then s.(indices := s.indices + [s.dict[v.id]])
    else Indexing(s.dict[v.id := s.highest], s.highest + 1, s.indices + [s.highest], s.vertices + [PlainOf(toSingle, v)])
  }

  /** Corners 0 .. n-1 placed in order from a given state. */
  function PlaceAll(s: Indexing, toSingle: real -> Single, cs: seq<MeshVertex>, n: nat): Indexing
    requires n <= |cs|
  {
    if n == 0 then s else Place(PlaceAll(s, toSingle, cs, n - 1), toSingle, cs[n - 1])
  }

  /** A state with earlier output in front of its buffers. */
  function Behind(s: Indexing, indices: seq<int>, vertices: seq<Vertex>): Indexing
  {
    s.(indices := indices + s.indices, vertices := vertices + s.vertices)
  }

  /** The same identity always comes with the same coordinates. */
  predicate Consistent(cs: seq<MeshVertex>)
  {
    forall a, b :: 0 <= a < |cs| && 0 <= b < |cs| && cs[a].id == cs[b].id ==> cs[a].x == cs[b].x && cs[a].y == cs[b].y
  }

  /**
   * What the loop keeps after n corners: one vertex per index handed out, the
   * dictionary's keys are the identities seen, every corner's index is the one
   * stored for its identity, and each stored index holds the vertex of a
   * corner that had it.
   */
  predicate Indexed(toSingle: real -> Single, cs: seq<MeshVertex>, n: nat, s: Indexing)
    requires n <= |cs|
  {
    Counted(cs, n, s) && Stored(cs, n, s) && Holding(toSingle, cs, n, s)
  }

  predicate Counted(cs: seq<MeshVertex>, n: nat, s: Indexing)
    requires n <= |cs|
  {
    s.highest == |s.vertices| == |s.dict| && s.dict.Keys == Ids(cs[..n]) && |s.indices| == n
    && forall id :: id in s.dict ==> s.dict[id] < s.highest
  }

  predicate Stored(cs: seq<MeshVertex>, n: nat, s: Indexing)
    requires n <= |cs|
  {
    |s.indices| == n && forall k :: 0 <= k < n ==> cs[k].id in s.dict && s.indices[k] == s.dict[cs[k].id]
  }

  predicate Holding(toSingle: real -> Single, cs: seq<MeshVertex>, n: nat, s: Indexing)
    requires n <= |cs|
  {
    forall id :: id in s.dict ==>
      (s.dict[id] < |s.vertices|
       && exists k :: 0 <= k < n && cs[k].id == id && s.vertices[s.dict[id]] == PlainOf(toSingle, cs[k]))
  }

  // ---- properties ----

  lemma IdsNext(cs: seq<MeshVertex>, n: nat)
    requires n < |cs|
    ensures Ids(cs[..n + 1]) == Ids(cs[..n]) + {cs[n].id}
  {
    assert cs[..n + 1][..n] == cs[..n];
  }

  lemma PlaceCounted(toSingle: real -> Single, cs: seq<MeshVertex>, n: nat, s: Indexing)
    requires n < |cs| && Counted(cs, n, s)
    ensures Counted(cs, n + 1, Place(s, toSingle, cs[n]))
  {
    IdsNext(cs, n);
    if cs[n].id !in s.dict {
      assert s.dict[cs[n].id := s.highest].Keys == s.dict.Keys + {cs[n].id};
    }
  }

  lemma PlaceStored(toSingle: real -> Single, cs: seq<MeshVertex>, n: nat, s: Indexing)
    requires n < |cs| && Stored(cs, n, s)
    ensures Stored(cs, n + 1, Place(s, toSingle, cs[n]))
  {
  }

  lemma PlaceHolding(toSingle: real -> Single, cs: seq<MeshVertex>, n: nat, s: Indexing)
    requires n < |cs| && Holding(toSingle, cs, n, s) && s.highest == |s.vertices|
    ensures Holding(toSingle, cs, n + 1, Place(s, toSingle, cs[n]))
  {
    var t := Place(s, toSingle, cs[n]);
    forall id | id in t.dict
      ensures t.dict[id] < |t.vertices|
      ensures exists k :: 0 <= k < n + 1 && cs[k].id == id && t.vertices[t.dict[id]] == PlainOf(toSingle, cs[k])
    {
      if id in s.dict {
        var k :| 0 <= k < n && cs[k].id == id && s.vertices[s.dict[id]] == PlainOf(toSingle, cs[k]);
        assert t.vertices[t.dict[id]] == PlainOf(toSingle, cs[k]);
      } else {
        assert t.vertices[t.dict[id]] == PlainOf(toSingle, cs[n]);
      }
    }
  }

  /** Placing one more corner keeps the loop's invariant. */
  lemma PlaceKeeps(toSingle: real -> Single, cs: seq<MeshVertex>, n: nat, s: Indexing)
    requires n < |cs| && Indexed(toSingle, cs, n, s)
    ensures Indexed(toSingle, cs, n + 1, Place(s, toSingle, cs[n]))
  {
    PlaceCounted(toSingle, cs, n, s);
    PlaceStored(toSingle, cs, n, s);
    PlaceHolding(toSingle, cs, n, s);
  }

  lemma {:induction false} PrefixIndexed(toSingle: real -> Single, cs: seq<MeshVertex>, n: nat)
    requires n <= |cs|
    ensures Indexed(toSingle, cs, n, PlaceAll(Start, toSingle, cs, n))
  {
    if n > 0 {
      PrefixIndexed(toSingle, cs, n - 1);
      PlaceKeeps(toSingle, cs, n - 1, PlaceAll(Start, toSingle, cs, n - 1));
    }
  }

  /**
   * IndexVertices over all corners: one index per corner, every index names a
   * vertex, and there are exactly as many vertices as distinct identities.
   */
  lemma IndexBounds(toSingle: real -> Single, cs: seq<MeshVertex>)
    ensures var s := PlaceAll(Start, toSingle, cs, |cs|);
      |s.indices| == |cs| && |s.vertices| == |Ids(cs)|
      && forall k :: 0 <= k < |cs| ==> 0 <= s.indices[k] < |s.vertices|
  {
    PrefixIndexed(toSingle, cs, |cs|);
    assert cs[..|cs|] == cs;
  }

  /** With consistent identities, corner k's index names that corner's own point. */
  lemma IndexFaithful(toSingle: real -> Single, cs: seq<MeshVertex>)
    requires Consistent(cs)
    ensures var s := PlaceAll(Start, toSingle, cs, |cs|);
      |s.indices| == |cs|
      && forall k :: 0 <= k < |cs| ==> 0 <= s.indices[k] < |s.vertices| && s.vertices[s.indices[k]] == PlainOf(toSingle, cs[k])
  {
    var s := PlaceAll(Start, toSingle, cs, |cs|);
    PrefixIndexed(toSingle, cs, |cs|);
    forall k | 0 <= k < |cs|
      ensures 0 <= s.indices[k] < |s.vertices| && s.vertices[s.indices[k]] == PlainOf(toSingle, cs[k])
    {
      var id := cs[k].id;
      var j :| 0 <= j < |cs| && cs[j].id == id && s.vertices[s.dict[id]] == PlainOf(toSingle, cs[j]);
    }
  }

  /** Every vertex the indexing creates is a plain mesh vertex. */
  lemma {:induction false} IndexPlain(toSingle: real -> Single, cs: seq<MeshVertex>, n: nat)
    requires n <= |cs|
    ensures forall m :: 0 <= m < |PlaceAll(Start, toSingle, cs, n).vertices| ==>
      !PlaceAll(Start, toSingle, cs, n).vertices[m].isCurve && !PlaceAll(Start, toSingle, cs, n).vertices[m].isInside
  {
    if n > 0 {
      IndexPlain(toSingle, cs, n - 1);
    }
  }

  // ---- the loop as the converter runs it ----

  /** IndexVertices for one triangle: corners P0, P1, P2 in turn against the shared dictionary. */
  method IndexVertices(triangle: MeshTriangle, toSingle: real -> Single, indexDict: map<int, nat>, highestIndex: nat)
    returns (newVertices: seq<Vertex>, newIndices: seq<int>, dict: map<int, nat>, highest: nat)
    ensures Indexing(dict, highest, newIndices, newVertices)
      == PlaceAll(Indexing(indexDict, highestIndex, [], []), toSingle, [triangle.v0, triangle.v1, triangle.v2], 3)
  {
    dict, highest := indexDict, highestIndex;
    newVertices, newIndices := [], [];
    var corners := [triangle.v0, triangle.v1, triangle.v2];
    for k := 0 to 3
      invariant Indexing(dict, highest, newIndices, newVertices)
        == PlaceAll(Indexing(indexDict, highestIndex, [], []), toSingle, corners, k)
    {
      var vertex := corners[k];
      if vertex.id in dict {
        newIndices := newIndices + [dict[vertex.id]];
      } else {
        newVertices := newVertices + [Plain(toSingle(vertex.x), toSingle(vertex.y))];
        dict := dict[vertex.id := highest];
        newIndices := newIndices + [highest];
        highest := highest + 1;
      }
    }
  }

  /** The loop over the mesh's triangles, appending each triangle's indices and vertices. */
  method IndexMesh(ts: seq<MeshTriangle>, toSingle: real -> Single) returns (indices: seq<int>, vertices: seq<Vertex>)
    ensures var s := PlaceAll(Start, toSingle, Corners(ts), 3 * |ts|);
      indices == s.indices && vertices == s.vertices
  {
    var dict: map<int, nat>, highest: nat := map[], 0;
    indices, vertices := [], [];
    for i := 0 to |ts|
      invariant Indexing(dict, highest, indices, vertices) == PlaceAll(Start, toSingle, Corners(ts[..i]), 3 * i)
      invariant |Corners(ts[..i])| == 3 * i
    {
      var newVertices, newIndices;
      newVertices, newIndices, dict, highest := IndexVertices(ts[i], toSingle, dict, highest);
      indices := indices + newIndices;
      vertices := vertices + newVertices;
      assert ts[..i + 1][..i] == ts[..i];
      assert Corners(ts[..i + 1]) == Corners(ts[..i]) + [ts[i].v0, ts[i].v1, ts[i].v2];
      PrefixExtends(toSingle, Corners(ts[..i]), [ts[i].v0, ts[i].v1, ts[i].v2]);
    }
    assert ts[..|ts|] == ts;
  }

  /** Earlier output in front does not change what the placements add. */
  lemma {:induction false} PlaceAllBehind(s: Indexing, toSingle: real -> Single, cs: seq<MeshVertex>, n: nat, indices: seq<int>, vertices: seq<Vertex>)
    requires n <= |cs|
    ensures PlaceAll(Behind(s, indices, vertices), toSingle, cs, n) == Behind(PlaceAll(s, toSingle, cs, n), indices, vertices)
  {
    if n > 0 {
      PlaceAllBehind(s, toSingle, cs, n - 1, indices, vertices);
    }
  }

  /** Placing a list and then more corners is placing the joined list. */
  lemma {:induction false} PlaceAllAppend(s: Indexing, toSingle: real -> Single, cs: seq<MeshVertex>, more: seq<MeshVertex>, k: nat)
    requires k <= |more|
    ensures PlaceAll(s, toSingle, cs + more, |cs| + k) == PlaceAll(PlaceAll(s, toSingle, cs, |cs|), toSingle, more, k)
  {
    if k == 0 {
      PrefixStable(s, toSingle, cs, more, |cs|);
    } else {
      PlaceAllAppend(s, toSingle, cs, more, k - 1);
      assert (cs + more)[|cs| + k - 1] == more[k - 1];
    }
  }

  /** Placing a triangle's corners after a prefix is placing the longer list. */
  lemma PrefixExtends(toSingle: real -> Single, cs: seq<MeshVertex>, more: seq<MeshVertex>)
    requires |more| == 3
    ensures var s := PlaceAll(Start, toSingle, cs, |cs|);
      PlaceAll(Start, toSingle, cs + more, |cs| + 3)
        == Behind(PlaceAll(Indexing(s.dict, s.highest, [], []), toSingle, more, 3), s.indices, s.vertices)
  {
    var s := PlaceAll(Start, toSingle, cs, |cs|);
    var e := Indexing(s.dict, s.highest, [], []);
    PlaceAllAppend(Start, toSingle, cs, more, 3);
    assert s == Behind(e, s.indices, s.vertices);
    PlaceAllBehind(e, toSingle, more, 3, s.indices, s.vertices);
  }

  lemma {:induction false} PrefixStable(s: Indexing, toSingle: real -> Single, cs: seq<MeshVertex>, more: seq<MeshVertex>, n: nat)
    requires n <= |cs|
    ensures PlaceAll(s, toSingle, cs + more, n) == PlaceAll(s, toSingle, cs, n)
  {
    if n > 0 {
      PrefixStable(s, toSingle, cs, more, n - 1);
    }
  }
}
