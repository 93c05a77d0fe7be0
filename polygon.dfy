/**
 * The glyph's polygons are linked lists whose nodes the curve triangles point
 * at. A list is kept as a sequence of nodes, each with an identity that no
 * other node of the glyph shares; a reference to a node is its identity.
 */
module Polygons {
  import opened Wrappers
  import opened ControlPoints

  datatype Node = Node(id: nat, point: ControlPoint)

  /** The exceptions the triangulation can raise. */
  datatype Fault =
    | NullReference        // a null contour, or a triangle without a node
    | IndexOutOfRange      // RemoveAt or a contour index past the end
    | NodeNotInList        // AddAfter with a node of another list
    | NoHoleSeed           // the hole-seed search did not stop

  function Points(poly: seq<Node>): (ps: seq<ControlPoint>)
    ensures |ps| == |poly|
    ensures forall m :: 0 <= m < |poly| ==> ps[m] == poly[m].point
  {
    seq(|poly|, m requires 0 <= m < |poly| => poly[m].point)
  }

  /** The position of the node with the given identity. */
  function NodeIndex(poly: seq<Node>, id: nat): (r: Option<nat>)
    ensures r.Some? ==> r.value < |poly| && poly[r.value].id == id
    ensures r.None? <==> forall m :: 0 <= m < |poly| ==> poly[m].id != id
  {
    FirstIndex(poly, (n: Node) => n.id == id)
  }

  /** Identities base, base + 1, ... in list order. */
  predicate NumberedFrom(poly: seq<Node>, base: nat)
  {
    forall m :: 0 <= m < |poly| ==> poly[m].id == base + m
  }

  lemma NumberedIndex(poly: seq<Node>, base: nat, m: nat)
    requires NumberedFrom(poly, base) && m < |poly|
    ensures NodeIndex(poly, base + m) == Some(m)
  {
    assert poly[m].id == base + m;
    var j := NodeIndex(poly, base + m).value;
    assert poly[j].id == base + j;
  }

  /**
   * LinkedList.AddAfter: the new node directly after the node with the given
   * identity; failing when no node of this list has it.
   */
  function AddAfter(poly: seq<Node>, id: nat, node: Node): (r: Result<seq<Node>, Fault>)
    ensures r.Err? <==> forall m :: 0 <= m < |poly| ==> poly[m].id != id
    ensures r.Err? ==> r.error == NodeNotInList
    ensures r.Ok? ==> |r.value| == |poly| + 1
    ensures r.Ok? ==> var m := NodeIndex(poly, id).value;
      r.value[..m + 1] == poly[..m + 1] && r.value[m + 1] == node && r.value[m + 2..] == poly[m + 1..]
  {
    match NodeIndex(poly, id)
    case None => Err(NodeNotInList)
    case Some(m) => Ok(poly[..m + 1] + [node] + poly[m + 1..])
  }
}
