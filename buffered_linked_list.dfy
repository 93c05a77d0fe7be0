/**
 * BufferedLinkedList<T>: the same change queue over a LinkedList whose
 * elements are nodes. Add hands out a fresh node and queues it; Remove
 * queues a node. When a queued change is applied, LinkedList.AddLast throws
 * for a node that is already linked and LinkedList.Remove for one that is
 * not: the exception leaves ApplyChanges with the changes after it still
 * queued.
 */
module BufferedLinkedLists {
  import opened Wrappers

  /** LinkedListNode<T>: an identity holding a value. */
  class Node<T> {
    const value: T

    constructor (value: T)
      ensures this.value == value
    {
      this.value := value;
    }
  }

  datatype Change<T> = AddChange(node: Node<T>) | RemoveChange(node: Node<T>) | ClearChange

  /** The InvalidOperationException of AddLast (node already linked) and Remove (node not linked). */
  datatype Fault = AlreadyLinked | NotLinked

  datatype Applied<T> = Applied(nodes: seq<Node<T>>, added: seq<T>, removed: seq<T>)

  predicate Distinct<T>(nodes: seq<Node<T>>)
  {
    forall i, j :: 0 <= i < j < |nodes| ==> nodes[i] != nodes[j]
  }

  function Values<T>(nodes: seq<Node<T>>): (vs: seq<T>)
    ensures |vs| == |nodes| && forall k :: 0 <= k < |nodes| ==> vs[k] == nodes[k].value
  {
    seq(|nodes|, k requires 0 <= k < |nodes| => nodes[k].value)
  }

  /** The position of a linked node. */
  function IndexOf<T>(nodes: seq<Node<T>>, n: Node<T>): (k: nat)
    requires n in nodes
    ensures k < |nodes| && nodes[k] == n && n !in nodes[..k]
  {
    if nodes[0] == n then 0
    else
      var k := IndexOf(nodes[1..], n);
      assert nodes[..k + 1] == [nodes[0]] + nodes[1..][..k];
      k + 1
  }

  /** LinkedList.Remove(node): unlinks exactly that node; the others keep their order. */
  function Unlink<T>(nodes: seq<Node<T>>, n: Node<T>): (r: seq<Node<T>>)
    requires n in nodes && Distinct(nodes)
    ensures |r| == |nodes| - 1 && n !in r && Distinct(r)
    ensures multiset(r) == multiset(nodes) - multiset{n}
  {
    var k := IndexOf(nodes, n);
    var r := nodes[..k] + nodes[k + 1..];
    assert nodes == nodes[..k] + [n] + nodes[k + 1..];
    assert forall i :: 0 <= i < |r| ==> r[i] == nodes[if i < k then i else i + 1];
    r
  }

  /**
   * One change: the value is recorded (added or removed) before the list
   * operation, so it stays recorded when that operation throws.
   */
  function ApplyTo<T>(c: Change<T>, st: Applied<T>): (r: (Applied<T>, Option<Fault>))
    requires Distinct(st.nodes)
    ensures Distinct(r.0.nodes)
  {
    match c
    case AddChange(n) =>
      if n in st.nodes then (Applied(st.nodes, st.added + [n.value], st.removed), Some(AlreadyLinked))
      else
        assert forall i :: 0 <= i < |st.nodes| ==> (st.nodes + [n])[i] == st.nodes[i];
        (Applied(st.nodes + [n], st.added + [n.value], st.removed), None)
    case RemoveChange(n) =>
      if n in st.nodes then (Applied(Unlink(st.nodes, n), st.added, st.removed + [n.value]), None)
      else (Applied(st.nodes, st.added, st.removed + [n.value]), Some(NotLinked))
    case ClearChange => (Applied([], st.added, st.removed + Values(st.nodes)), None)
  }

  /**
   * The queue drained oldest first: the state reached, the changes still
   * queued, and the fault that stopped the drain, if any.
   */
  function ApplyAll<T>(cs: seq<Change<T>>, st: Applied<T>): (r: (Applied<T>, seq<Change<T>>, Option<Fault>))
    requires Distinct(st.nodes)
    ensures Distinct(r.0.nodes)
    ensures r.2.None? ==> r.1 == []
    ensures |r.1| <= |cs| && r.1 == cs[|cs| - |r.1|..]
    decreases |cs|
  {
    if |cs| == 0 then (st, [], None)
    else
      var (next, fault) := ApplyTo(cs[0], st);
      if fault.Some? then (next, cs[1..], fault)
      else ApplyAll(cs[1..], next)
  }

  /** A queue with no faults drained in two parts is the queue drained whole. */
  lemma {:induction false} ApplyAllAppend<T>(a: seq<Change<T>>, b: seq<Change<T>>, st: Applied<T>)
    requires Distinct(st.nodes) && ApplyAll(a, st).2.None?
    ensures ApplyAll(a + b, st) == ApplyAll(b, ApplyAll(a, st).0)
    decreases |a|
  {
    if |a| > 0 {
      assert (a + b)[0] == a[0] && (a + b)[1..] == a[1..] + b;
      ApplyAllAppend(a[1..], b, ApplyTo(a[0], st).0);
    } else {
      assert a + b == b;
    }
  }

  predicate OnlyAdds<T>(cs: seq<Change<T>>)
  {
    forall k :: 0 <= k < |cs| ==> cs[k].AddChange?
  }

  /** The nodes of a queue of add changes, in queue order. */
  function AddedNodes<T>(cs: seq<Change<T>>): (ns: seq<Node<T>>)
    requires OnlyAdds(cs)
    ensures |ns| == |cs|
  {
    if |cs| == 0 then [] else [cs[0].node] + AddedNodes(cs[1..])
  }

  /**
   * Adding nodes that are not linked, none of them twice, links them at the
   * tail in queue order and records their values as added.
   */
  lemma {:induction false} AddsLinkAtTail<T>(cs: seq<Change<T>>, st: Applied<T>)
    requires OnlyAdds(cs) && Distinct(st.nodes + AddedNodes(cs))
    ensures Distinct(st.nodes)
    ensures var r := ApplyAll(cs, st);
      r.2.None? && r.0.nodes == st.nodes + AddedNodes(cs)
      && r.0.added == st.added + Values(AddedNodes(cs)) && r.0.removed == st.removed
    decreases |cs|
  {
    var all := st.nodes + AddedNodes(cs);
    assert forall k :: 0 <= k < |st.nodes| ==> st.nodes[k] == all[k];
    if |cs| > 0 {
      var n := cs[0].node;
      assert all[|st.nodes|] == n;
      assert n !in st.nodes by {
        forall k | 0 <= k < |st.nodes| ensures st.nodes[k] != n {
          assert all[k] != all[|st.nodes|];
        }
      }
      var next := ApplyTo(cs[0], st).0;
      assert next.nodes + AddedNodes(cs[1..]) == all;
      AddsLinkAtTail(cs[1..], next);
      assert Values(AddedNodes(cs)) == [n.value] + Values(AddedNodes(cs[1..]));
    } else {
      assert all == st.nodes;
    }
  }

  /** Removing a node that is not linked throws, and the rest of the queue stays queued. */
  lemma RemoveUnlinkedFails<T>(n: Node<T>, rest: seq<Change<T>>, st: Applied<T>)
    requires Distinct(st.nodes) && n !in st.nodes
    ensures ApplyAll([RemoveChange(n)] + rest, st) == (Applied(st.nodes, st.added, st.removed + [n.value]), rest, Some(NotLinked))
  {
    assert ([RemoveChange(n)] + rest)[1..] == rest;
  }

  /** Removing a linked node unlinks it alone and records its value. */
  lemma RemoveLinked<T>(n: Node<T>, st: Applied<T>)
    requires Distinct(st.nodes) && n in st.nodes
    ensures var r := ApplyAll([RemoveChange(n)], st);
      r.2.None? && r.0.removed == st.removed + [n.value] && |r.0.nodes| == |st.nodes| - 1
      && multiset(r.0.nodes) == multiset(st.nodes) - multiset{n}
  {
  }

  class BufferedLinkedList<T> {
    /** The applied nodes, head first. */
    var nodes: seq<Node<T>>
    /** The pending changes, oldest first. */
    var bufferedChanges: seq<Change<T>>

    ghost predicate Valid()
      reads this
    {
      Distinct(nodes)
    }

    constructor ()
      ensures Valid() && nodes == [] && bufferedChanges == []
    {
      nodes := [];
      bufferedChanges := [];
    }

    function Count(): nat
      reads this
    {
      |nodes|
    }

    /** Add(item): a fresh node holding item, queued; nothing visible changes. */
    method Add(item: T) returns (node: Node<T>)
      modifies this
      ensures fresh(node) && node.value == item
      ensures bufferedChanges == old(bufferedChanges) + [AddChange(node)]
      ensures nodes == old(nodes)
    {
      node := new Node(item);
      bufferedChanges := bufferedChanges + [AddChange(node)];
    }

    /** Add(node): the given node, queued. */
    method AddNode(node: Node<T>)
      modifies this
      ensures bufferedChanges == old(bufferedChanges) + [AddChange(node)]
      ensures nodes == old(nodes)
    {
      bufferedChanges := bufferedChanges + [AddChange(node)];
    }

    /** Remove(node): queued; always reports success. */
    method Remove(node: Node<T>) returns (removed: bool)
      modifies this
      ensures removed
      ensures bufferedChanges == old(bufferedChanges) + [RemoveChange(node)]
      ensures nodes == old(nodes)
    {
      bufferedChanges := bufferedChanges + [RemoveChange(node)];
      return true;
    }

    method Clear()
      modifies this
      ensures bufferedChanges == old(bufferedChanges) + [ClearChange]
      ensures nodes == old(nodes)
    {
      bufferedChanges := bufferedChanges + [ClearChange];
    }

    /**
     * ApplyChanges: drains the queue in FIFO order. On success the queue is
     * empty and the ChangesApplied payload is returned; a fault is the
     * exception that escapes, with the later changes still queued.
     */
    method ApplyChanges() returns (r: Result<(seq<T>, seq<T>), Fault>)
      requires Valid()
      modifies this
      ensures Valid()
      ensures var (st, rest, fault) := ApplyAll(old(bufferedChanges), Applied(old(nodes), [], []));
        nodes == st.nodes && bufferedChanges == rest
        && (r.Ok? <==> fault.None?)
        && (r.Ok? ==> r.value == (st.added, st.removed))
        && (r.Err? ==> r.error == fault.value)
    {
      var added: seq<T> := [];
      var removed: seq<T> := [];
      while |bufferedChanges| > 0
        invariant Distinct(nodes)
        invariant ApplyAll(bufferedChanges, Applied(nodes, added, removed))
               == ApplyAll(old(bufferedChanges), Applied(old(nodes), [], []))
        decreases |bufferedChanges|
      {
        var change := bufferedChanges[0];
        bufferedChanges := bufferedChanges[1..];
        match change
        case AddChange(n) =>
          added := added + [n.value];
          if n in nodes {
            return Err(AlreadyLinked);
          }
          nodes := nodes + [n];
        case RemoveChange(n) =>
          removed := removed + [n.value];
          if n !in nodes {
            return Err(NotLinked);
          }
          nodes := Unlink(nodes, n);
        case ClearChange =>
          removed := removed + Values(nodes);
          nodes := [];
      }
      return Ok((added, removed));
    }
  }
}
