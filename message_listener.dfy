/**
 * MessageListener<T>: a FIFO queue of the engine messages that are a T;
 * pushed messages of any other type are dropped. MessageListenerHandle
 * unregisters a listener's node from the engine's listener list once.
 * The locks are left out: the model is sequential.
 */
module MessageListeners {
  import opened Wrappers
  import opened BufferedLinkedLists

  /** The messages of `ms` that pass the type test, in order. */
  function Accepted<M>(ms: seq<M>, isT: M -> bool): (r: seq<M>)
    ensures |r| <= |ms|
    ensures forall k :: 0 <= k < |r| ==> isT(r[k])
  {
    if |ms| == 0 then []
    else
      var init := Accepted(ms[..|ms| - 1], isT);
      if isT(ms[|ms| - 1]) then init + [ms[|ms| - 1]] else init
  }

  /** A history made only of T messages is delivered whole and in order. */
  lemma {:induction false} AllAccepted<M>(ms: seq<M>, isT: M -> bool)
    requires forall k :: 0 <= k < |ms| ==> isT(ms[k])
    ensures Accepted(ms, isT) == ms
  {
    if |ms| > 0 {
      AllAccepted(ms[..|ms| - 1], isT);
      assert ms[..|ms| - 1] + [ms[|ms| - 1]] == ms;
    }
  }

  /** A history with no T message delivers nothing. */
  lemma {:induction false} NoneAccepted<M>(ms: seq<M>, isT: M -> bool)
    requires forall k :: 0 <= k < |ms| ==> !isT(ms[k])
    ensures Accepted(ms, isT) == []
  {
    if |ms| > 0 {
      NoneAccepted(ms[..|ms| - 1], isT);
    }
  }

  class MessageListener<M> {
    /** The `message as T` test: whether a message is a T. */
    const isT: M -> bool
    /** The queue, oldest first. */
    var messages: seq<M>
    /** Every message ever pushed, and every message popped, oldest first. */
    ghost var pushed: seq<M>
    ghost var popped: seq<M>

    /** The queue holds exactly the accepted pushes not yet popped: FIFO order. */
    ghost predicate Valid()
      reads this
    {
      popped + messages == Accepted(pushed, isT)
    }

    constructor (isT: M -> bool)
      ensures Valid() && this.isT == isT && messages == [] && pushed == [] && popped == []
    {
      this.isT := isT;
      messages, pushed, popped := [], [], [];
    }

    predicate MessageAvailable()
      reads this
    {
      |messages| > 0
    }

    /** PushMessage: enqueues the message if it is a T, else drops it. */
    method PushMessage(message: M)
      requires Valid()
      modifies this
      ensures Valid() && pushed == old(pushed) + [message] && popped == old(popped)
      ensures messages == if isT(message) then old(messages) + [message] else old(messages)
    {
      assert (pushed + [message])[..|pushed|] == pushed;
      if isT(message) {
        messages := messages + [message];
      }
      pushed := pushed + [message];
    }

    /** PeekMessage: the oldest message; None where Queue.Peek throws on an empty queue. */
    method PeekMessage() returns (r: Option<M>)
      requires Valid()
      ensures r.Some? <==> MessageAvailable()
      ensures r.Some? ==> r.value == messages[0] && r.value == Accepted(pushed, isT)[|popped|]
    {
      if |messages| == 0 {
        return None;
      }
      return Some(messages[0]);
    }

    /** PopMessage: removes and returns the oldest message; None where Queue.Dequeue throws. */
    method PopMessage() returns (r: Option<M>)
      requires Valid()
      modifies this
      ensures Valid() && pushed == old(pushed)
      ensures r.Some? <==> |old(messages)| > 0
      ensures r.Some? ==> r.value == old(messages)[0] && messages == old(messages)[1..]
                          && popped == old(popped) + [r.value]
      ensures r.None? ==> messages == old(messages) && popped == old(popped)
    {
      if |messages| == 0 {
        return None;
      }
      r := Some(messages[0]);
      popped := popped + [messages[0]];
      messages := messages[1..];
    }
  }

  /** The engine's LinkedList of registered listeners. */
  class ListenerList<L> {
    var nodes: seq<Node<L>>

    constructor ()
      ensures nodes == []
    {
      nodes := [];
    }
  }

  class MessageListenerHandle<L> {
    var list: ListenerList?<L>
    var node: Node?<L>
    var disposed: bool

    constructor (list: ListenerList<L>, node: Node<L>)
      ensures this.list == list && this.node == node && !disposed
    {
      this.list := list;
      this.node := node;
      disposed := false;
    }

    /**
     * Dispose: the first call unlinks the node and drops the references;
     * later calls do nothing. Unlinking a node that is not in the list
     * throws (false here) and leaves the handle as it was.
     */
    method Dispose() returns (ok: bool)
      requires !disposed ==> list != null && node != null && Distinct(list.nodes)
      modifies this, list
      ensures old(disposed) ==> ok && disposed && list == old(list) && node == old(node)
      ensures !old(disposed) ==> ok == (old(node) in old(list.nodes))
      ensures !old(disposed) && ok ==>
        disposed && list == null && node == null
        && old(list).nodes == Unlink(old(list.nodes), old(node))
      ensures !old(disposed) && !ok ==>
        !disposed && list == old(list) && node == old(node) && old(list).nodes == old(list.nodes)
    {
      if disposed {
        return true;
      }
      if node !in list.nodes {
        return false;
      }
      list.nodes := Unlink(list.nodes, node);
      node := null;
      list := null;
      disposed := true;
      return true;
    }
  }
}
