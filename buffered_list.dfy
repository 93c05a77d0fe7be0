/**
 * BufferedList<T>: a list whose Add, Remove and Clear are only queued; the
 * applied list, which Count, Contains, the indexer and enumeration read,
 * changes when ApplyChanges replays the queue in FIFO order. The item events
 * carry no state and are left out; the ChangesApplied payload (items added
 * and removed, in application order) is ApplyChanges' result.
 */
module BufferedLists {
  import opened Wrappers

  /** A queued change, as AddChange, RemoveChange and ClearChange record it. */
  datatype Change<T> = AddChange(item: T) | RemoveChange(item: T) | ClearChange

  /** The applied list together with the added and removed records of ApplyChanges. */
  datatype Applied<T> = Applied(list: seq<T>, added: seq<T>, removed: seq<T>)

  /** List.Remove: deletes the first element equal to x, if there is one. */
  function RemoveFirst<T(==)>(s: seq<T>, x: T): (r: seq<T>)
    ensures x !in s ==> r == s
  {
    if |s| == 0 then []
    else if s[0] == x then s[1..]
    else [s[0]] + RemoveFirst(s[1..], x)
  }

  /** When x occurs, exactly one element goes. */
  lemma {:induction false} RemoveFirstLength<T>(s: seq<T>, x: T)
    requires x in s
    ensures |RemoveFirst(s, x)| == |s| - 1
  {
    if s[0] != x {
      assert x in s[1..] by { assert s == [s[0]] + s[1..]; }
      RemoveFirstLength(s[1..], x);
    }
  }

  /** One occurrence of x goes, if there is one, and nothing else. */
  lemma {:induction false} RemoveFirstCounts<T>(s: seq<T>, x: T)
    ensures multiset(RemoveFirst(s, x)) == multiset(s) - multiset{x}
  {
    if |s| > 0 {
      assert s == [s[0]] + s[1..];
      if s[0] != x {
        RemoveFirstCounts(s[1..], x);
        assert RemoveFirst(s, x) == [s[0]] + RemoveFirst(s[1..], x);
      }
    }
  }

  /** The element RemoveFirst takes out is the first one equal to x; the rest keep their order. */
  lemma {:induction false} RemoveFirstSplits<T>(s: seq<T>, x: T, k: nat)
    requires k < |s| && s[k] == x
    requires forall j :: 0 <= j < k ==> s[j] != x
    ensures RemoveFirst(s, x) == s[..k] + s[k + 1..]
  {
    if k > 0 {
      var t := s[1..];
      RemoveFirstSplits(t, x, k - 1);
      assert RemoveFirst(s, x) == [s[0]] + (t[..k - 1] + t[k..]);
      assert [s[0]] + t[..k - 1] == s[..k];
    }
  }

  /** What one change does when it is applied. */
  function ApplyTo<T(==)>(c: Change<T>, st: Applied<T>): Applied<T>
  {
    match c
    case AddChange(x) => Applied(st.list + [x], st.added + [x], st.removed)
    case RemoveChange(x) => Applied(RemoveFirst(st.list, x), st.added, st.removed + [x])
    case ClearChange => Applied([], st.added, st.removed + st.list)
  }

  /** The changes applied one after another, oldest first. */
  function ApplyAll<T(==)>(cs: seq<Change<T>>, st: Applied<T>): Applied<T>
    decreases |cs|
  {
    if |cs| == 0 then st else ApplyAll(cs[1..], ApplyTo(cs[0], st))
  }

  /** The items of the add changes, in queue order. */
  function AddedItems<T>(cs: seq<Change<T>>): seq<T>
  {
    if |cs| == 0 then []
    else (if cs[0].AddChange? then [cs[0].item] else []) + AddedItems(cs[1..])
  }

  predicate OnlyAdds<T>(cs: seq<Change<T>>)
  {
    forall k :: 0 <= k < |cs| ==> cs[k].AddChange?
  }

  /** Replaying a queue in two parts is replaying it whole: the order of application is the queue order. */
  lemma {:induction false} ApplyAllAppend<T>(a: seq<Change<T>>, b: seq<Change<T>>, st: Applied<T>)
    ensures ApplyAll(a + b, st) == ApplyAll(b, ApplyAll(a, st))
    decreases |a|
  {
    if |a| > 0 {
      assert (a + b)[0] == a[0] && (a + b)[1..] == a[1..] + b;
      ApplyAllAppend(a[1..], b, ApplyTo(a[0], st));
    } else {
      assert a + b == b;
    }
  }

  /**
   * The added record is exactly the items of the add changes, in queue
   * order, after whatever was already recorded.
   */
  lemma {:induction false} AddedInOrder<T>(cs: seq<Change<T>>, st: Applied<T>)
    ensures ApplyAll(cs, st).added == st.added + AddedItems(cs)
    decreases |cs|
  {
    if |cs| > 0 {
      AddedInOrder(cs[1..], ApplyTo(cs[0], st));
    }
  }

  /** A queue of adds only appends its items at the end of the list and removes nothing. */
  lemma {:induction false} AddsAppend<T>(cs: seq<Change<T>>, st: Applied<T>)
    requires OnlyAdds(cs)
    ensures ApplyAll(cs, st).list == st.list + AddedItems(cs)
    ensures ApplyAll(cs, st).removed == st.removed
    decreases |cs|
  {
    if |cs| > 0 {
      AddsAppend(cs[1..], ApplyTo(cs[0], st));
    }
  }

  /**
   * Every item in the list after replay was in the list before or came from
   * an add change: nothing appears from nowhere.
   */
  lemma {:induction false} ListFromSources<T>(cs: seq<Change<T>>, st: Applied<T>)
    ensures multiset(ApplyAll(cs, st).list) <= multiset(st.list) + multiset(AddedItems(cs))
    decreases |cs|
  {
    if |cs| > 0 {
      var next := ApplyTo(cs[0], st);
      ListFromSources(cs[1..], next);
      match cs[0]
      case AddChange(x) =>
        assert multiset(next.list) == multiset(st.list) + multiset{x};
        assert AddedItems(cs) == [x] + AddedItems(cs[1..]);
      case RemoveChange(x) =>
        RemoveFirstCounts(st.list, x);
        assert AddedItems(cs) == AddedItems(cs[1..]);
      case ClearChange =>
        assert AddedItems(cs) == AddedItems(cs[1..]);
    }
  }

  /** A trailing clear leaves the list empty and records every item it held, in list order. */
  lemma ClearLast<T>(cs: seq<Change<T>>, st: Applied<T>)
    ensures ApplyAll(cs + [ClearChange], st).list == []
    ensures ApplyAll(cs + [ClearChange], st).removed == ApplyAll(cs, st).removed + ApplyAll(cs, st).list
  {
    ApplyAllAppend(cs, [ClearChange], st);
  }

  /** A remove change is recorded as removed even when the item is absent, and then changes nothing else. */
  lemma RemoveAbsent<T>(x: T, st: Applied<T>)
    requires x !in st.list
    ensures ApplyAll([RemoveChange(x)], st) == Applied(st.list, st.added, st.removed + [x])
  {
  }

  class BufferedList<T(==)> {
    /** The applied items. */
    var list: seq<T>
    /** The pending changes, oldest first. */
    var bufferedChanges: seq<Change<T>>

    constructor ()
      ensures list == [] && bufferedChanges == []
    {
      list := [];
      bufferedChanges := [];
    }

    /** The indexer: list[index], or None where List throws ArgumentOutOfRangeException. */
    function Item(index: int): (r: Option<T>)
      reads this
      ensures r.Some? <==> 0 <= index < |list|
      ensures r.Some? ==> r.value == list[index]
    {
      if 0 <= index < |list| then Some(list[index]) else None
    }

    function Count(): nat
      reads this
    {
      |list|
    }

    predicate Contains(item: T)
      reads this
    {
      item in list
    }

    /** Add: queues an add change; the applied list is unchanged. */
    method Add(item: T)
      modifies this
      ensures bufferedChanges == old(bufferedChanges) + [AddChange(item)]
      ensures list == old(list)
    {
      bufferedChanges := bufferedChanges + [AddChange(item)];
    }

    /** Remove: queues a remove change and always reports success. */
    method Remove(item: T) returns (removed: bool)
      modifies this
      ensures removed
      ensures bufferedChanges == old(bufferedChanges) + [RemoveChange(item)]
      ensures list == old(list)
    {
      bufferedChanges := bufferedChanges + [RemoveChange(item)];
      return true;
    }

    /** Clear: queues a clear change; the applied list is unchanged. */
    method Clear()
      modifies this
      ensures bufferedChanges == old(bufferedChanges) + [ClearChange]
      ensures list == old(list)
    {
      bufferedChanges := bufferedChanges + [ClearChange];
    }

    /**
     * Sort: List.Sort, a library sort given here as `sort`, reorders the
     * applied items only; the queue is untouched.
     */
    method Sort(sort: seq<T> -> seq<T>)
      requires multiset(sort(list)) == multiset(list)
      modifies this
      ensures list == sort(old(list)) && multiset(list) == multiset(old(list))
      ensures bufferedChanges == old(bufferedChanges)
    {
      list := sort(list);
    }

    /**
     * ApplyChanges: dequeues and applies every change in FIFO order, leaving
     * the queue empty; returns the ChangesApplied payload.
     */
    method ApplyChanges() returns (added: seq<T>, removed: seq<T>)
      modifies this
      ensures bufferedChanges == []
      ensures Applied(list, added, removed) == ApplyAll(old(bufferedChanges), Applied(old(list), [], []))
    {
      added, removed := [], [];
      while |bufferedChanges| > 0
        invariant ApplyAll(bufferedChanges, Applied(list, added, removed))
               == ApplyAll(old(bufferedChanges), Applied(old(list), [], []))
        decreases |bufferedChanges|
      {
        var change := bufferedChanges[0];
        bufferedChanges := bufferedChanges[1..];
        match change
        case AddChange(x) =>
          added := added + [x];
          list := list + [x];
        case RemoveChange(x) =>
          removed := removed + [x];
          list := RemoveFirst(list, x);
        case ClearChange =>
          removed := removed + list;
          list := [];
      }
    }
  }
}
