/**
 * List.RemoveAt applied to a queue of indices, one after another: each
 * index refers to the list as the previous removals left it.
 */
module ListRemoval {
  import opened Wrappers
  import opened Polygons

  /** List.RemoveAt for each queued index in turn. */
  function RemoveAll<T>(ts: seq<T>, idx: seq<nat>): (r: Result<seq<T>, Fault>)
    ensures r.Err? ==> r.error == IndexOutOfRange
    ensures r.Ok? ==> |r.value| == |ts| - |idx| && multiset(r.value) <= multiset(ts)
  {
    if |idx| == 0 then Ok(ts)
    else
      var rest :- RemoveAll(ts, idx[..|idx| - 1]);
      var k := idx[|idx| - 1];
      if k < |rest| then
        assert rest == rest[..k] + [rest[k]] + rest[k + 1..];
        Ok(rest[..k] + rest[k + 1..])
      else Err(IndexOutOfRange)
  }

  lemma {:induction false} RemoveFails<T>(ts: seq<T>, idx: seq<nat>, q: nat)
    requires q <= |idx| && RemoveAll(ts, idx[..q]).Err?
    ensures RemoveAll(ts, idx) == RemoveAll(ts, idx[..q])
    decreases |idx| - q
  {
    if q < |idx| {
      assert idx[..q + 1][..q] == idx[..q];
      RemoveFails(ts, idx, q + 1);
    } else {
      assert idx[..q] == idx;
    }
  }

  /** Index 0 queued twice removes the first two elements. */
  lemma RemoveFrontTwice<T>(ts: seq<T>)
    requires |ts| >= 2
    ensures RemoveAll(ts, [0, 0]) == Ok(ts[2..])
  {
    assert [0][..0] == [] && [0, 0][..1] == [0];
    assert ts[..0] + ts[1..] == ts[1..];
    assert RemoveAll(ts, [0]) == Ok(ts[1..]);
    assert ts[1..][..0] + ts[1..][1..] == ts[2..];
  }

  /** ts without the elements at the given indices, in order. */
  function Without<T>(ts: seq<T>, removed: set<nat>): (r: seq<T>)
    ensures |r| <= |ts|
  {
    if |ts| == 0 then []
    else Without(ts[..|ts| - 1], removed) + (if |ts| - 1 in removed then [] else [ts[|ts| - 1]])
  }

  predicate StrictlyDecreasing(idx: seq<nat>)
  {
    forall p, q :: 0 <= p < q < |idx| ==> idx[p] > idx[q]
  }

  /** Removing index k, smaller than every removed index, from the kept elements. */
  lemma {:induction false} WithoutOneMore<T>(ts: seq<T>, removed: set<nat>, k: nat)
    requires k < |ts| && k !in removed
    requires forall x :: x in removed ==> x > k
    ensures |Without(ts, removed)| > k
    ensures Without(ts, removed)[..k] + Without(ts, removed)[k + 1..] == Without(ts, removed + {k})
    ensures Without(ts, removed)[..k] == ts[..k]
    decreases |ts|
  {
    var n := |ts| - 1;
    var w := Without(ts, removed);
    var w' := Without(ts, removed + {k});
    if n == k {
      WithoutBelow(ts[..n], removed);
      WithoutBelow(ts[..n], removed + {k});
      assert w == ts[..k] + [ts[k]];
      assert w' == ts[..k];
    } else {
      WithoutOneMore(ts[..n], removed, k);
      var u := Without(ts[..n], removed);
      var tail := if n in removed then [] else [ts[n]];
      assert w == u + tail;
      assert w' == Without(ts[..n], removed + {k}) + tail;
      assert w[..k] == u[..k];
      assert w[k + 1..] == u[k + 1..] + tail;
      assert ts[..n][..k] == ts[..k];
    }
  }

  /** Nothing below |ts| is removed: the elements stay. */
  lemma {:induction false} WithoutBelow<T>(ts: seq<T>, removed: set<nat>)
    requires forall x :: x in removed ==> x >= |ts|
    ensures Without(ts, removed) == ts
  {
    if |ts| > 0 {
      WithoutBelow(ts[..|ts| - 1], removed);
    }
  }

  /** The indices of a queue, as a set. */
  function Indices(idx: seq<nat>): (r: set<nat>)
    ensures forall x :: x in r <==> x in idx
  {
    if |idx| == 0 then {} else Indices(idx[..|idx| - 1]) + {idx[|idx| - 1]}
  }

  /** Removing strictly decreasing, in-range indices one by one removes exactly those elements. */
  lemma {:induction false} RemoveDecreasing<T>(ts: seq<T>, idx: seq<nat>)
    requires StrictlyDecreasing(idx)
    requires forall q :: 0 <= q < |idx| ==> idx[q] < |ts|
    ensures RemoveAll(ts, idx) == Ok(Without(ts, Indices(idx)))
  {
    if |idx| == 0 {
      WithoutBelow(ts, {});
    } else {
      var front := idx[..|idx| - 1];
      var k := idx[|idx| - 1];
      RemoveDecreasing(ts, front);
      var removed := Indices(front);
      forall x | x in removed
        ensures x > k
      {
        var q :| 0 <= q < |front| && front[q] == x;
        assert idx[q] == x;
      }
      WithoutOneMore(ts, removed, k);
      var rest := Without(ts, removed);
      assert RemoveAll(ts, idx) == Ok(rest[..k] + rest[k + 1..]);
    }
  }

  /** The loop of RemoveAt calls over the queued indices. */
  method RemoveQueued<T>(ts: seq<T>, toRemove: seq<nat>) returns (r: Result<seq<T>, Fault>)
    ensures r == RemoveAll(ts, toRemove)
  {
    var triangles := ts;
    for q := 0 to |toRemove|
      invariant RemoveAll(ts, toRemove[..q]) == Ok(triangles)
    {
      assert toRemove[..q + 1][..q] == toRemove[..q];
      var index := toRemove[q];
      if index >= |triangles| {
        RemoveFails(ts, toRemove, q + 1);
        return Err(IndexOutOfRange);
      }
      triangles := triangles[..index] + triangles[index + 1..];
    }
    assert toRemove[..|toRemove|] == toRemove;
    return Ok(triangles);
  }
}
