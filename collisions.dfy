/**
 * The physics engine's collision bookkeeping: a Collision names an ordered
 * pair of objects and owns a list of contact points, which its Points
 * property hands out by reference; a CollisionCollection keeps at most one
 * Collision per ordered pair and appends contact points to it.
 * Vectors and penetration depths are floats in the source; here they are
 * reals, only stored and copied.
 */
module Collisions {
  import opened Wrappers

  datatype Vector2 = Vector2(x: real, y: real)

  /** A contact of two shapes: the point on each. */
  datatype VectorPair = VectorPair(contactA: Vector2, contactB: Vector2)

  datatype CollisionPoint = CollisionPoint(normal: Vector2, point: Vector2, penetration: real)

  /** A physics object, compared by identity only. */
  class PhysicsObject {
    constructor ()
    {
    }
  }

  /** List<CollisionPoint>: shared by reference through Collision.Points. */
  class PointList {
    var items: seq<CollisionPoint>

    constructor ()
      ensures items == []
    {
      items := [];
    }

    method Add(p: CollisionPoint)
      modifies this
      ensures items == old(items) + [p]
    {
      items := items + [p];
    }
  }

  class Collision {
    const points: PointList
    var object1: PhysicsObject?
    var object2: PhysicsObject?

    /** A new collision: an empty point list and no objects yet. */
    constructor ()
      ensures fresh(points) && points.items == [] && object1 == null && object2 == null
    {
      points := new PointList();
      object1, object2 := null, null;
    }

    /** Points: the internal list itself, so what is added through it stays. */
    function Points(): (p: PointList)
      ensures p == points
    {
      points
    }

    /** SetCollision: empties the points and names the pair. */
    method SetCollision(obj1: PhysicsObject, obj2: PhysicsObject)
      modifies this, points
      ensures points.items == [] && object1 == obj1 && object2 == obj2
    {
      points.items := [];
      object1 := obj1;
      object2 := obj2;
    }
  }

  /** The point AddCollisionPair stores for one contact. */
  function ContactPoint(pair: VectorPair, normal: Vector2, penetration: real, isSecond: bool): (p: CollisionPoint)
    ensures p.normal == normal && p.penetration == penetration
    ensures p.point == if isSecond then pair.contactB else pair.contactA
  {
    CollisionPoint(normal, if isSecond then pair.contactB else pair.contactA, penetration)
  }

  /** The points AddCollisionPair appends, one per contact, in order. */
  function ContactPoints(pairs: seq<VectorPair>, normal: Vector2, penetration: real, isSecond: bool): (ps: seq<CollisionPoint>)
    ensures |ps| == |pairs|
    ensures forall k :: 0 <= k < |pairs| ==> ps[k] == ContactPoint(pairs[k], normal, penetration, isSecond)
  {
    seq(|pairs|, k requires 0 <= k < |pairs| => ContactPoint(pairs[k], normal, penetration, isSecond))
  }

  class CollisionCollection {
    var collisions: seq<Collision>

    /** Every collision names a pair, no ordered pair twice, and no two share a point list. */
    ghost predicate Valid()
      reads this, collisions
    {
      (forall i :: 0 <= i < |collisions| ==> collisions[i].object1 != null && collisions[i].object2 != null)
      && (forall i, j :: 0 <= i < j < |collisions| ==>
            collisions[i].points != collisions[j].points
            && (collisions[i].object1 != collisions[j].object1 || collisions[i].object2 != collisions[j].object2))
    }

    ghost function PointLists(): set<PointList>
      reads this, collisions
    {
      set i | 0 <= i < |collisions| :: collisions[i].points
    }

    constructor ()
      ensures Valid() && collisions == []
    {
      collisions := [];
    }

    function Count(): nat
      reads this
    {
      |collisions|
    }

    /** The indexer: None where List throws ArgumentOutOfRangeException. */
    function Item(index: int): (r: Option<Collision>)
      reads this
      ensures r.Some? <==> 0 <= index < |collisions|
      ensures r.Some? ==> r.value == collisions[index]
    {
      if 0 <= index < |collisions| then Some(collisions[index]) else None
    }

    method Clear()
      modifies this
      ensures Valid() && collisions == []
    {
      collisions := [];
    }

    /**
     * AddCollisionPair: finds the collision of the ordered pair (obj1, obj2)
     * or appends a new one, then appends one contact point per pair, taking
     * ContactB when isSecond and ContactA otherwise. Every other collision
     * and every other point list is left as it was.
     */
    method AddCollisionPair(obj1: PhysicsObject, obj2: PhysicsObject, pairs: seq<VectorPair>,
                            normal: Vector2, penetration: real, isSecond: bool)
      returns (col: Collision)
      requires Valid()
      modifies this, PointLists()
      ensures Valid()
      ensures col.object1 == obj1 && col.object2 == obj2
      ensures (exists i :: 0 <= i < |old(collisions)| && old(collisions)[i] == col)
              ==> collisions == old(collisions)
                  && col.points.items == old(col.points.items) + ContactPoints(pairs, normal, penetration, isSecond)
      ensures (forall i :: 0 <= i < |old(collisions)| ==>
                 old(collisions)[i].object1 != obj1 || old(collisions)[i].object2 != obj2)
              ==> fresh(col) && fresh(col.points) && collisions == old(collisions) + [col]
                  && col.points.items == ContactPoints(pairs, normal, penetration, isSecond)
      ensures forall i :: 0 <= i < |old(collisions)| && old(collisions)[i] != col ==>
                old(collisions)[i].points.items == old(collisions[i].points.items)
    {
      var i := FindCollision(obj1, obj2);
      var found := i < |collisions|;
      if found {
        col := collisions[i];
      } else {
        col := new Collision();
        col.SetCollision(obj1, obj2);
        collisions := collisions + [col];
      }
      var ps := col.Points();
      assert forall i :: 0 <= i < |old(collisions)| && old(collisions)[i] != col ==> old(collisions)[i].points != ps;
      AppendContacts(ps, pairs, normal, penetration, isSecond);
    }

    /** The position of the collision of the ordered pair (obj1, obj2), or Count when there is none. */
    method FindCollision(obj1: PhysicsObject, obj2: PhysicsObject) returns (i: nat)
      ensures i <= |collisions|
      ensures i < |collisions| ==> collisions[i].object1 == obj1 && collisions[i].object2 == obj2
      ensures forall k :: 0 <= k < i ==> collisions[k].object1 != obj1 || collisions[k].object2 != obj2
    {
      i := 0;
      while i < |collisions| && !(collisions[i].object1 == obj1 && collisions[i].object2 == obj2)
        invariant i <= |collisions|
        invariant forall k :: 0 <= k < i ==> collisions[k].object1 != obj1 || collisions[k].object2 != obj2
      {
        i := i + 1;
      }
    }
  }

  /** The inner loop of AddCollisionPair: one point per contact, appended in order. */
  method AppendContacts(ps: PointList, pairs: seq<VectorPair>, normal: Vector2, penetration: real, isSecond: bool)
    modifies ps
    ensures ps.items == old(ps.items) + ContactPoints(pairs, normal, penetration, isSecond)
  {
    for k := 0 to |pairs|
      invariant ps.items == old(ps.items) + ContactPoints(pairs[..k], normal, penetration, isSecond)
    {
      if isSecond {
        ps.Add(CollisionPoint(normal, pairs[k].contactB, penetration));
      } else {
        ps.Add(CollisionPoint(normal, pairs[k].contactA, penetration));
      }
      assert pairs[..k + 1] == pairs[..k] + [pairs[k]];
    }
    assert pairs[..|pairs|] == pairs;
  }
}
