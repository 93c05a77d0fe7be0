/**
 * The font converter's 2D point: coordinates plus an on-curve flag.
 * Coordinates come from integer font units and are combined only by +, -,
 * scaling and halving, so the model uses exact reals instead of doubles.
 */
module ControlPoints {

  datatype ControlPoint = ControlPoint(x: real, y: real, isOnCurve: bool)

  /** The two-argument constructor: IsOnCurve keeps its default, false. */
  function At(x: real, y: real): (p: ControlPoint)
    ensures p.x == x && p.y == y && !p.isOnCurve
  {
    ControlPoint(x, y, false)
  }

  function Add(l: ControlPoint, r: ControlPoint): (p: ControlPoint)
    ensures !p.isOnCurve
    ensures Subtract(p, r).x == l.x && Subtract(p, r).y == l.y
  {
    ControlPoint(l.x + r.x, l.y + r.y, false)
  }

  function Subtract(l: ControlPoint, r: ControlPoint): (p: ControlPoint)
    ensures !p.isOnCurve
  {
    ControlPoint(l.x - r.x, l.y - r.y, false)
  }

  function Negate(v: ControlPoint): (p: ControlPoint)
    ensures !p.isOnCurve
    ensures Add(v, p).x == 0.0 && Add(v, p).y == 0.0
  {
    ControlPoint(-v.x, -v.y, false)
  }

  function Multiply(v: ControlPoint, s: real): (p: ControlPoint)
    ensures !p.isOnCurve
  {
    ControlPoint(v.x * s, v.y * s, false)
  }

  function Divide(v: ControlPoint, s: real): (p: ControlPoint)
    requires s != 0.0
    ensures !p.isOnCurve
    ensures Equals(Multiply(p, s), v)
  {
    ControlPoint(v.x / s, v.y / s, false)
  }

  /** The z component of the cross product. */
  function VectorProduct(l: ControlPoint, r: ControlPoint): real
  {
    l.x * r.y - l.y * r.x
  }

  /** Equals and ==: coordinates only; the on-curve flag is ignored. */
  predicate Equals(l: ControlPoint, r: ControlPoint)
  {
    l.x == r.x && l.y == r.y
  }

  /** Unary +: the value itself, flag included. */
  function Plus(v: ControlPoint): (p: ControlPoint)
    ensures p == v
  {
    v
  }

  /** The midpoint `(p + q) / 2` the converter builds everywhere. */
  function Mid(p: ControlPoint, q: ControlPoint): (m: ControlPoint)
    ensures !m.isOnCurve
    ensures m.x - p.x == q.x - m.x && m.y - p.y == q.y - m.y
  {
    Divide(Add(p, q), 2.0)
  }

  // ---- properties ----

  /** The midpoint does not depend on the order of its ends. */
  lemma MidCommutes(p: ControlPoint, q: ControlPoint)
    ensures Mid(p, q) == Mid(q, p)
  {
    assert Add(p, q) == Add(q, p);
  }

  lemma VectorProductAntisymmetric(l: ControlPoint, r: ControlPoint)
    ensures VectorProduct(l, r) == -VectorProduct(r, l)
    ensures VectorProduct(l, l) == 0.0
  {
  }

  /** `scalar * p` and `p * scalar` both call Multiply(p, scalar). */
  lemma ScalingCommutes(p: ControlPoint, s: real)
    ensures Multiply(p, s) == ControlPoint(s * p.x, s * p.y, false)
  {
  }

  /** p - q has the coordinates of p + (-q); != is the negation of ==. */
  lemma SubtractIsAddNegated(p: ControlPoint, q: ControlPoint)
    ensures Subtract(p, q) == Add(p, Negate(q))
    ensures Equals(p, q) <==> Equals(q, p)
  {
  }

  /** Equality ignores the flag: a point equals its flag-flipped copy. */
  lemma EqualsIgnoresFlag(p: ControlPoint)
    ensures Equals(p, p.(isOnCurve := !p.isOnCurve)) && p != p.(isOnCurve := !p.isOnCurve)
  {
  }
}
