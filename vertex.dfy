/**
 * Mesh vertices as the converter emits them. Coordinates are single-precision
 * floats; a float is kept as its 32-bit pattern, and the conversion from the
 * exact coordinates is supplied by the caller.
 */
module Vertices {
  /** The bit pattern of an IEEE single-precision float. */
  type Single = b: int | 0 <= b < 0x1_0000_0000

  const SingleZero: Single := 0
  const SingleHalf: Single := 0x3F00_0000
  const SingleOne: Single := 0x3F80_0000

  datatype Vertex = Vertex(x: Single, y: Single, u: Single, v: Single, isInside: bool, isCurve: bool)

  /** The flag byte written for a vertex: IsInside plus IsCurve. */
  function FlagByte(v: Vertex): (b: int)
    ensures 0 <= b <= 2
    ensures b == 0 <==> !v.isInside && !v.isCurve
  {
    (if v.isInside then 1 else 0) + (if v.isCurve then 1 else 0)
  }

  /** No vertex is inside a curve without being a curve vertex. */
  predicate WellFormed(v: Vertex)
  {
    v.isInside ==> v.isCurve
  }

  /** Vertex(x, y): a mesh vertex, texture coordinates zero. */
  function Plain(x: Single, y: Single): (r: Vertex)
    ensures WellFormed(r) && FlagByte(r) == 0
    ensures r.x == x && r.y == y && r.u == SingleZero && r.v == SingleZero
  {
    Vertex(x, y, SingleZero, SingleZero, false, false)
  }

  /** Vertex(x, y, u, v, isInside): a curve vertex. */
  function Curve(x: Single, y: Single, u: Single, v: Single, isInside: bool): (r: Vertex)
    ensures WellFormed(r) && r.isCurve
    ensures FlagByte(r) == if isInside then 2 else 1
    ensures r.x == x && r.y == y && r.u == u && r.v == v && r.isInside == isInside
  {
    Vertex(x, y, u, v, isInside, true)
  }

  /** For the vertices the constructors build, the flag byte is zero exactly for plain vertices. */
  lemma FlagMarksCurve(v: Vertex)
    requires WellFormed(v)
    ensures FlagByte(v) in {0, 1, 2}
    ensures FlagByte(v) != 0 <==> v.isCurve
  {
  }
}
