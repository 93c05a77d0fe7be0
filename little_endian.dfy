/**
 * The .NET BinaryWriter and BinaryReader of the gufont container: 32-bit
 * integers and single-precision floats as four bytes, least significant
 * first, and a char as its UTF-16 code unit in two bytes, least significant
 * first (the container's streams use Encoding.Unicode).
 */
module LittleEndian {
  import opened Wrappers
  import opened BigEndian
  import opened Vertices

  /** The ASCII bytes of "gufont", which open the container. */
  const Magic: seq<Byte> := [0x67, 0x75, 0x66, 0x6F, 0x6E, 0x74]

  /** 256 to the power n: how many values n bytes can hold. */
  function Pow256(n: nat): (p: nat)
    ensures p >= 1
  {
    if n == 0 then 1 else 0x100 * Pow256(n - 1)
  }

  lemma Pow256Values()
    ensures Pow256(2) == TwoTo16 && Pow256(4) == TwoTo32
  {
  }

  /** The low n bytes of u, least significant first: the order the BinaryWriter emits them. */
  function BytesLE(u: nat, n: nat): (bs: seq<Byte>)
    ensures |bs| == n
  {
    if n == 0 then [] else [u % 0x100] + BytesLE(u / 0x100, n - 1)
  }

  /** Write(int): the 32-bit two's-complement pattern, least significant byte first. */
  function Int32Bytes(v: int): (bs: seq<Byte>)
    ensures |bs| == 4
  {
    BytesLE(v % TwoTo32, 4)
  }

  /** Write(float): the bit pattern, least significant byte first. */
  function SingleBytes(f: Single): (bs: seq<Byte>)
    ensures |bs| == 4
  {
    BytesLE(f, 4)
  }

  /** Write(char) under UTF-16LE: the code unit, low byte first. */
  function CharBytes(c: int): (bs: seq<Byte>)
    requires IsUInt16(c)
    ensures |bs| == 2
  {
    BytesLE(c, 2)
  }

  /** A lone UTF-16 surrogate, which Write(char) refuses. */
  predicate IsSurrogate(c: int)
  {
    0xD800 <= c < 0xE000
  }

  /** The value of the bytes from pos up to end, least significant first. */
  function ValueLE(data: seq<Byte>, pos: nat, end: nat): (v: nat)
    requires pos <= end <= |data|
    ensures v < Pow256(end - pos)
    decreases end - pos
  {
    if pos == end then 0 else data[pos] + 0x100 * ValueLE(data, pos + 1, end)
  }

  /** The unsigned value of the four bytes at pos, least significant first. */
  function UInt32LE(data: seq<Byte>, pos: nat): (u: int)
    requires pos + 4 <= |data|
    ensures IsUInt32(u)
  {
    data[pos] as int + 0x100 * (data[pos + 1] as int) + 0x1_0000 * (data[pos + 2] as int) + 0x100_0000 * (data[pos + 3] as int)
  }

  /** The four-byte value is ValueLE over those four bytes. */
  lemma UInt32IsValueLE(data: seq<Byte>, pos: nat)
    requires pos + 4 <= |data|
    ensures UInt32LE(data, pos) == ValueLE(data, pos, pos + 4)
  {
    assert ValueLE(data, pos + 3, pos + 4) == data[pos + 3] + 0x100 * ValueLE(data, pos + 4, pos + 4);
    assert ValueLE(data, pos + 2, pos + 4) == data[pos + 2] + 0x100 * ValueLE(data, pos + 3, pos + 4);
    assert ValueLE(data, pos + 1, pos + 4) == data[pos + 1] + 0x100 * ValueLE(data, pos + 2, pos + 4);
  }

  /** ReadInt32: the signed value of the four bytes at pos. */
  function Int32LE(data: seq<Byte>, pos: nat): (v: int)
    requires pos + 4 <= |data|
    ensures IsInt32(v)
  {
    Signed32(UInt32LE(data, pos))
  }

  /** ReadSingle: the bit pattern of the four bytes at pos. */
  function SingleLE(data: seq<Byte>, pos: nat): (f: Single)
    requires pos + 4 <= |data|
  {
    UInt32LE(data, pos) as Single
  }

  /** ReadChar under UTF-16LE: the code unit in the two bytes at pos. */
  function CharLE(data: seq<Byte>, pos: nat): (c: int)
    requires pos + 2 <= |data|
    ensures IsUInt16(c)
  {
    data[pos] as int + 0x100 * (data[pos + 1] as int)
  }

  /** The two-byte value is ValueLE over those two bytes. */
  lemma CharIsValueLE(data: seq<Byte>, pos: nat)
    requires pos + 2 <= |data|
    ensures CharLE(data, pos) == ValueLE(data, pos, pos + 2)
  {
    assert ValueLE(data, pos + 1, pos + 2) == data[pos + 1] + 0x100 * ValueLE(data, pos + 2, pos + 2);
  }

  // ---- round trips ----

  /** Reading n bytes back where BytesLE wrote them gives the value, for every value n bytes hold. */
  lemma {:induction false} ValueOfBytesLE(u: nat, n: nat, before: seq<Byte>, after: seq<Byte>)
    requires u < Pow256(n)
    ensures ValueLE(before + BytesLE(u, n) + after, |before|, |before| + n) == u
    decreases n
  {
    if n > 0 {
      var data := before + BytesLE(u, n) + after;
      var before' := before + [u % 0x100];
      assert data == before' + BytesLE(u / 0x100, n - 1) + after;
      assert data[|before|] == u % 0x100;
      ValueOfBytesLE(u / 0x100, n - 1, before', after);
    }
  }

  /** ReadInt32 after Write(int) gives the value back, for every 32-bit value. */
  lemma Int32RoundTrip(v: int, before: seq<Byte>, after: seq<Byte>)
    requires IsInt32(v)
    ensures Int32LE(before + Int32Bytes(v) + after, |before|) == v
  {
    Pow256Values();
    ValueOfBytesLE(v % TwoTo32, 4, before, after);
    UInt32IsValueLE(before + Int32Bytes(v) + after, |before|);
    if v < 0 {
      DivModUnique(v, TwoTo32, -1, v + TwoTo32);
    } else {
      DivModUnique(v, TwoTo32, 0, v);
    }
  }

  /** Write(int) keeps exactly the low 32 bits: values equal modulo 2^32 are written alike. */
  lemma Int32BytesWrap(v: int)
    ensures Int32Bytes(v) == Int32Bytes(v + TwoTo32)
  {
    DivModUnique(v + TwoTo32, TwoTo32, v / TwoTo32 + 1, v % TwoTo32);
  }

  /** ReadSingle after Write(float) gives the same bit pattern back. */
  lemma SingleRoundTrip(f: Single, before: seq<Byte>, after: seq<Byte>)
    ensures SingleLE(before + SingleBytes(f) + after, |before|) == f
  {
    Pow256Values();
    ValueOfBytesLE(f, 4, before, after);
    UInt32IsValueLE(before + SingleBytes(f) + after, |before|);
  }

  /** ReadChar after Write(char) gives the code unit back. */
  lemma CharRoundTrip(c: int, before: seq<Byte>, after: seq<Byte>)
    requires IsUInt16(c)
    ensures CharLE(before + CharBytes(c) + after, |before|) == c
  {
    Pow256Values();
    ValueOfBytesLE(c, 2, before, after);
    CharIsValueLE(before + CharBytes(c) + after, |before|);
  }
}
