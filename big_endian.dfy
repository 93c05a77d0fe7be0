/**
 * The big-endian primitive reads of the font converter's binary reader.
 * Each read takes the input bytes and a position and gives the decoded value
 * together with the position after it, or None where the .NET reader throws
 * (too few bytes left for the conversion).
 */
module BigEndian {
  import opened Wrappers

  type Byte = b: int | 0 <= b < 256

  /** A decoded value and the stream position just after it. */
  datatype Read<T> = Read(value: T, next: nat)

  const TwoTo16: int := 0x1_0000
  const TwoTo32: int := 0x1_0000_0000

  predicate IsUInt16(v: int) { 0 <= v < TwoTo16 }
  predicate IsInt16(v: int) { -0x8000 <= v < 0x8000 }
  predicate IsUInt32(v: int) { 0 <= v < TwoTo32 }
  predicate IsInt32(v: int) { -0x8000_0000 <= v < 0x8000_0000 }

  /** Two's-complement reinterpretation of an unsigned 16-bit value. */
  function Signed16(u: int): (r: int)
    requires IsUInt16(u)
    ensures IsInt16(r) && (r - u) % TwoTo16 == 0
  {
    if u < 0x8000 then u else u - TwoTo16
  }

  /** Two's-complement reinterpretation of an unsigned 32-bit value. */
  function Signed32(u: int): (r: int)
    requires IsUInt32(u)
    ensures IsInt32(r) && (r - u) % TwoTo32 == 0
  {
    if u < 0x8000_0000 then u else u - TwoTo32
  }

  // ---- the encoders: the partners of the reads ----

  /** Big-endian bytes of an unsigned 16-bit value. */
  function EncodeUInt16(v: int): (bs: seq<Byte>)
    requires IsUInt16(v)
    ensures |bs| == 2
  {
    [v / 0x100, v % 0x100]
  }

  /** Big-endian bytes of an unsigned 32-bit value. */
  function EncodeUInt32(v: int): (bs: seq<Byte>)
    requires IsUInt32(v)
    ensures |bs| == 4
  {
    [v / 0x100_0000, (v / 0x1_0000) % 0x100, (v / 0x100) % 0x100, v % 0x100]
  }

  function EncodeInt16(v: int): (bs: seq<Byte>)
    requires IsInt16(v)
    ensures |bs| == 2
  {
    EncodeUInt16(v % TwoTo16)
  }

  function EncodeInt32(v: int): (bs: seq<Byte>)
    requires IsInt32(v)
    ensures |bs| == 4
  {
    EncodeUInt32(v % TwoTo32)
  }

  /** Value of two bytes, most significant first. */
  function Be16(b0: Byte, b1: Byte): int
  {
    b0 * 0x100 + b1
  }

  /** Value of four bytes, most significant first. */
  function Be32(b0: Byte, b1: Byte, b2: Byte, b3: Byte): int
  {
    b0 * 0x100_0000 + b1 * 0x1_0000 + b2 * 0x100 + b3
  }

  lemma Be16Encode(b0: Byte, b1: Byte)
    ensures IsUInt16(Be16(b0, b1)) && EncodeUInt16(Be16(b0, b1)) == [b0, b1]
  {
  }

  /** Euclidean division is determined by quotient and remainder. */
  lemma DivModUnique(v: int, d: int, q: int, r: int)
    requires d > 0 && 0 <= r < d && v == q * d + r
    ensures v / d == q && v % d == r
  {
    var q', r' := v / d, v % d;
    assert (q - q') * d == r' - r;
    if q > q' {
      MulAtLeast(q - q', d);
    } else if q < q' {
      MulAtLeast(q' - q, d);
    }
  }

  lemma MulAtLeast(x: int, d: int)
    requires x >= 1 && d > 0
    ensures x * d >= d
  {
  }

  lemma Signed16Mod(u: int)
    requires IsUInt16(u)
    ensures Signed16(u) % TwoTo16 == u
  {
    if u < 0x8000 { DivModUnique(u, TwoTo16, 0, u); } else { DivModUnique(u - TwoTo16, TwoTo16, -1, u); }
  }

  lemma Signed32Mod(u: int)
    requires IsUInt32(u)
    ensures Signed32(u) % TwoTo32 == u
  {
    if u < 0x8000_0000 { DivModUnique(u, TwoTo32, 0, u); } else { DivModUnique(u - TwoTo32, TwoTo32, -1, u); }
  }

  lemma Be32Encode(b0: Byte, b1: Byte, b2: Byte, b3: Byte)
    ensures IsUInt32(Be32(b0, b1, b2, b3)) && EncodeUInt32(Be32(b0, b1, b2, b3)) == [b0, b1, b2, b3]
  {
    var v := Be32(b0, b1, b2, b3);
    DivModUnique(v, 0x100, b0 * 0x1_0000 + b1 * 0x100 + b2, b3);
    DivModUnique(v, 0x1_0000, b0 * 0x100 + b1, b2 * 0x100 + b3);
    DivModUnique(v, 0x100_0000, b0, b1 * 0x1_0000 + b2 * 0x100 + b3);
    DivModUnique(b0 * 0x1_0000 + b1 * 0x100 + b2, 0x100, b0 * 0x100 + b1, b2);
    DivModUnique(b0 * 0x100 + b1, 0x100, b0, b1);
  }

  /** Distinct 16-bit values have distinct encodings. */
  lemma EncodeUInt16Injective(a: int, b: int)
    requires IsUInt16(a) && IsUInt16(b) && EncodeUInt16(a) == EncodeUInt16(b)
    ensures a == b
  {
    assert a == (EncodeUInt16(a)[0] as int) * 0x100 + EncodeUInt16(a)[1];
    assert b == (EncodeUInt16(b)[0] as int) * 0x100 + EncodeUInt16(b)[1];
  }

  /** Reading back the bytes of EncodeUInt32 gives the value. */
  lemma EncodeUInt32Value(v: int)
    requires IsUInt32(v)
    ensures var bs := EncodeUInt32(v); Be32(bs[0], bs[1], bs[2], bs[3]) == v
  {
    var a, t1 := v % 0x100, v / 0x100;
    var b, t2 := t1 % 0x100, t1 / 0x100;
    var c, t3 := t2 % 0x100, t2 / 0x100;
    assert v == t1 * 0x100 + a;
    assert t1 == t2 * 0x100 + b;
    assert t2 == t3 * 0x100 + c;
    assert v == t2 * 0x1_0000 + (b * 0x100 + a);
    DivModUnique(v, 0x1_0000, t2, b * 0x100 + a);
    assert v == t3 * 0x100_0000 + (c * 0x1_0000 + b * 0x100 + a);
    DivModUnique(v, 0x100_0000, t3, c * 0x1_0000 + b * 0x100 + a);
  }

  // ---- the reads ----

  /** ReadUInt16: two bytes, most significant first. */
  function ReadUInt16(data: seq<Byte>, pos: nat): (r: Option<Read<int>>)
    ensures r.Some? <==> pos + 2 <= |data|
    ensures r.Some? ==> r.value.next == pos + 2 && IsUInt16(r.value.value)
                        && EncodeUInt16(r.value.value) == data[pos..pos + 2]
  {
    if pos + 2 <= |data| then
      Be16Encode(data[pos], data[pos + 1]);
      Some(Read(Be16(data[pos], data[pos + 1]), pos + 2))
    else None
  }

  /** ReadInt16: the same two bytes read as a two's-complement value. */
  function ReadInt16(data: seq<Byte>, pos: nat): (r: Option<Read<int>>)
    ensures r.Some? <==> pos + 2 <= |data|
    ensures r.Some? ==> r.value.next == pos + 2 && IsInt16(r.value.value)
                        && EncodeInt16(r.value.value) == data[pos..pos + 2]
  {
    match ReadUInt16(data, pos)
    case None => None
    case Some(Read(u, next)) => Signed16Mod(u); Some(Read(Signed16(u), next))
  }

  /** ReadUInt32: four bytes, most significant first. */
  function ReadUInt32(data: seq<Byte>, pos: nat): (r: Option<Read<int>>)
    ensures r.Some? <==> pos + 4 <= |data|
    ensures r.Some? ==> r.value.next == pos + 4 && IsUInt32(r.value.value)
                        && EncodeUInt32(r.value.value) == data[pos..pos + 4]
  {
    if pos + 4 <= |data| then
      Be32Encode(data[pos], data[pos + 1], data[pos + 2], data[pos + 3]);
      Some(Read(Be32(data[pos], data[pos + 1], data[pos + 2], data[pos + 3]), pos + 4))
    else None
  }

  /** ReadInt32: the same four bytes read as a two's-complement value. */
  function ReadInt32(data: seq<Byte>, pos: nat): (r: Option<Read<int>>)
    ensures r.Some? <==> pos + 4 <= |data|
    ensures r.Some? ==> r.value.next == pos + 4 && IsInt32(r.value.value)
                        && EncodeInt32(r.value.value) == data[pos..pos + 4]
  {
    match ReadUInt32(data, pos)
    case None => None
    case Some(Read(u, next)) => Signed32Mod(u); Some(Read(Signed32(u), next))
  }

  /**
   * The bytes an 8-byte read takes: up to eight, fewer at the end of the input
   * (the underlying ReadBytes does not throw there).
   */
  function Taken8(data: seq<Byte>, pos: nat): nat
  {
    if pos + 8 <= |data| then 8 else if pos <= |data| then |data| - pos else 0
  }

  /**
   * ReadUInt64: consumes up to eight bytes but converts only the first four of
   * the reversed buffer, i.e. the last four bytes taken, as an unsigned 32-bit
   * value. It fails only when fewer than four bytes were taken.
   */
  function ReadUInt64(data: seq<Byte>, pos: nat): (r: Option<Read<int>>)
    ensures r.Some? <==> pos + 4 <= |data|
    ensures r.Some? ==> r.value.next == pos + Taken8(data, pos) && IsUInt32(r.value.value)
    ensures r.Some? ==> var end := pos + Taken8(data, pos);
      4 <= end <= |data| && EncodeUInt32(r.value.value) == data[end - 4..end]
  {
    var k := Taken8(data, pos);
    if k < 4 then None
    else
      var low := ReadUInt32(data, pos + k - 4).value.value;
      Some(Read(low, pos + k))
  }

  /** ReadInt64: the same as ReadUInt64, read as a signed 32-bit value. */
  function ReadInt64(data: seq<Byte>, pos: nat): (r: Option<Read<int>>)
    ensures r.Some? <==> pos + 4 <= |data|
    ensures r.Some? ==> r.value.next == pos + Taken8(data, pos) && IsInt32(r.value.value)
    ensures r.Some? ==> var end := pos + Taken8(data, pos);
      4 <= end <= |data| && EncodeInt32(r.value.value) == data[end - 4..end]
  {
    match ReadUInt64(data, pos)
    case None => None
    case Some(Read(u, next)) => Signed32Mod(u); Some(Read(Signed32(u), next))
  }

  /** The single byte read of the underlying reader. */
  function ReadByte(data: seq<Byte>, pos: nat): (r: Option<Read<int>>)
    ensures r.Some? <==> pos < |data|
    ensures r.Some? ==> r.value.next == pos + 1 && r.value.value == data[pos]
  {
    if pos < |data| then Some(Read(data[pos] as int, pos + 1)) else None
  }

  /** ReadBytes(n): up to n bytes, fewer at the end of the input, never failing. */
  function ReadBytes(data: seq<Byte>, pos: nat, n: nat): (r: Read<seq<Byte>>)
    ensures |r.value| <= n && r.next == pos + |r.value|
    ensures pos + n <= |data| ==> r.value == data[pos..pos + n]
    ensures pos + n > |data| ==> r.value == (if pos <= |data| then data[pos..] else [])
  {
    if pos + n <= |data| then Read(data[pos..pos + n], pos + n)
    else if pos <= |data| then Read(data[pos..], |data|)
    else Read([], pos)
  }

  // ---- properties ----

  /** Distinct 32-bit values have distinct encodings. */
  lemma EncodeUInt32Injective(a: int, b: int)
    requires IsUInt32(a) && IsUInt32(b) && EncodeUInt32(a) == EncodeUInt32(b)
    ensures a == b
  {
    EncodeUInt32Value(a);
    EncodeUInt32Value(b);
  }

  /** ReadUInt16 of an encoding gives the encoded value back, wherever it sits. */
  lemma UInt16RoundTrip(v: int, before: seq<Byte>, after: seq<Byte>)
    requires IsUInt16(v)
    ensures ReadUInt16(before + EncodeUInt16(v) + after, |before|) == Some(Read(v, |before| + 2))
  {
    var data := before + EncodeUInt16(v) + after;
    assert data[|before|..|before| + 2] == EncodeUInt16(v);
  }

  lemma Int16RoundTrip(v: int, before: seq<Byte>, after: seq<Byte>)
    requires IsInt16(v)
    ensures ReadInt16(before + EncodeInt16(v) + after, |before|) == Some(Read(v, |before| + 2))
  {
    UInt16RoundTrip(v % TwoTo16, before, after);
  }

  lemma UInt32RoundTrip(v: int, before: seq<Byte>, after: seq<Byte>)
    requires IsUInt32(v)
    ensures ReadUInt32(before + EncodeUInt32(v) + after, |before|) == Some(Read(v, |before| + 4))
  {
    var data := before + EncodeUInt32(v) + after;
    assert data[|before|..|before| + 4] == EncodeUInt32(v);
    EncodeUInt32Value(v);
  }

  lemma Int32RoundTrip(v: int, before: seq<Byte>, after: seq<Byte>)
    requires IsInt32(v)
    ensures ReadInt32(before + EncodeInt32(v) + after, |before|) == Some(Read(v, |before| + 4))
  {
    UInt32RoundTrip(v % TwoTo32, before, after);
  }

  /**
   * ReadInt64 keeps only the low half: of eight big-endian bytes only the last
   * four contribute, so two inputs that differ in the first four read equal.
   */
  lemma Int64KeepsLowHalf(hi: seq<Byte>, lo: seq<Byte>, before: seq<Byte>)
    requires |hi| == 4 && |lo| == 4
    ensures ReadInt64(before + hi + lo, |before|) == Some(Read(ReadInt32(lo, 0).value.value, |before| + 8))
  {
    var data := before + hi + lo;
    assert data[|before| + 4..|before| + 8] == lo;
    assert data[|before| + 4..|before| + 8] == lo[0..4];
  }

  // ---- arrays of 16-bit words (the parsers' fixed-count read loops) ----

  /** The 16-bit word at `p`, read unsigned or as two's complement. */
  function WordAt(data: seq<Byte>, p: nat, signed: bool): (v: int)
    requires p + 2 <= |data|
    ensures v == (if signed then ReadInt16(data, p) else ReadUInt16(data, p)).value.value
  {
    var u := Be16(data[p], data[p + 1]);
    if signed then Signed16(u) else u
  }

  /** `n` consecutive words starting at `pos`. */
  function Words(data: seq<Byte>, pos: nat, n: nat, signed: bool): (ws: seq<int>)
    requires n == 0 || pos + 2 * n <= |data|
    ensures |ws| == n
    ensures forall i :: 0 <= i < n ==> (if signed then IsInt16(ws[i]) else IsUInt16(ws[i]))
    ensures forall i :: 0 <= i < n ==> ws[i] == WordAt(data, pos + 2 * i, signed)
  {
    seq(n, i requires 0 <= i < n => WordAt(data, pos + 2 * i, signed))
  }

  /**
   * The loop `for (i = 0; i < n; i++) a[i] = reader.ReadUInt16()` (or
   * ReadInt16): it succeeds exactly when all 2n bytes are there.
   */
  method ReadWords(data: seq<Byte>, pos: nat, n: nat, signed: bool) returns (r: Option<Read<seq<int>>>)
    ensures r.Some? <==> n == 0 || pos + 2 * n <= |data|
    ensures r.Some? ==> r.value == Read(Words(data, pos, n, signed), pos + 2 * n)
  {
    var a := new int[n];
    var p := pos;
    for i := 0 to n
      invariant p == pos + 2 * i
      invariant i > 0 ==> p <= |data|
      invariant forall k :: 0 <= k < i ==> a[k] == WordAt(data, pos + 2 * k, signed)
    {
      var w := if signed then ReadInt16(data, p) else ReadUInt16(data, p);
      if w.None? {
        return None;
      }
      a[i] := w.value.value;
      p := w.value.next;
    }
    assert a[..] == Words(data, pos, n, signed);
    return Some(Read(a[..], p));
  }
}
