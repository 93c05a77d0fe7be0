/**
 * GameUtils' Font: loading a gufont container through a BinaryReader over
 * the stream (Encoding.Unicode), and looking a glyph up by character.
 *
 * The reads are first stated as functions of the input bytes and a position;
 * the BinaryReader class and the loading methods are proved to agree with
 * them.
 */
module Fonts {
  import opened Wrappers
  import opened BigEndian
  import opened LittleEndian
  import opened Vertices
  import opened CharacterMap

  /** The exceptions loading and lookup raise. */
  datatype FontError =
    | InvalidData      // ArgumentException: the stream does not start with "gufont"
    | EndOfStream      // EndOfStreamException: a read past the end of the stream
    | NegativeLength   // ArgumentOutOfRangeException: ReadBytes of a negative count
    | Overflow         // OverflowException: an array of negative length
    | DuplicateKey     // ArgumentException: Dictionary.Add of a character already present
    | InvalidChar      // ReadChar of a high surrogate code unit (the decoder's pairing is not modelled)
    | IndexOutOfRange  // IndexOutOfRangeException in GetGlyph

  /** GameUtils' Vertex: position, mode byte and Bézier coordinates. */
  datatype FontVertex = FontVertex(x: Single, y: Single, mode: Byte, bezier: (Single, Single))

  /** Font.Glyph. */
  datatype FontGlyph = FontGlyph(indices: seq<int>, vertices: seq<FontVertex>, advanceWidth: int, leftSideBearing: int)

  /** A loaded font; the name is kept as the UTF-8 bytes it is decoded from. */
  datatype Font = Font(
    fontName: seq<Byte>,
    style: int,
    unitsPerEm: int,
    glyphs: seq<FontGlyph>,
    glyphDictionary: seq<Entry>,
    ascend: int,
    descend: int,
    lineGap: int)

  /** VertexMode.Default. */
  const Default: Byte := 0

  /** The Bézier coordinates a vertex keeps when none are read: the zero vector. */
  const NoBezier: (Single, Single) := (SingleZero, SingleZero)

  // ---- the reads of the BinaryReader ----

  /** ReadInt32. */
  function IntAt(data: seq<Byte>, pos: nat): (r: Result<Read<int>, FontError>)
    ensures r.Ok? <==> pos + 4 <= |data|
    ensures r.Ok? ==> IsInt32(r.value.value) && r.value.next == pos + 4
    ensures r.Err? ==> r.error == EndOfStream
  {
    if pos + 4 <= |data| then Ok(Read(Int32LE(data, pos), pos + 4)) else Err(EndOfStream)
  }

  /** ReadSingle. */
  function SingleAt(data: seq<Byte>, pos: nat): (r: Result<Read<Single>, FontError>)
    ensures r.Ok? <==> pos + 4 <= |data|
    ensures r.Ok? ==> r.value.next == pos + 4
    ensures r.Err? ==> r.error == EndOfStream
  {
    if pos + 4 <= |data| then Ok(Read(SingleLE(data, pos), pos + 4)) else Err(EndOfStream)
  }

  /** ReadByte. */
  function ByteAt(data: seq<Byte>, pos: nat): (r: Result<Read<Byte>, FontError>)
    ensures r.Ok? <==> pos < |data|
    ensures r.Ok? ==> r.value == Read(data[pos], pos + 1)
    ensures r.Err? ==> r.error == EndOfStream
  {
    if pos < |data| then Ok(Read(data[pos], pos + 1)) else Err(EndOfStream)
  }

  /** A low (trailing) surrogate code unit. */
  predicate IsLowSurrogate(c: int)
  {
    0xDC00 <= c < 0xE000
  }

  /** U+FFFD, which the decoder's replacement fallback gives for a code unit it cannot decode. */
  const ReplacementChar := 0xFFFD

  /**
   * ReadChar under Encoding.Unicode: one UTF-16LE code unit. The decoder's
   * replacement fallback turns an unpaired low surrogate into U+FFFD; a high
   * surrogate, which the decoder holds back to pair with the next unit, is
   * refused.
   */
  function CharAt(data: seq<Byte>, pos: nat): (r: Result<Read<int>, FontError>)
    ensures r.Ok? ==> IsUInt16(r.value.value) && !IsSurrogate(r.value.value) && r.value.next == pos + 2
    ensures r.Err? ==> (r.error == EndOfStream <==> |data| < pos + 2)
    ensures r.Err? ==> r.error == EndOfStream || r.error == InvalidChar
    ensures pos + 2 <= |data| ==>
      (r.Err? <==> IsSurrogate(CharLE(data, pos)) && !IsLowSurrogate(CharLE(data, pos)))
    ensures r.Ok? ==> pos + 2 <= |data|
    ensures r.Ok? && IsLowSurrogate(CharLE(data, pos)) ==> r.value.value == ReplacementChar
    ensures r.Ok? && !IsSurrogate(CharLE(data, pos)) ==> r.value.value == CharLE(data, pos)
  {
    if |data| < pos + 2 then Err(EndOfStream)
    else if IsLowSurrogate(CharLE(data, pos)) then Ok(Read(ReplacementChar, pos + 2))
    else if IsSurrogate(CharLE(data, pos)) then Err(InvalidChar)
    else Ok(Read(CharLE(data, pos), pos + 2))
  }

  /** The bytes 00 DC, an unpaired low surrogate, read as U+FFFD. */
  lemma LowSurrogateReadsReplacement(data: seq<Byte>, pos: nat)
    requires pos + 2 <= |data| && data[pos] == 0x00 && data[pos + 1] == 0xDC
    ensures CharAt(data, pos) == Ok(Read(ReplacementChar, pos + 2))
  {
  }

  /** ReadBytes(count): a negative count is refused, and fewer bytes come back at the end. */
  function BytesAt(data: seq<Byte>, pos: nat, count: int): (r: Result<Read<seq<Byte>>, FontError>)
    ensures r.Err? <==> count < 0
    ensures r.Err? ==> r.error == NegativeLength
    ensures r.Ok? ==> |r.value.value| <= count && r.value.next == pos + |r.value.value|
    ensures r.Ok? && pos + count <= |data| ==> r.value.value == data[pos..pos + count]
  {
    if count < 0 then Err(NegativeLength) else Ok(ReadBytes(data, pos, count))
  }

  // ---- the container, read front to back ----

  /** One vertex: x, y, the mode byte, and the Bézier coordinates unless the mode is Default. */
  function VertexAt(data: seq<Byte>, pos: nat): (r: Result<Read<FontVertex>, FontError>)
    ensures r.Ok? ==> r.value.next == pos + (if r.value.value.mode == Default then 9 else 17)
    ensures r.Ok? && r.value.value.mode == Default ==> r.value.value.bezier == NoBezier
    ensures r.Ok? ==> r.value.next <= |data| && r.value.value.mode == data[pos + 8]
    ensures r.Err? ==> r.error == EndOfStream
  {
    var x :- SingleAt(data, pos);
    var y :- SingleAt(data, x.next);
    var mode :- ByteAt(data, y.next);
    if mode.value == Default then
      Ok(Read(FontVertex(x.value, y.value, mode.value, NoBezier), mode.next))
    else
      var u :- SingleAt(data, mode.next);
      var v :- SingleAt(data, u.next);
      Ok(Read(FontVertex(x.value, y.value, mode.value, (u.value, v.value)), v.next))
  }

  /** The loop filling Indices: `remaining` more ReadInt32 calls after `acc`. */
  function IndicesFrom(data: seq<Byte>, pos: nat, remaining: nat, acc: seq<int>): (r: Result<Read<seq<int>>, FontError>)
    ensures r.Ok? ==> |r.value.value| == |acc| + remaining
    ensures r.Err? ==> r.error == EndOfStream
    decreases remaining
  {
    if remaining == 0 then Ok(Read(acc, pos))
    else
      var x :- IntAt(data, pos);
      IndicesFrom(data, x.next, remaining - 1, acc + [x.value])
  }

  /** The loop filling Vertices: `remaining` more vertices after `acc`. */
  function VerticesFrom(data: seq<Byte>, pos: nat, remaining: nat, acc: seq<FontVertex>): (r: Result<Read<seq<FontVertex>>, FontError>)
    ensures r.Ok? ==> |r.value.value| == |acc| + remaining
    ensures r.Err? ==> r.error == EndOfStream
    decreases remaining
  {
    if remaining == 0 then Ok(Read(acc, pos))
    else
      var v :- VertexAt(data, pos);
      VerticesFrom(data, v.next, remaining - 1, acc + [v.value])
  }

  /** Indices: the stored count, an array of that length (a negative one overflows), its elements. */
  function IndexArrayAt(data: seq<Byte>, pos: nat): (r: Result<Read<seq<int>>, FontError>)
    ensures r.Ok? ==> IntAt(data, pos) == Ok(Read(|r.value.value|, pos + 4))
    ensures r.Err? ==> r.error == EndOfStream || r.error == Overflow
  {
    var count :- IntAt(data, pos);
    if count.value < 0 then Err(Overflow)
    else
      IndicesFrom(data, count.next, count.value, [])
  }

  /** Vertices: the stored count, an array of that length, its elements. */
  function VertexArrayAt(data: seq<Byte>, pos: nat): (r: Result<Read<seq<FontVertex>>, FontError>)
    ensures r.Ok? ==> IntAt(data, pos) == Ok(Read(|r.value.value|, pos + 4))
    ensures r.Err? ==> r.error == EndOfStream || r.error == Overflow
  {
    var count :- IntAt(data, pos);
    if count.value < 0 then Err(Overflow)
    else
      VerticesFrom(data, count.next, count.value, [])
  }

  /** Glyph(reader): the metrics, then the counted indices, then the counted vertices. */
  function GlyphAt(data: seq<Byte>, pos: nat): (r: Result<Read<FontGlyph>, FontError>)
    ensures r.Ok? ==> IntAt(data, pos) == Ok(Read(r.value.value.advanceWidth, pos + 4))
    ensures r.Ok? ==> IntAt(data, pos + 4) == Ok(Read(r.value.value.leftSideBearing, pos + 8))
    ensures r.Err? ==> r.error == EndOfStream || r.error == Overflow
  {
    var advanceWidth :- IntAt(data, pos);
    var leftSideBearing :- IntAt(data, advanceWidth.next);
    var indices :- IndexArrayAt(data, leftSideBearing.next);
    var vertices :- VertexArrayAt(data, indices.next);
    Ok(Read(FontGlyph(indices.value, vertices.value, advanceWidth.value, leftSideBearing.value), vertices.next))
  }

  /** A map entry's key is a character that ReadChar accepts. */
  predicate IsKey(c: int)
  {
    IsUInt16(c) && !IsSurrogate(c)
  }

  /**
   * The rest of the character map: `remaining` more (ReadChar, ReadInt32)
   * pairs, each added to the dictionary, which refuses a key it already holds.
   */
  function EntriesFrom(data: seq<Byte>, pos: nat, remaining: nat, acc: seq<Entry>): (r: Result<Read<seq<Entry>>, FontError>)
    requires KeysDistinct(acc)
    ensures r.Ok? ==> |r.value.value| == |acc| + remaining && r.value.next == pos + 6 * remaining
    ensures r.Ok? ==> KeysDistinct(r.value.value)
    ensures r.Ok? ==> r.value.value[..|acc|] == acc
    ensures r.Ok? ==> forall i :: |acc| <= i < |r.value.value| ==> IsKey(r.value.value[i].0)
    ensures r.Err? ==> r.error == EndOfStream || r.error == InvalidChar || r.error == DuplicateKey
    decreases remaining
  {
    if remaining == 0 then Ok(Read(acc, pos))
    else
      var c :- CharAt(data, pos);
      var g :- IntAt(data, c.next);
      if HasKey(acc, c.value) then Err(DuplicateKey)
      else
        var r := EntriesFrom(data, g.next, remaining - 1, acc + [(c.value, g.value)]);
        assert r.Ok? ==> r.value.value[..|acc| + 1][..|acc|] == r.value.value[..|acc|];
        r
  }

  /** The number of loop iterations for a stored count: none for a negative one. */
  function Iterations(count: int): (n: nat)
    ensures count >= 0 ==> n == count
    ensures count < 0 ==> n == 0
  {
    if count < 0 then 0 else count
  }

  /** The fields before the character map. */
  datatype Header = Header(name: seq<Byte>, style: int, unitsPerEm: int, ascend: int, descend: int, lineGap: int)

  /** The counted name bytes, then style, units per em, ascend, descend and line gap. */
  function HeaderAt(data: seq<Byte>, pos: nat): (r: Result<Read<Header>, FontError>)
    ensures r.Ok? ==> r.value.next == pos + 24 + |r.value.value.name|
    ensures r.Ok? ==> IntAt(data, pos).Ok? && var n := IntAt(data, pos).value.value;
      n >= 0 && (pos + 4 + n <= |data| ==> r.value.value.name == data[pos + 4..pos + 4 + n])
    ensures r.Err? ==> r.error == EndOfStream || r.error == NegativeLength
  {
    var nameLength :- IntAt(data, pos);
    var name :- BytesAt(data, nameLength.next, nameLength.value);
    var style :- IntAt(data, name.next);
    var unitsPerEm :- IntAt(data, style.next);
    var ascend :- IntAt(data, unitsPerEm.next);
    var descend :- IntAt(data, ascend.next);
    var lineGap :- IntAt(data, descend.next);
    Ok(Read(Header(name.value, style.value, unitsPerEm.value, ascend.value, descend.value, lineGap.value), lineGap.next))
  }

  /** The stored count, then that many entries; a negative count adds none. */
  function DictionaryAt(data: seq<Byte>, pos: nat): (r: Result<Read<seq<Entry>>, FontError>)
    ensures r.Ok? ==> IntAt(data, pos).Ok? && |r.value.value| == Iterations(IntAt(data, pos).value.value)
    ensures r.Ok? ==> KeysDistinct(r.value.value)
    ensures r.Ok? ==> forall i :: 0 <= i < |r.value.value| ==> IsKey(r.value.value[i].0)
    ensures r.Err? ==> r.error == EndOfStream || r.error == InvalidChar || r.error == DuplicateKey
  {
    var count :- IntAt(data, pos);
    EntriesFrom(data, count.next, Iterations(count.value), [])
  }

  /** The loop filling Glyphs: `remaining` more glyphs after `acc`. */
  function GlyphsFrom(data: seq<Byte>, pos: nat, remaining: nat, acc: seq<FontGlyph>): (r: Result<Read<seq<FontGlyph>>, FontError>)
    ensures r.Ok? ==> |r.value.value| == |acc| + remaining
    ensures r.Err? ==> r.error == EndOfStream || r.error == Overflow
    decreases remaining
  {
    if remaining == 0 then Ok(Read(acc, pos))
    else
      var g :- GlyphAt(data, pos);
      GlyphsFrom(data, g.next, remaining - 1, acc + [g.value])
  }

  /** Glyphs: the stored count, an array of that length, its glyphs. */
  function GlyphArrayAt(data: seq<Byte>, pos: nat): (r: Result<Read<seq<FontGlyph>>, FontError>)
    ensures r.Ok? ==> IntAt(data, pos) == Ok(Read(|r.value.value|, pos + 4))
    ensures r.Err? ==> r.error == EndOfStream || r.error == Overflow
  {
    var count :- IntAt(data, pos);
    if count.value < 0 then Err(Overflow)
    else
      GlyphsFrom(data, count.next, count.value, [])
  }

  /** Read(reader): everything after the magic, in the order the fields are stored. */
  function Body(data: seq<Byte>, pos: nat): (r: Result<Font, FontError>)
    ensures r.Ok? ==> KeysDistinct(r.value.glyphDictionary)
    ensures r.Ok? ==> forall i :: 0 <= i < |r.value.glyphDictionary| ==> IsKey(r.value.glyphDictionary[i].0)
    ensures r.Err? ==> r.error != InvalidData && r.error != IndexOutOfRange
  {
    var header :- HeaderAt(data, pos);
    var dictionary :- DictionaryAt(data, header.next);
    var glyphs :- GlyphArrayAt(data, dictionary.next);
    var h := header.value;
    Ok(Font(h.name, h.style, h.unitsPerEm, glyphs.value, dictionary.value, h.ascend, h.descend, h.lineGap))
  }

  /** The first six bytes are the ASCII of "gufont". */
  predicate StartsWithMagic(data: seq<Byte>)
  {
    |data| >= 6 && data[..6] == Magic
  }

  /**
   * Font(stream): six bytes compared with "gufont", then Read. A byte above
   * 0x7F decodes to '?', which "gufont" does not contain, so the comparison
   * of strings is the comparison of bytes.
   */
  function Load(data: seq<Byte>): (r: Result<Font, FontError>)
    ensures r == Err(InvalidData) <==> !StartsWithMagic(data)
    ensures r.Ok? ==> KeysDistinct(r.value.glyphDictionary)
    ensures r.Ok? ==> forall i :: 0 <= i < |r.value.glyphDictionary| ==> IsKey(r.value.glyphDictionary[i].0)
  {
    if ReadBytes(data, 0, 6).value != Magic then Err(InvalidData) else Body(data, 6)
  }

  /** GetGlyph(c): the mapped glyph, or glyph 0 for a character the map does not hold. */
  function GetGlyph(font: Font, c: int): (r: Result<FontGlyph, FontError>)
    ensures r.Ok? ==> r.value in font.glyphs
    ensures HasKey(font.glyphDictionary, c) ==>
      (r.Ok? <==> 0 <= Lookup(font.glyphDictionary, c).value < |font.glyphs|)
    ensures !HasKey(font.glyphDictionary, c) ==> (r.Ok? <==> |font.glyphs| > 0)
    ensures HasKey(font.glyphDictionary, c) && r.Ok? ==>
      (c, Lookup(font.glyphDictionary, c).value) in font.glyphDictionary &&
      r.value == font.glyphs[Lookup(font.glyphDictionary, c).value]
    ensures !HasKey(font.glyphDictionary, c) && r.Ok? ==> r.value == font.glyphs[0]
    ensures r.Err? ==> r.error == IndexOutOfRange
  {
    match Lookup(font.glyphDictionary, c)
    case Some(i) => if 0 <= i < |font.glyphs| then Ok(font.glyphs[i]) else Err(IndexOutOfRange)
    case None => if |font.glyphs| == 0 then Err(IndexOutOfRange) else Ok(font.glyphs[0])
  }

  /** With distinct keys, a character stored with glyph index i gets Glyphs[i]. */
  lemma GetGlyphMapped(font: Font, c: int, i: int)
    requires KeysDistinct(font.glyphDictionary) && (c, i) in font.glyphDictionary
    ensures 0 <= i < |font.glyphs| ==> GetGlyph(font, c) == Ok(font.glyphs[i])
    ensures !(0 <= i < |font.glyphs|) ==> GetGlyph(font, c) == Err(IndexOutOfRange)
  {
    LookupFindsEntry(font.glyphDictionary, c, i);
  }

  /** Loading a font whose map holds a character twice fails. */
  lemma {:induction false} RepeatedKeyRefused(data: seq<Byte>, pos: nat, remaining: nat, acc: seq<Entry>, c: int)
    requires KeysDistinct(acc) && HasKey(acc, c)
    requires remaining > 0 && CharAt(data, pos) == Ok(Read(c, pos + 2)) && pos + 6 <= |data|
    ensures EntriesFrom(data, pos, remaining, acc) == Err(DuplicateKey)
  {
  }

  // ---- the reader ----

  /** A method's result agrees with a read stated as a function: same value and position, or same error. */
  predicate Agrees<T(==)>(r: Result<T, FontError>, pos: nat, s: Result<Read<T>, FontError>)
  {
    match r
    case Ok(v) => s == Ok(Read(v, pos))
    case Err(e) => s == Err(e)
  }

  /** BinaryReader over the stream's bytes; pos is the stream position. */
  class BinaryReader {
    const data: seq<Byte>
    var pos: nat

    constructor (data: seq<Byte>)
      ensures this.data == data && pos == 0
    {
      this.data := data;
      pos := 0;
    }

    method ReadInt32() returns (r: Result<int, FontError>)
      modifies this
      ensures Agrees(r, pos, IntAt(data, old(pos)))
    {
      var x := IntAt(data, pos);
      if x.Err? {
        return Err(x.error);
      }
      pos := x.value.next;
      return Ok(x.value.value);
    }

    method ReadSingle() returns (r: Result<Single, FontError>)
      modifies this
      ensures Agrees(r, pos, SingleAt(data, old(pos)))
    {
      var x := SingleAt(data, pos);
      if x.Err? {
        return Err(x.error);
      }
      pos := x.value.next;
      return Ok(x.value.value);
    }

    method ReadByte() returns (r: Result<Byte, FontError>)
      modifies this
      ensures Agrees(r, pos, ByteAt(data, old(pos)))
    {
      if pos >= |data| {
        return Err(EndOfStream);
      }
      r := Ok(data[pos]);
      pos := pos + 1;
    }

    method ReadChar() returns (r: Result<int, FontError>)
      modifies this
      ensures Agrees(r, pos, CharAt(data, old(pos)))
    {
      var x := CharAt(data, pos);
      if x.Err? {
        return Err(x.error);
      }
      pos := x.value.next;
      return Ok(x.value.value);
    }

    method ReadBytes(count: int) returns (r: Result<seq<Byte>, FontError>)
      modifies this
      ensures Agrees(r, pos, BytesAt(data, old(pos), count))
    {
      var x := BytesAt(data, pos, count);
      if x.Err? {
        return Err(x.error);
      }
      pos := x.value.next;
      return Ok(x.value.value);
    }
  }

  /** One pass of the loop filling Indices, as the method takes it. */
  lemma IndicesFromNext(data: seq<Byte>, pos: nat, remaining: nat, acc: seq<int>, x: Result<int, FontError>, next: nat)
    requires remaining > 0 && Agrees(x, next, IntAt(data, pos))
    ensures IndicesFrom(data, pos, remaining, acc)
      == if x.Ok? then IndicesFrom(data, next, remaining - 1, acc + [x.value]) else Err(x.error)
  {
  }

  /** Indices = new int[ReadInt32()] and the loop filling it. */
  method ReadIndices(reader: BinaryReader) returns (r: Result<seq<int>, FontError>)
    modifies reader
    ensures Agrees(r, reader.pos, IndexArrayAt(reader.data, old(reader.pos)))
  {
    var count :- reader.ReadInt32();
    if count < 0 {
      return Err(Overflow);
    }
    ghost var start := reader.pos;
    var indices: seq<int> := [];
    for i := 0 to count
      invariant IndicesFrom(reader.data, start, count, []) == IndicesFrom(reader.data, reader.pos, count - i, indices)
    {
      ghost var at := reader.pos;
      var x := reader.ReadInt32();
      IndicesFromNext(reader.data, at, count - i, indices, x, reader.pos);
      if x.Err? {
        return Err(x.error);
      }
      indices := indices + [x.value];
    }
    return Ok(indices);
  }

  /** One pass of the loop filling Vertices. */
  method ReadVertex(reader: BinaryReader) returns (r: Result<FontVertex, FontError>)
    modifies reader
    ensures Agrees(r, reader.pos, VertexAt(reader.data, old(reader.pos)))
  {
    var x :- reader.ReadSingle();
    var y :- reader.ReadSingle();
    var mode :- reader.ReadByte();
    if mode == Default {
      return Ok(FontVertex(x, y, mode, NoBezier));
    }
    var u :- reader.ReadSingle();
    var v :- reader.ReadSingle();
    return Ok(FontVertex(x, y, mode, (u, v)));
  }

  /** One pass of the loop filling Vertices, as the method takes it. */
  lemma VerticesFromNext(data: seq<Byte>, pos: nat, remaining: nat, acc: seq<FontVertex>, v: Result<FontVertex, FontError>, next: nat)
    requires remaining > 0 && Agrees(v, next, VertexAt(data, pos))
    ensures VerticesFrom(data, pos, remaining, acc)
      == if v.Ok? then VerticesFrom(data, next, remaining - 1, acc + [v.value]) else Err(v.error)
  {
  }

  /** The loop filling Vertices. */
  method ReadVerticesFrom(reader: BinaryReader, count: nat) returns (r: Result<seq<FontVertex>, FontError>)
    modifies reader
    ensures Agrees(r, reader.pos, VerticesFrom(reader.data, old(reader.pos), count, []))
  {
    var vertices: seq<FontVertex> := [];
    for i := 0 to count
      invariant VerticesFrom(reader.data, old(reader.pos), count, []) == VerticesFrom(reader.data, reader.pos, count - i, vertices)
    {
      ghost var at := reader.pos;
      var v := ReadVertex(reader);
      VerticesFromNext(reader.data, at, count - i, vertices, v, reader.pos);
      if v.Err? {
        return Err(v.error);
      }
      vertices := vertices + [v.value];
    }
    return Ok(vertices);
  }

  /** Vertices = new Vertex[ReadInt32()], then the loop filling it. */
  method ReadVertices(reader: BinaryReader) returns (r: Result<seq<FontVertex>, FontError>)
    modifies reader
    ensures Agrees(r, reader.pos, VertexArrayAt(reader.data, old(reader.pos)))
  {
    var count :- reader.ReadInt32();
    if count < 0 {
      return Err(Overflow);
    }
    r := ReadVerticesFrom(reader, count);
  }

  /** Glyph(reader). */
  method ReadGlyph(reader: BinaryReader) returns (r: Result<FontGlyph, FontError>)
    modifies reader
    ensures Agrees(r, reader.pos, GlyphAt(reader.data, old(reader.pos)))
  {
    var advanceWidth :- reader.ReadInt32();
    var leftSideBearing :- reader.ReadInt32();
    var indices :- ReadIndices(reader);
    var vertices :- ReadVertices(reader);
    return Ok(FontGlyph(indices, vertices, advanceWidth, leftSideBearing));
  }

  /** One pass of the loop filling Glyphs, as the method takes it. */
  lemma GlyphsFromNext(data: seq<Byte>, pos: nat, remaining: nat, acc: seq<FontGlyph>, g: Result<FontGlyph, FontError>, next: nat)
    requires remaining > 0 && Agrees(g, next, GlyphAt(data, pos))
    ensures GlyphsFrom(data, pos, remaining, acc)
      == if g.Ok? then GlyphsFrom(data, next, remaining - 1, acc + [g.value]) else Err(g.error)
  {
  }

  /** The loop filling Glyphs. */
  method ReadGlyphsFrom(reader: BinaryReader, count: nat) returns (r: Result<seq<FontGlyph>, FontError>)
    modifies reader
    ensures Agrees(r, reader.pos, GlyphsFrom(reader.data, old(reader.pos), count, []))
  {
    var glyphs: seq<FontGlyph> := [];
    for i := 0 to count
      invariant GlyphsFrom(reader.data, old(reader.pos), count, []) == GlyphsFrom(reader.data, reader.pos, count - i, glyphs)
    {
      ghost var at := reader.pos;
      var g := ReadGlyph(reader);
      GlyphsFromNext(reader.data, at, count - i, glyphs, g, reader.pos);
      if g.Err? {
        return Err(g.error);
      }
      glyphs := glyphs + [g.value];
    }
    return Ok(glyphs);
  }

  /** Glyphs = new Glyph[ReadInt32()], then the loop filling it. */
  method ReadGlyphs(reader: BinaryReader) returns (r: Result<seq<FontGlyph>, FontError>)
    modifies reader
    ensures Agrees(r, reader.pos, GlyphArrayAt(reader.data, old(reader.pos)))
  {
    var count :- reader.ReadInt32();
    if count < 0 {
      return Err(Overflow);
    }
    r := ReadGlyphsFrom(reader, count);
  }

  /** One pass of the loop filling GlyphDictionary, as the method takes it. */
  lemma EntriesFromNext(data: seq<Byte>, pos: nat, remaining: nat, acc: seq<Entry>,
                        c: Result<int, FontError>, mid: nat, g: Result<int, FontError>, next: nat)
    requires KeysDistinct(acc) && remaining > 0
    requires Agrees(c, mid, CharAt(data, pos)) && (c.Ok? ==> Agrees(g, next, IntAt(data, mid)))
    ensures EntriesFrom(data, pos, remaining, acc)
      == if c.Err? then Err(c.error)
         else if g.Err? then Err(g.error)
         else if HasKey(acc, c.value) then Err(DuplicateKey)
         else EntriesFrom(data, next, remaining - 1, acc + [(c.value, g.value)])
  {
  }

  /** The dictionary count and the loop filling GlyphDictionary, which Add keeps free of repeated keys. */
  method ReadDictionary(reader: BinaryReader) returns (r: Result<seq<Entry>, FontError>)
    modifies reader
    ensures Agrees(r, reader.pos, DictionaryAt(reader.data, old(reader.pos)))
  {
    var count :- reader.ReadInt32();
    ghost var start := reader.pos;
    var dictionary: seq<Entry> := [];
    for i := 0 to Iterations(count)
      invariant KeysDistinct(dictionary)
      invariant EntriesFrom(reader.data, start, Iterations(count), [])
        == EntriesFrom(reader.data, reader.pos, Iterations(count) - i, dictionary)
    {
      ghost var at := reader.pos;
      var c := reader.ReadChar();
      if c.Err? {
        EntriesFromNext(reader.data, at, Iterations(count) - i, dictionary, c, reader.pos, c, reader.pos);
        return Err(c.error);
      }
      ghost var mid := reader.pos;
      var g := reader.ReadInt32();
      EntriesFromNext(reader.data, at, Iterations(count) - i, dictionary, c, mid, g, reader.pos);
      if g.Err? {
        return Err(g.error);
      }
      if HasKey(dictionary, c.value) {
        return Err(DuplicateKey);
      }
      AddKeepsDistinct(dictionary, (c.value, g.value));
      dictionary := dictionary + [(c.value, g.value)];
    }
    return Ok(dictionary);
  }

  /** The fields before the character map. */
  method ReadHeader(reader: BinaryReader) returns (r: Result<Header, FontError>)
    modifies reader
    ensures Agrees(r, reader.pos, HeaderAt(reader.data, old(reader.pos)))
  {
    var nameLength :- reader.ReadInt32();
    var nameBytes :- reader.ReadBytes(nameLength);
    var style :- reader.ReadInt32();
    var unitsPerEm :- reader.ReadInt32();
    var ascend :- reader.ReadInt32();
    var descend :- reader.ReadInt32();
    var lineGap :- reader.ReadInt32();
    return Ok(Header(nameBytes, style, unitsPerEm, ascend, descend, lineGap));
  }

  /** Read(reader). */
  method ReadBody(reader: BinaryReader) returns (r: Result<Font, FontError>)
    modifies reader
    ensures r == Body(reader.data, old(reader.pos))
  {
    var h :- ReadHeader(reader);
    var dictionary :- ReadDictionary(reader);
    var glyphs :- ReadGlyphs(reader);
    return Ok(Font(h.name, h.style, h.unitsPerEm, glyphs, dictionary, h.ascend, h.descend, h.lineGap));
  }

  /** Font(stream): the magic check, then Read. */
  method LoadFont(data: seq<Byte>) returns (r: Result<Font, FontError>)
    ensures r == Load(data)
  {
    var reader := new BinaryReader(data);
    var magic := reader.ReadBytes(6);
    if magic.value != Magic {
      return Err(InvalidData);
    }
    r := ReadBody(reader);
  }
}
