/**
 * Write-then-read: the bytes GameUtilsFont.Save writes, loaded by GameUtils'
 * Font, give back the converter's font: the same name bytes, metrics, map
 * and glyphs, each vertex with its flag byte as mode and, for curve
 * vertices, its texture coordinates as Bézier coordinates.
 *
 * The reads are followed through the written bytes with `At`: a block of
 * bytes found at a position of the input.
 */
module FontRoundTrip {
  import opened Wrappers
  import opened BigEndian
  import opened LittleEndian
  import opened Vertices
  import opened CharacterMap
  import opened TriangulatedGlyphs
  import opened GameUtilsFonts
  import opened Fonts
  import opened Blocks

  // ---- what the reader gives back ----

  /** The vertex Glyph(reader) builds from a written vertex. */
  function ReadBack(v: Vertex): FontVertex
  {
    FontVertex(v.x, v.y, FlagByte(v), if v.isCurve then (v.u, v.v) else NoBezier)
  }

  /** The vertices Glyph(reader) builds from a written vertex array. */
  function ReadBackAll(vs: seq<Vertex>): (r: seq<FontVertex>)
    ensures |r| == |vs| && forall i :: 0 <= i < |vs| ==> r[i] == ReadBack(vs[i])
  {
    Map(vs, ReadBack)
  }

  /** The glyph Font reads back from a written glyph record. */
  function ReadBackGlyph(g: TriangulatedGlyph): FontGlyph
  {
    FontGlyph(g.indices, ReadBackAll(g.vertices), g.advanceWidth, g.leftSideBearing)
  }

  /** The glyphs Font reads back from the written glyph records. */
  function ReadBackGlyphs(gs: seq<TriangulatedGlyph>): (r: seq<FontGlyph>)
    ensures |r| == |gs| && forall i :: 0 <= i < |gs| ==> r[i] == ReadBackGlyph(gs[i])
  {
    Map(gs, ReadBackGlyph)
  }

  /** The map as stored: each key as the char Write(char) emits. */
  function Keyed(d: seq<Entry>): (r: seq<Entry>)
    ensures |r| == |d|
  {
    if |d| == 0 then [] else [(Key(d[0].0), d[0].1)] + Keyed(d[1..])
  }

  /** The i-th stored entry is the i-th entry with its key as a char. */
  lemma {:induction false} KeyedAt(d: seq<Entry>, i: nat)
    requires i < |d|
    ensures Keyed(d)[i] == (Key(d[i].0), d[i].1)
  {
    if i > 0 {
      KeyedAt(d[1..], i - 1);
    }
  }

  /** The font the reader builds from a saved converter font. */
  function ReadBackFont(font: GameUtilsFont, utf8: seq<Byte> -> seq<Byte>): Font
  {
    Font(utf8(font.fontName), font.style, font.unitsPerEm, ReadBackGlyphs(font.glyphs),
         Keyed(font.glyphDictionary), font.ascend, font.descend, font.lineGap)
  }

  /** Every integer of a glyph is an Int32, and no vertex is inside without being a curve vertex. */
  predicate GlyphStorable(g: TriangulatedGlyph)
  {
    IsInt32(g.advanceWidth) && IsInt32(g.leftSideBearing)
    && IsInt32(|g.indices|) && (forall k :: 0 <= k < |g.indices| ==> IsInt32(g.indices[k]))
    && IsInt32(|g.vertices|) && (forall i :: 0 <= i < |g.vertices| ==> WellFormed(g.vertices[i]))
  }

  /** Every integer the container holds is an Int32, as the C# fields and lengths are. */
  predicate Storable(font: GameUtilsFont, utf8: seq<Byte> -> seq<Byte>)
  {
    IsInt32(|utf8(font.fontName)|)
    && IsInt32(font.style) && IsInt32(font.unitsPerEm)
    && IsInt32(font.ascend) && IsInt32(font.descend) && IsInt32(font.lineGap)
    && IsInt32(|font.glyphDictionary|)
    && (forall i :: 0 <= i < |font.glyphDictionary| ==> IsInt32(font.glyphDictionary[i].1))
    && IsInt32(|font.glyphs|)
    && forall i :: 0 <= i < |font.glyphs| ==> GlyphStorable(font.glyphs[i])
  }

  // ---- bytes at a position ----

  lemma {:induction false} IntRead(data: seq<Byte>, p: nat, v: int)
    requires At(data, p, Int32Bytes(v)) && IsInt32(v)
    ensures IntAt(data, p) == Ok(Read(v, p + 4))
  {
    assert data == data[..p] + Int32Bytes(v) + data[p + 4..];
    LittleEndian.Int32RoundTrip(v, data[..p], data[p + 4..]);
  }

  lemma {:induction false} SingleRead(data: seq<Byte>, p: nat, f: Single)
    requires At(data, p, SingleBytes(f))
    ensures SingleAt(data, p) == Ok(Read(f, p + 4))
  {
    assert data == data[..p] + SingleBytes(f) + data[p + 4..];
    SingleRoundTrip(f, data[..p], data[p + 4..]);
  }

  lemma {:induction false} CharRead(data: seq<Byte>, p: nat, c: int)
    requires IsUInt16(c) && !IsSurrogate(c) && At(data, p, CharBytes(c))
    ensures CharAt(data, p) == Ok(Read(c, p + 2))
  {
    assert data == data[..p] + CharBytes(c) + data[p + 2..];
    CharRoundTrip(c, data[..p], data[p + 2..]);
  }

  lemma {:induction false} EmptyFront<T>(xs: seq<T>)
    ensures [] + xs == xs
  {
  }

  lemma {:induction false} EmptyBack<T>(acc: seq<T>, xs: seq<T>)
    requires |xs| == 0
    ensures acc + xs == acc
  {
  }

  lemma {:induction false} Regroup<T>(acc: seq<T>, x: T, rest: seq<T>, all: seq<T>)
    requires all == [x] + rest
    ensures acc + [x] + rest == acc + all
  {
  }

  lemma {:induction false} SuffixStep<T>(acc: seq<T>, xs: seq<T>, k: nat)
    requires k < |xs|
    ensures acc + [xs[k]] + xs[k + 1..] == acc + xs[k..]
  {
    assert xs[k..] == [xs[k]] + xs[k + 1..];
  }

  lemma {:induction false} WholeSuffix<T>(acc: seq<T>, xs: seq<T>)
    ensures acc + xs[0..] == acc + xs && acc + xs[|xs|..] == acc
  {
    assert xs[0..] == xs;
  }

  lemma {:induction false} KeyedFront(d: seq<Entry>)
    requires |d| > 0
    ensures Keyed(d) == [(Key(d[0].0), d[0].1)] + Keyed(d[1..])
  {
  }

  // ---- a counted loop of reads ----

  /** `remaining` more reads of `read` from pos, after the elements in acc: the loop filling an array. */
  function Repeated<T>(read: (seq<Byte>, nat) -> Result<Read<T>, FontError>, data: seq<Byte>, pos: nat, remaining: nat, acc: seq<T>)
    : Result<Read<seq<T>>, FontError>
    decreases remaining
  {
    if remaining == 0 then Ok(Read(acc, pos))
    else match read(data, pos)
      case Err(e) => Err(e)
      case Ok(x) => Repeated(read, data, x.next, remaining - 1, acc + [x.value])
  }

  /** One pass of the counted loop. */
  lemma {:induction false} RepeatedNext<T>(read: (seq<Byte>, nat) -> Result<Read<T>, FontError>, data: seq<Byte>,
                                           pos: nat, remaining: nat, acc: seq<T>, r: Result<Read<T>, FontError>)
    requires remaining > 0 && r == read(data, pos)
    ensures Repeated(read, data, pos, remaining, acc)
      == if r.Ok? then Repeated(read, data, r.value.next, remaining - 1, acc + [r.value.value]) else Err(r.error)
  {
  }

  /** Reads one after another: element k read at ps[k] ends at ps[k + 1]. */
  lemma {:induction false} RepeatedChain<T>(read: (seq<Byte>, nat) -> Result<Read<T>, FontError>, data: seq<Byte>,
                                            ps: seq<nat>, rs: seq<T>, k: nat, left: nat, acc: seq<T>)
    requires |ps| == |rs| + 1 && k <= |rs| && left == |rs| - k
    requires forall i {:trigger read(data, ps[i])} :: 0 <= i < |rs| ==> read(data, ps[i]) == Ok(Read(rs[i], ps[i + 1]))
    ensures Repeated(read, data, ps[k], left, acc) == Ok(Read(acc + rs[k..], ps[|rs|]))
    decreases left
  {
    if k == |rs| {
      WholeSuffix(acc, rs);
    } else {
      RepeatedChain(read, data, ps, rs, k + 1, left - 1, acc + [rs[k]]);
      SuffixStep(acc, rs, k);
    }
  }

  /** The loop filling Indices is the counted loop of ReadInt32. */
  lemma {:induction false} IndicesRepeated(data: seq<Byte>, pos: nat, remaining: nat, acc: seq<int>)
    ensures IndicesFrom(data, pos, remaining, acc) == Repeated(IntAt, data, pos, remaining, acc)
    decreases remaining
  {
    if remaining > 0 {
      var r := IntAt(data, pos);
      if r.Ok? {
        IndicesFromNext(data, pos, remaining, acc, Ok(r.value.value), r.value.next);
        IndicesRepeated(data, r.value.next, remaining - 1, acc + [r.value.value]);
      } else {
        IndicesFromNext(data, pos, remaining, acc, Err(r.error), pos);
      }
    }
  }

  /** The loop filling Vertices is the counted loop of vertex reads. */
  lemma {:induction false} VerticesRepeated(data: seq<Byte>, pos: nat, remaining: nat, acc: seq<FontVertex>)
    ensures VerticesFrom(data, pos, remaining, acc) == Repeated(VertexAt, data, pos, remaining, acc)
    decreases remaining
  {
    if remaining > 0 {
      var r := VertexAt(data, pos);
      if r.Ok? {
        VerticesFromNext(data, pos, remaining, acc, Ok(r.value.value), r.value.next);
        VerticesRepeated(data, r.value.next, remaining - 1, acc + [r.value.value]);
      } else {
        VerticesFromNext(data, pos, remaining, acc, Err(r.error), pos);
      }
    }
  }

  /** Glyph reads one after another: glyph k read at ps[k] ends at ps[k + 1]. */
  lemma {:induction false} GlyphsChain(data: seq<Byte>, ps: seq<nat>, rs: seq<FontGlyph>, k: nat, left: nat, acc: seq<FontGlyph>)
    requires |ps| == |rs| + 1 && k <= |rs| && left == |rs| - k
    requires forall i {:trigger GlyphAt(data, ps[i])} :: 0 <= i < |rs| ==> GlyphAt(data, ps[i]) == Ok(Read(rs[i], ps[i + 1]))
    ensures GlyphsFrom(data, ps[k], left, acc) == Ok(Read(acc + rs[k..], ps[|rs|]))
    decreases left
  {
    if k == |rs| {
      WholeSuffix(acc, rs);
    } else {
      GlyphsFromNext(data, ps[k], left, acc, Ok(rs[k]), ps[k + 1]);
      GlyphsChain(data, ps, rs, k + 1, left - 1, acc + [rs[k]]);
      SuffixStep(acc, rs, k);
    }
  }

  // ---- each part read back ----

  /** Index i of a written index array sits at offset i and reads back as itself. */
  lemma IndicesLinked(data: seq<Byte>, p: nat, xs: seq<int>)
    requires At(data, p, IndicesBytes(xs)) && forall k :: 0 <= k < |xs| ==> IsInt32(xs[k])
    ensures forall i {:trigger IntAt(data, Offsets(p, xs, Int32Bytes)[i])} :: 0 <= i < |xs| ==>
      IntAt(data, Offsets(p, xs, Int32Bytes)[i]) == Ok(Read(xs[i], Offsets(p, xs, Int32Bytes)[i + 1]))
  {
    forall i | 0 <= i < |xs|
      ensures IntAt(data, Offsets(p, xs, Int32Bytes)[i]) == Ok(Read(xs[i], Offsets(p, xs, Int32Bytes)[i + 1]))
    {
      ConcatAt(data, p, xs, Int32Bytes, i);
      OffsetsStep(p, xs, Int32Bytes, i);
      IntRead(data, p + |Concat(xs[..i], Int32Bytes)|, xs[i]);
    }
  }

  /** Written indices read back as themselves. */
  lemma IndicesRead(data: seq<Byte>, p: nat, xs: seq<int>, acc: seq<int>)
    requires At(data, p, IndicesBytes(xs)) && forall k :: 0 <= k < |xs| ==> IsInt32(xs[k])
    ensures IndicesFrom(data, p, |xs|, acc) == Ok(Read(acc + xs, After(p, IndicesBytes(xs))))
  {
    IndicesLinked(data, p, xs);
    OffsetsEnds(p, xs, Int32Bytes);
    IndicesRepeated(data, p, |xs|, acc);
    RepeatedChain(IntAt, data, Offsets(p, xs, Int32Bytes), xs, 0, |xs|, acc);
    WholeSuffix(acc, xs);
  }

  lemma {:induction false} VertexRead(data: seq<Byte>, p: nat, v: Vertex)
    requires At(data, p, VertexBytes(v)) && WellFormed(v)
    ensures VertexAt(data, p) == Ok(Read(ReadBack(v), After(p, VertexBytes(v))))
  {
    var position := SingleBytes(v.x) + SingleBytes(v.y);
    var tail := if v.isCurve then SingleBytes(v.u) + SingleBytes(v.v) else [];
    assert VertexBytes(v) == position + [FlagByte(v)] + tail;
    AtParts(data, p, position + [FlagByte(v)], tail, p + 9);
    AtParts(data, p, position, [FlagByte(v)], p + 8);
    AtParts(data, p, SingleBytes(v.x), SingleBytes(v.y), p + 4);
    SingleRead(data, p, v.x);
    SingleRead(data, p + 4, v.y);
    assert data[p + 8] == FlagByte(v);
    FlagMarksCurve(v);
    if v.isCurve {
      AtParts(data, p + 9, SingleBytes(v.u), SingleBytes(v.v), p + 13);
      SingleRead(data, p + 9, v.u);
      SingleRead(data, p + 13, v.v);
    }
  }

  /** Vertex i of a written vertex array sits at offset i and reads back as ReadBack gives it. */
  lemma VerticesLinked(data: seq<Byte>, p: nat, vs: seq<Vertex>)
    requires At(data, p, VerticesBytes(vs)) && forall i :: 0 <= i < |vs| ==> WellFormed(vs[i])
    ensures forall i {:trigger VertexAt(data, Offsets(p, vs, VertexBytes)[i])} :: 0 <= i < |vs| ==>
      VertexAt(data, Offsets(p, vs, VertexBytes)[i]) == Ok(Read(ReadBackAll(vs)[i], Offsets(p, vs, VertexBytes)[i + 1]))
  {
    forall i | 0 <= i < |vs|
      ensures VertexAt(data, Offsets(p, vs, VertexBytes)[i]) == Ok(Read(ReadBackAll(vs)[i], Offsets(p, vs, VertexBytes)[i + 1]))
    {
      VertexAtOffset(data, p, vs, i);
    }
  }

  /** Vertex i of a written vertex array, read at its offset. */
  lemma VertexAtOffset(data: seq<Byte>, p: nat, vs: seq<Vertex>, i: nat)
    requires At(data, p, VerticesBytes(vs)) && i < |vs| && WellFormed(vs[i])
    ensures VertexAt(data, Offsets(p, vs, VertexBytes)[i]) == Ok(Read(ReadBack(vs[i]), Offsets(p, vs, VertexBytes)[i + 1]))
  {
    ConcatAt(data, p, vs, VertexBytes, i);
    VertexRead(data, p + |Concat(vs[..i], VertexBytes)|, vs[i]);
    OffsetsStep(p, vs, VertexBytes, i);
  }

  /** Written vertices read back as ReadBack gives them. */
  lemma VerticesRead(data: seq<Byte>, p: nat, vs: seq<Vertex>, acc: seq<FontVertex>)
    requires At(data, p, VerticesBytes(vs)) && forall i :: 0 <= i < |vs| ==> WellFormed(vs[i])
    ensures VerticesFrom(data, p, |vs|, acc) == Ok(Read(acc + ReadBackAll(vs), After(p, VerticesBytes(vs))))
  {
    VerticesLinked(data, p, vs);
    OffsetsEnds(p, vs, VertexBytes);
    VerticesRepeated(data, p, |vs|, acc);
    RepeatedChain(VertexAt, data, Offsets(p, vs, VertexBytes), ReadBackAll(vs), 0, |vs|, acc);
    WholeSuffix(acc, ReadBackAll(vs));
  }

  lemma {:induction false} IndexArrayStep(data: seq<Byte>, p: nat, n: int, rs: seq<int>, next: nat)
    requires IntAt(data, p) == Ok(Read(n, p + 4)) && n >= 0
    requires IndicesFrom(data, p + 4, n, []) == Ok(Read([] + rs, next))
    ensures IndexArrayAt(data, p) == Ok(Read(rs, next))
  {
    EmptyFront(rs);
  }

  /** A written index block reads back as its indices. */
  lemma {:induction false} IndexArrayRead(data: seq<Byte>, p: nat, xs: seq<int>)
    requires At(data, p, IndexBlock(xs)) && IsInt32(|xs|) && forall k :: 0 <= k < |xs| ==> IsInt32(xs[k])
    ensures IndexArrayAt(data, p) == Ok(Read(xs, After(p, IndexBlock(xs))))
  {
    AtSplit(data, p, Int32Bytes(|xs|), IndicesBytes(xs));
    IntRead(data, p, |xs|);
    IndicesRead(data, p + 4, xs, []);
    assert After(p + 4, IndicesBytes(xs)) == After(p, IndexBlock(xs));
    IndexArrayStep(data, p, |xs|, xs, After(p, IndexBlock(xs)));
  }

  lemma {:induction false} VertexArrayStep(data: seq<Byte>, p: nat, n: int, rs: seq<FontVertex>, next: nat)
    requires IntAt(data, p) == Ok(Read(n, p + 4)) && n >= 0
    requires VerticesFrom(data, p + 4, n, []) == Ok(Read([] + rs, next))
    ensures VertexArrayAt(data, p) == Ok(Read(rs, next))
  {
    EmptyFront(rs);
  }

  /** A written vertex block reads back as its vertices, as ReadBack gives them. */
  lemma {:induction false} VertexArrayRead(data: seq<Byte>, p: nat, vs: seq<Vertex>)
    requires At(data, p, VertexBlock(vs)) && IsInt32(|vs|) && forall i :: 0 <= i < |vs| ==> WellFormed(vs[i])
    ensures VertexArrayAt(data, p) == Ok(Read(ReadBackAll(vs), After(p, VertexBlock(vs))))
  {
    AtSplit(data, p, Int32Bytes(|vs|), VerticesBytes(vs));
    IntRead(data, p, |vs|);
    VerticesRead(data, p + 4, vs, []);
    assert After(p + 4, VerticesBytes(vs)) == After(p, VertexBlock(vs));
    VertexArrayStep(data, p, |vs|, ReadBackAll(vs), After(p, VertexBlock(vs)));
  }

  /** Where each field of a written glyph record lies. */
  lemma {:induction false} GlyphLayout(data: seq<Byte>, p: nat, g: TriangulatedGlyph)
    requires At(data, p, GlyphBytes(g))
    ensures At(data, p, Int32Bytes(g.advanceWidth)) && At(data, p + 4, Int32Bytes(g.leftSideBearing))
    ensures At(data, p + 8, IndexBlock(g.indices))
    ensures At(data, After(p + 8, IndexBlock(g.indices)), VertexBlock(g.vertices))
    ensures After(After(p + 8, IndexBlock(g.indices)), VertexBlock(g.vertices)) == After(p, GlyphBytes(g))
  {
    var metrics := Int32Bytes(g.advanceWidth) + Int32Bytes(g.leftSideBearing);
    assert GlyphBytes(g) == metrics + IndexBlock(g.indices) + VertexBlock(g.vertices);
    AtSplit(data, p, metrics + IndexBlock(g.indices), VertexBlock(g.vertices));
    AtSplit(data, p, metrics, IndexBlock(g.indices));
    AtSplit(data, p, Int32Bytes(g.advanceWidth), Int32Bytes(g.leftSideBearing));
  }

  lemma {:induction false} GlyphStep(data: seq<Byte>, p: nat, aw: int, lsb: int, indices: seq<int>, vertices: seq<FontVertex>, w: nat, next: nat)
    requires IntAt(data, p) == Ok(Read(aw, p + 4)) && IntAt(data, p + 4) == Ok(Read(lsb, p + 8))
    requires IndexArrayAt(data, p + 8) == Ok(Read(indices, w))
    requires VertexArrayAt(data, w) == Ok(Read(vertices, next))
    ensures GlyphAt(data, p) == Ok(Read(FontGlyph(indices, vertices, aw, lsb), next))
  {
  }

  lemma {:induction false} GlyphMetricsRead(data: seq<Byte>, p: nat, g: TriangulatedGlyph)
    requires At(data, p, GlyphBytes(g)) && IsInt32(g.advanceWidth) && IsInt32(g.leftSideBearing)
    ensures IntAt(data, p) == Ok(Read(g.advanceWidth, p + 4))
    ensures IntAt(data, p + 4) == Ok(Read(g.leftSideBearing, p + 8))
  {
    GlyphLayout(data, p, g);
    IntRead(data, p, g.advanceWidth);
    IntRead(data, p + 4, g.leftSideBearing);
  }

  lemma {:induction false} GlyphIndicesRead(data: seq<Byte>, p: nat, g: TriangulatedGlyph)
    requires At(data, p, GlyphBytes(g))
    requires IsInt32(|g.indices|) && forall k :: 0 <= k < |g.indices| ==> IsInt32(g.indices[k])
    ensures IndexArrayAt(data, p + 8) == Ok(Read(g.indices, After(p + 8, IndexBlock(g.indices))))
  {
    GlyphLayout(data, p, g);
    IndexArrayRead(data, p + 8, g.indices);
  }

  lemma {:induction false} GlyphVerticesRead(data: seq<Byte>, p: nat, g: TriangulatedGlyph)
    requires At(data, p, GlyphBytes(g))
    requires IsInt32(|g.vertices|) && forall i :: 0 <= i < |g.vertices| ==> WellFormed(g.vertices[i])
    ensures VertexArrayAt(data, After(p + 8, IndexBlock(g.indices))) == Ok(Read(ReadBackAll(g.vertices), After(p, GlyphBytes(g))))
  {
    GlyphLayout(data, p, g);
    VertexArrayRead(data, After(p + 8, IndexBlock(g.indices)), g.vertices);
  }

  /** A written glyph record reads back as the glyph, its vertices as ReadBack gives them. */
  lemma {:induction false} GlyphRead(data: seq<Byte>, p: nat, g: TriangulatedGlyph)
    requires At(data, p, GlyphBytes(g)) && GlyphStorable(g)
    ensures GlyphAt(data, p) == Ok(Read(ReadBackGlyph(g), After(p, GlyphBytes(g))))
  {
    GlyphMetricsRead(data, p, g);
    GlyphIndicesRead(data, p, g);
    GlyphVerticesRead(data, p, g);
    GlyphStep(data, p, g.advanceWidth, g.leftSideBearing, g.indices, ReadBackAll(g.vertices),
              After(p + 8, IndexBlock(g.indices)), After(p, GlyphBytes(g)));
  }

  /** Glyph i of a written glyph array sits at offset i and reads back as ReadBackGlyph gives it. */
  lemma GlyphsLinked(data: seq<Byte>, p: nat, gs: seq<TriangulatedGlyph>)
    requires At(data, p, GlyphsBytes(gs)) && forall i :: 0 <= i < |gs| ==> GlyphStorable(gs[i])
    ensures forall i {:trigger GlyphAt(data, Offsets(p, gs, GlyphBytes)[i])} :: 0 <= i < |gs| ==>
      GlyphAt(data, Offsets(p, gs, GlyphBytes)[i]) == Ok(Read(ReadBackGlyphs(gs)[i], Offsets(p, gs, GlyphBytes)[i + 1]))
  {
    forall i | 0 <= i < |gs|
      ensures GlyphAt(data, Offsets(p, gs, GlyphBytes)[i]) == Ok(Read(ReadBackGlyphs(gs)[i], Offsets(p, gs, GlyphBytes)[i + 1]))
    {
      GlyphAtOffset(data, p, gs, i);
    }
  }

  /** Glyph i of a written glyph array, read at its offset. */
  lemma GlyphAtOffset(data: seq<Byte>, p: nat, gs: seq<TriangulatedGlyph>, i: nat)
    requires At(data, p, GlyphsBytes(gs)) && i < |gs| && GlyphStorable(gs[i])
    ensures GlyphAt(data, Offsets(p, gs, GlyphBytes)[i]) == Ok(Read(ReadBackGlyph(gs[i]), Offsets(p, gs, GlyphBytes)[i + 1]))
  {
    ConcatAt(data, p, gs, GlyphBytes, i);
    GlyphRead(data, p + |Concat(gs[..i], GlyphBytes)|, gs[i]);
    OffsetsStep(p, gs, GlyphBytes, i);
  }

  /** Written glyph records read back as ReadBackGlyph gives them. */
  lemma GlyphsRead(data: seq<Byte>, p: nat, gs: seq<TriangulatedGlyph>, acc: seq<FontGlyph>)
    requires At(data, p, GlyphsBytes(gs)) && forall i :: 0 <= i < |gs| ==> GlyphStorable(gs[i])
    ensures GlyphsFrom(data, p, |gs|, acc) == Ok(Read(acc + ReadBackGlyphs(gs), After(p, GlyphsBytes(gs))))
  {
    GlyphsLinked(data, p, gs);
    OffsetsEnds(p, gs, GlyphBytes);
    GlyphsChain(data, Offsets(p, gs, GlyphBytes), ReadBackGlyphs(gs), 0, |gs|, acc);
    WholeSuffix(acc, ReadBackGlyphs(gs));
  }

  lemma {:induction false} GlyphArrayStep(data: seq<Byte>, p: nat, n: int, rs: seq<FontGlyph>, next: nat)
    requires IntAt(data, p) == Ok(Read(n, p + 4)) && n >= 0
    requires GlyphsFrom(data, p + 4, n, []) == Ok(Read([] + rs, next))
    ensures GlyphArrayAt(data, p) == Ok(Read(rs, next))
  {
    EmptyFront(rs);
  }

  /** The written glyph block reads back as the glyphs. */
  lemma {:induction false} GlyphArrayRead(data: seq<Byte>, p: nat, gs: seq<TriangulatedGlyph>)
    requires At(data, p, GlyphsBlock(gs)) && IsInt32(|gs|) && forall i :: 0 <= i < |gs| ==> GlyphStorable(gs[i])
    ensures GlyphArrayAt(data, p) == Ok(Read(ReadBackGlyphs(gs), After(p, GlyphsBlock(gs))))
  {
    AtSplit(data, p, Int32Bytes(|gs|), GlyphsBytes(gs));
    IntRead(data, p, |gs|);
    GlyphsRead(data, p + 4, gs, []);
    assert After(p + 4, GlyphsBytes(gs)) == After(p, GlyphsBlock(gs));
    GlyphArrayStep(data, p, |gs|, ReadBackGlyphs(gs), After(p, GlyphsBlock(gs)));
  }

  /** The first entry of a written map, and where the rest starts. */
  lemma {:induction false} EntriesHead(data: seq<Byte>, p: nat, d: seq<Entry>)
    requires |d| > 0 && At(data, p, EntriesBytes(d)) && !Unwritable(d[0]) && IsInt32(d[0].1)
    ensures CharAt(data, p) == Ok(Read(Key(d[0].0), p + 2))
    ensures IntAt(data, p + 2) == Ok(Read(d[0].1, p + 6))
    ensures At(data, p + 6, EntriesBytes(d[1..]))
  {
    ConcatFront(d, EntryBytes);
    AtSplit(data, p, EntryBytes(d[0]), EntriesBytes(d[1..]));
    AtSplit(data, p, CharBytes(Key(d[0].0)), Int32Bytes(d[0].1));
    CharRead(data, p, Key(d[0].0));
    IntRead(data, p + 2, d[0].1);
  }

  /** A key already in the dictionary makes every longer dictionary hold it twice. */
  lemma {:induction false} RepeatedKey(acc: seq<Entry>, e: Entry, rest: seq<Entry>)
    requires HasKey(acc, e.0)
    ensures !KeysDistinct(acc + [e] + rest)
  {
    var i :| 0 <= i < |acc| && acc[i].0 == e.0;
    assert (acc + [e] + rest)[i] == acc[i];
    assert (acc + [e] + rest)[|acc|] == e;
  }

  /**
   * Reading the stored map back adds every entry, keys truncated to chars,
   * unless a key repeats: then Add refuses it and loading fails.
   */
  lemma {:induction false} EntriesRead(data: seq<Byte>, p: nat, d: seq<Entry>, acc: seq<Entry>)
    requires At(data, p, EntriesBytes(d)) && KeysDistinct(acc)
    requires forall i :: 0 <= i < |d| ==> !Unwritable(d[i]) && IsInt32(d[i].1)
    ensures EntriesFrom(data, p, |d|, acc)
      == if KeysDistinct(acc + Keyed(d)) then Ok(Read(acc + Keyed(d), p + 6 * |d|)) else Err(DuplicateKey)
    decreases |d|
  {
    if |d| == 0 {
      EmptyBack(acc, Keyed(d));
    } else {
      var entry := (Key(d[0].0), d[0].1);
      EntriesHead(data, p, d);
      KeyedFront(d);
      Regroup(acc, entry, Keyed(d[1..]), Keyed(d));
      if HasKey(acc, entry.0) {
        RepeatedKey(acc, entry, Keyed(d[1..]));
      } else {
        EntriesRead(data, p + 6, d[1..], acc + [entry]);
      }
    }
  }

  /** The name and the five metrics. */
  lemma {:induction false} HeaderRead(data: seq<Byte>, font: GameUtilsFont, utf8: seq<Byte> -> seq<Byte>)
    requires At(data, 0, HeaderBytes(font, utf8)) && Storable(font, utf8)
    ensures StartsWithMagic(data)
    ensures HeaderAt(data, 6) == Ok(Read(
      Header(utf8(font.fontName), font.style, font.unitsPerEm, font.ascend, font.descend, font.lineGap),
      |HeaderBytes(font, utf8)|))
  {
    var name := utf8(font.fontName);
    var counted := Magic + Int32Bytes(|name|) + name;
    var m1 := counted + Int32Bytes(font.style);
    var m2 := m1 + Int32Bytes(font.unitsPerEm);
    var m3 := m2 + Int32Bytes(font.ascend);
    var m4 := m3 + Int32Bytes(font.descend);
    assert HeaderBytes(font, utf8) == m4 + Int32Bytes(font.lineGap);
    AtSplit(data, 0, m4, Int32Bytes(font.lineGap));
    AtSplit(data, 0, m3, Int32Bytes(font.descend));
    AtSplit(data, 0, m2, Int32Bytes(font.ascend));
    AtSplit(data, 0, m1, Int32Bytes(font.unitsPerEm));
    AtSplit(data, 0, counted, Int32Bytes(font.style));
    AtSplit(data, 0, Magic + Int32Bytes(|name|), name);
    AtSplit(data, 0, Magic, Int32Bytes(|name|));
    IntRead(data, 6, |name|);
    assert ReadBytes(data, 10, |name|).value == name;
    var n := 10 + |name|;
    IntRead(data, n, font.style);
    IntRead(data, n + 4, font.unitsPerEm);
    IntRead(data, n + 8, font.ascend);
    IntRead(data, n + 12, font.descend);
    IntRead(data, n + 16, font.lineGap);
  }

  lemma {:induction false} DictionaryStep(data: seq<Byte>, p: nat, count: Read<int>)
    requires IntAt(data, p) == Ok(count)
    ensures DictionaryAt(data, p) == EntriesFrom(data, count.next, Iterations(count.value), [])
  {
  }

  /** The written map reads back keyed by chars, or fails on a repeated char. */
  lemma {:induction false} DictionaryRead(data: seq<Byte>, p: nat, d: seq<Entry>)
    requires At(data, p, DictionaryPrefix(d, |d|)) && IsInt32(|d|)
    requires forall i :: 0 <= i < |d| ==> !Unwritable(d[i]) && IsInt32(d[i].1)
    ensures DictionaryAt(data, p)
      == if KeysDistinct(Keyed(d)) then Ok(Read(Keyed(d), After(p, DictionaryPrefix(d, |d|)))) else Err(DuplicateKey)
  {
    assert d[..|d|] == d;
    AtSplit(data, p, Int32Bytes(|d|), EntriesBytes(d));
    IntRead(data, p, |d|);
    EntriesRead(data, p + 4, d, []);
    assert p + 4 + 6 * |d| == After(p, DictionaryPrefix(d, |d|));
    EmptyFront(Keyed(d));
    DictionaryStep(data, p, Read(|d|, p + 4));
  }

  lemma {:induction false} BodyStep(data: seq<Byte>, p: nat, h: Read<Header>, dictionary: Read<seq<Entry>>, glyphs: Read<seq<FontGlyph>>)
    requires HeaderAt(data, p) == Ok(h) && DictionaryAt(data, h.next) == Ok(dictionary)
    requires GlyphArrayAt(data, dictionary.next) == Ok(glyphs)
    ensures Body(data, p) == Ok(Font(h.value.name, h.value.style, h.value.unitsPerEm, glyphs.value,
                                     dictionary.value, h.value.ascend, h.value.descend, h.value.lineGap))
  {
  }

  lemma {:induction false} BodyFails(data: seq<Byte>, p: nat, h: Read<Header>, e: FontError)
    requires HeaderAt(data, p) == Ok(h) && DictionaryAt(data, h.next) == Err(e)
    ensures Body(data, p) == Err(e)
  {
  }

  lemma {:induction false} LoadBody(data: seq<Byte>)
    requires StartsWithMagic(data)
    ensures Load(data) == Body(data, 6)
  {
    assert ReadBytes(data, 0, 6).value == data[..6];
  }

  /** Where the glyph block of a saved container starts: after the header and the map. */
  function GlyphsStart(font: GameUtilsFont, utf8: seq<Byte> -> seq<Byte>): nat
  {
    After(|HeaderBytes(font, utf8)|, DictionaryPrefix(font.glyphDictionary, |font.glyphDictionary|))
  }

  /** Where the three parts of a saved container lie. */
  lemma {:induction false} FontLayout(font: GameUtilsFont, utf8: seq<Byte> -> seq<Byte>)
    ensures var data := FontBytes(font, utf8); var d := font.glyphDictionary; var h := |HeaderBytes(font, utf8)|;
      At(data, 0, HeaderBytes(font, utf8))
      && At(data, h, DictionaryPrefix(d, |d|))
      && At(data, GlyphsStart(font, utf8), GlyphsBlock(font.glyphs))
  {
    var data := FontBytes(font, utf8);
    var d := font.glyphDictionary;
    var header := HeaderBytes(font, utf8);
    var dictionary := DictionaryPrefix(d, |d|);
    assert At(data, 0, header + dictionary + GlyphsBlock(font.glyphs));
    AtSplit(data, 0, header + dictionary, GlyphsBlock(font.glyphs));
    AtSplit(data, 0, header, dictionary);
  }

  /** The header of a saved container reads back as the font's header fields. */
  lemma {:induction false} HeaderSection(font: GameUtilsFont, utf8: seq<Byte> -> seq<Byte>)
    requires Storable(font, utf8)
    ensures Load(FontBytes(font, utf8)) == Body(FontBytes(font, utf8), 6)
    ensures HeaderAt(FontBytes(font, utf8), 6) == Ok(Read(
      Header(utf8(font.fontName), font.style, font.unitsPerEm, font.ascend, font.descend, font.lineGap),
      |HeaderBytes(font, utf8)|))
  {
    FontLayout(font, utf8);
    HeaderRead(FontBytes(font, utf8), font, utf8);
    LoadBody(FontBytes(font, utf8));
  }

  /** The map of a saved container reads back keyed by chars, or fails on a repeated char. */
  lemma {:induction false} DictionarySection(font: GameUtilsFont, utf8: seq<Byte> -> seq<Byte>)
    requires Storable(font, utf8) && Writable(font)
    ensures var d := font.glyphDictionary;
      DictionaryAt(FontBytes(font, utf8), |HeaderBytes(font, utf8)|)
      == if KeysDistinct(Keyed(d)) then Ok(Read(Keyed(d), GlyphsStart(font, utf8))) else Err(DuplicateKey)
  {
    FontLayout(font, utf8);
    DictionaryRead(FontBytes(font, utf8), |HeaderBytes(font, utf8)|, font.glyphDictionary);
  }

  /** The glyph array of a saved container reads back as the glyphs. */
  lemma {:induction false} GlyphSection(font: GameUtilsFont, utf8: seq<Byte> -> seq<Byte>)
    requires Storable(font, utf8)
    ensures GlyphArrayAt(FontBytes(font, utf8), GlyphsStart(font, utf8))
      == Ok(Read(ReadBackGlyphs(font.glyphs), After(GlyphsStart(font, utf8), GlyphsBlock(font.glyphs))))
  {
    FontLayout(font, utf8);
    GlyphArrayRead(FontBytes(font, utf8), GlyphsStart(font, utf8), font.glyphs);
  }

  // ---- the whole container ----

  /**
   * Load(Save(font)): the converter's font comes back, its map keys as
   * chars, its vertices with their flag byte as mode and, for curve
   * vertices, their texture coordinates; or, when two keys are the same
   * char, loading fails on the second.
   */
  lemma {:induction false} WriteThenRead(font: GameUtilsFont, utf8: seq<Byte> -> seq<Byte>)
    requires Storable(font, utf8) && Writable(font)
    ensures Load(FontBytes(font, utf8))
      == if KeysDistinct(Keyed(font.glyphDictionary)) then Ok(ReadBackFont(font, utf8)) else Err(DuplicateKey)
  {
    var d := font.glyphDictionary;
    var data := FontBytes(font, utf8);
    var h := |HeaderBytes(font, utf8)|;
    HeaderSection(font, utf8);
    DictionarySection(font, utf8);
    var header := Read(Header(utf8(font.fontName), font.style, font.unitsPerEm, font.ascend, font.descend, font.lineGap), h);
    if KeysDistinct(Keyed(d)) {
      GlyphSection(font, utf8);
      BodyStep(data, 6, header, Read(Keyed(d), GlyphsStart(font, utf8)),
               Read(ReadBackGlyphs(font.glyphs), After(GlyphsStart(font, utf8), GlyphsBlock(font.glyphs))));
    } else {
      BodyFails(data, 6, header, DuplicateKey);
    }
  }

  /** After the round trip, GetGlyph of a mapped character is the glyph the converter built for it. */
  lemma {:induction false} MappedGlyphAfterRoundTrip(font: GameUtilsFont, utf8: seq<Byte> -> seq<Byte>, c: int, i: int)
    requires Storable(font, utf8) && Writable(font) && KeysDistinct(Keyed(font.glyphDictionary))
    requires (c, i) in font.glyphDictionary && 0 <= i < |font.glyphs|
    ensures Load(FontBytes(font, utf8)).Ok?
    ensures GetGlyph(Load(FontBytes(font, utf8)).value, Key(c)) == Ok(ReadBackGlyph(font.glyphs[i]))
  {
    WriteThenRead(font, utf8);
    var k :| 0 <= k < |font.glyphDictionary| && font.glyphDictionary[k] == (c, i);
    KeyedAt(font.glyphDictionary, k);
    LookupFindsEntry(Keyed(font.glyphDictionary), Key(c), i);
  }

  /** After the round trip, a character the map does not hold gets glyph 0. */
  lemma {:induction false} UnmappedGlyphAfterRoundTrip(font: GameUtilsFont, utf8: seq<Byte> -> seq<Byte>, c: int)
    requires Storable(font, utf8) && Writable(font) && KeysDistinct(Keyed(font.glyphDictionary))
    requires !HasKey(Keyed(font.glyphDictionary), c) && |font.glyphs| > 0
    ensures Load(FontBytes(font, utf8)).Ok?
    ensures GetGlyph(Load(FontBytes(font, utf8)).value, c) == Ok(ReadBackGlyph(font.glyphs[0]))
  {
    WriteThenRead(font, utf8);
  }
}
