/**
 * GameUtilsFont: the converted font and its "gufont" container. The
 * container is the magic "gufont", the name as counted UTF-8 bytes, the
 * style and metrics, the counted character map and the counted glyph
 * records, all integers as 32-bit little-endian values.
 */
module GameUtilsFonts {
  import opened Wrappers
  import opened BigEndian
  import opened LittleEndian
  import opened Polygons
  import opened Glyphs
  import opened TriangulatedGlyphs
  import opened BinaryWriters
  import opened Blocks
  import opened CharacterMap
  import opened Winding
  import TrueType

  /** The font name is the TrueType family name, still as UTF-16BE bytes. */
  datatype GameUtilsFont = GameUtilsFont(
    fontName: seq<Byte>,
    style: int,
    unitsPerEm: int,
    glyphs: seq<TriangulatedGlyph>,
    glyphDictionary: seq<Entry>,
    ascend: int,
    descend: int,
    lineGap: int)

  // ---- the constructor ----

  /** The triangulation of one glyph with its metric. */
  function Builder(rule: Rule, svc: Services): (Glyph, TrueType.HorizontalMetric) -> Result<TriangulatedGlyph, Fault>
  {
    (g, m) => Build(rule, g, m, svc)
  }

  /**
   * Glyphs 0 .. n-1, glyph i built with metric i; a glyph without a metric
   * is an index error, raised when the loop reaches it.
   */
  function BuildGlyphs(glyphs: seq<Glyph>, metrics: seq<TrueType.HorizontalMetric>,
                       build: (Glyph, TrueType.HorizontalMetric) -> Result<TriangulatedGlyph, Fault>, n: nat)
    : (r: Result<seq<TriangulatedGlyph>, Fault>)
    requires n <= |glyphs|
    ensures r.Ok? ==> |r.value| == n && n <= |metrics|
    ensures r.Ok? ==> forall i :: 0 <= i < n ==> build(glyphs[i], metrics[i]) == Ok(r.value[i])
  {
    if n == 0 then Ok([])
    else
      var prior :- BuildGlyphs(glyphs, metrics, build, n - 1);
      if n - 1 >= |metrics| then Err(IndexOutOfRange)
      else
        var g :- build(glyphs[n - 1], metrics[n - 1]);
        Ok(prior + [g])
  }

  /** GameUtilsFont(trueTypeData), each glyph triangulated under rule. */
  function FromTrueType(rule: Rule, ttf: TrueType.TrueTypeFile, svc: Services): (r: Result<GameUtilsFont, Fault>)
    ensures r.Ok? ==> r.value.fontName == ttf.familyName && r.value.glyphDictionary == ttf.glyphDictionary
    ensures r.Ok? ==> (r.value.style == ttf.style && r.value.unitsPerEm == ttf.unitsPerEm
      && r.value.ascend == ttf.ascend && r.value.descend == ttf.descend && r.value.lineGap == ttf.lineGap)
    ensures r.Ok? ==> |r.value.glyphs| == |ttf.glyphs| <= |ttf.glyphMetrics|
  {
    var glyphs :- BuildGlyphs(ttf.glyphs, ttf.glyphMetrics, Builder(rule, svc), |ttf.glyphs|);
    Ok(GameUtilsFont(ttf.familyName, ttf.style, ttf.unitsPerEm, glyphs, ttf.glyphDictionary, ttf.ascend, ttf.descend, ttf.lineGap))
  }

  /** With fewer metrics than glyphs the loop reaches a glyph without one and fails. */
  lemma MissingMetricFails(rule: Rule, ttf: TrueType.TrueTypeFile, svc: Services)
    requires |ttf.glyphMetrics| < |ttf.glyphs|
    ensures FromTrueType(rule, ttf, svc).Err?
  {
  }

  /** Glyph i of a converted font is the triangulation of TrueType glyph i with metric i. */
  lemma FromTrueTypePairs(rule: Rule, ttf: TrueType.TrueTypeFile, svc: Services)
    requires FromTrueType(rule, ttf, svc).Ok?
    ensures forall i :: 0 <= i < |ttf.glyphs| ==>
      i < |ttf.glyphMetrics| && Build(rule, ttf.glyphs[i], ttf.glyphMetrics[i], svc) == Ok(FromTrueType(rule, ttf, svc).value.glyphs[i])
  {
    var gs := BuildGlyphs(ttf.glyphs, ttf.glyphMetrics, Builder(rule, svc), |ttf.glyphs|).value;
    forall i | 0 <= i < |ttf.glyphs|
      ensures Build(rule, ttf.glyphs[i], ttf.glyphMetrics[i], svc) == Ok(gs[i])
    {
      assert Builder(rule, svc)(ttf.glyphs[i], ttf.glyphMetrics[i]) == Ok(gs[i]);
    }
  }

  /** Every glyph of a converted font is a valid triangle list of well-formed vertices. */
  lemma FromTrueTypeIndexed(rule: Rule, ttf: TrueType.TrueTypeFile, svc: Services)
    requires FromTrueType(rule, ttf, svc).Ok?
    ensures forall g :: g in FromTrueType(rule, ttf, svc).value.glyphs ==>
      |g.indices| % 3 == 0
      && (forall k :: 0 <= k < |g.indices| ==> 0 <= g.indices[k] < |g.vertices|)
      && forall i :: 0 <= i < |g.vertices| ==> Vertices.WellFormed(g.vertices[i])
  {
    var font := FromTrueType(rule, ttf, svc).value;
    FromTrueTypePairs(rule, ttf, svc);
    forall g | g in font.glyphs
      ensures |g.indices| % 3 == 0
      ensures forall k :: 0 <= k < |g.indices| ==> 0 <= g.indices[k] < |g.vertices|
      ensures forall i :: 0 <= i < |g.vertices| ==> Vertices.WellFormed(g.vertices[i])
    {
      var i :| 0 <= i < |font.glyphs| && font.glyphs[i] == g;
      BuildIndexed(rule, ttf.glyphs[i], ttf.glyphMetrics[i], svc);
    }
  }

  /** The constructor's loop over the glyphs, with the triangulation of one glyph as build. */
  method BuildAll(glyphs: seq<Glyph>, metrics: seq<TrueType.HorizontalMetric>,
                  build: (Glyph, TrueType.HorizontalMetric) -> Result<TriangulatedGlyph, Fault>)
    returns (r: Result<seq<TriangulatedGlyph>, Fault>)
    ensures r == BuildGlyphs(glyphs, metrics, build, |glyphs|)
  {
    var built: seq<TriangulatedGlyph> := [];
    for i := 0 to |glyphs|
      invariant BuildGlyphs(glyphs, metrics, build, i) == Ok(built)
    {
      if i >= |metrics| {
        FailureStays(glyphs, metrics, build, i + 1, |glyphs|);
        return Err(IndexOutOfRange);
      }
      var g := build(glyphs[i], metrics[i]);
      if g.Err? {
        FailureStays(glyphs, metrics, build, i + 1, |glyphs|);
        return Err(g.error);
      }
      built := built + [g.value];
    }
    return Ok(built);
  }

  /** GameUtilsFont(trueTypeData) as a method. */
  method Convert(rule: Rule, ttf: TrueType.TrueTypeFile, svc: Services) returns (r: Result<GameUtilsFont, Fault>)
    ensures r == FromTrueType(rule, ttf, svc)
  {
    var glyphs :- BuildAll(ttf.glyphs, ttf.glyphMetrics, Builder(rule, svc));
    return Ok(GameUtilsFont(ttf.familyName, ttf.style, ttf.unitsPerEm, glyphs, ttf.glyphDictionary, ttf.ascend, ttf.descend, ttf.lineGap));
  }

  lemma {:induction false} FailureStays(glyphs: seq<Glyph>, metrics: seq<TrueType.HorizontalMetric>,
                                        build: (Glyph, TrueType.HorizontalMetric) -> Result<TriangulatedGlyph, Fault>, i: nat, n: nat)
    requires i <= n <= |glyphs| && BuildGlyphs(glyphs, metrics, build, i).Err?
    ensures BuildGlyphs(glyphs, metrics, build, n) == BuildGlyphs(glyphs, metrics, build, i)
    decreases n
  {
    if n > i {
      FailureStays(glyphs, metrics, build, i, n - 1);
    }
  }

  // ---- Save ----

  /** The char a dictionary key stands for. */
  function Key(c: int): (k: int)
    ensures IsUInt16(k)
  {
    c % TwoTo16
  }

  /** A key Write(char) refuses. */
  predicate Unwritable(e: Entry)
  {
    IsSurrogate(Key(e.0))
  }

  function EntryBytes(e: Entry): (bs: seq<Byte>)
    ensures |bs| == 6
  {
    CharBytes(Key(e.0)) + Int32Bytes(e.1)
  }

  /** The entries one after the other, six bytes each. */
  function EntriesBytes(d: seq<Entry>): (bs: seq<Byte>)
    ensures |bs| == 6 * |d|
  {
    ConcatLength(d, EntryBytes, 6);
    Concat(d, EntryBytes)
  }

  /** The glyph records one after the other. */
  function GlyphsBytes(gs: seq<TriangulatedGlyph>): seq<Byte>
  {
    Concat(gs, GlyphBytes)
  }

  /** Magic, the counted name, then style, units per em, ascend, descend and line gap. */
  function HeaderBytes(font: GameUtilsFont, utf8: seq<Byte> -> seq<Byte>): seq<Byte>
  {
    var name := utf8(font.fontName);
    Magic + Int32Bytes(|name|) + name
    + Int32Bytes(font.style) + Int32Bytes(font.unitsPerEm)
    + Int32Bytes(font.ascend) + Int32Bytes(font.descend) + Int32Bytes(font.lineGap)
  }

  /** The map's count and its first k entries. */
  function DictionaryPrefix(d: seq<Entry>, k: nat): seq<Byte>
    requires k <= |d|
  {
    Int32Bytes(|d|) + EntriesBytes(d[..k])
  }

  /** The glyph count and the glyph records. */
  function GlyphsBlock(gs: seq<TriangulatedGlyph>): seq<Byte>
  {
    Int32Bytes(|gs|) + GlyphsBytes(gs)
  }

  /** The whole container. */
  function FontBytes(font: GameUtilsFont, utf8: seq<Byte> -> seq<Byte>): seq<Byte>
  {
    HeaderBytes(font, utf8) + DictionaryPrefix(font.glyphDictionary, |font.glyphDictionary|) + GlyphsBlock(font.glyphs)
  }

  /** No key of the map is a lone surrogate. */
  predicate Writable(font: GameUtilsFont)
  {
    forall i :: 0 <= i < |font.glyphDictionary| ==> !Unwritable(font.glyphDictionary[i])
  }

  /** The position of the first refused key, or the map's length. */
  function FirstUnwritable(d: seq<Entry>): (k: nat)
    ensures k <= |d| && forall i :: 0 <= i < k ==> !Unwritable(d[i])
    ensures k < |d| ==> Unwritable(d[k])
  {
    if |d| == 0 then 0
    else if Unwritable(d[0]) then 0
    else 1 + FirstUnwritable(d[1..])
  }

  method WriteHeader(font: GameUtilsFont, utf8: seq<Byte> -> seq<Byte>, writer: BinaryWriter)
    modifies writer
    ensures writer.bytes == old(writer.bytes) + HeaderBytes(font, utf8)
  {
    ghost var before := writer.bytes;
    writer.WriteBytes(Magic);
    var nameBytes := utf8(font.fontName);
    writer.WriteInt32(|nameBytes|);
    AppendTwice(before, Magic, Int32Bytes(|nameBytes|));
    ghost var written := Magic + Int32Bytes(|nameBytes|);
    writer.WriteBytes(nameBytes);
    AppendTwice(before, written, nameBytes);
    written := written + nameBytes;
    writer.WriteInt32(font.style);
    AppendTwice(before, written, Int32Bytes(font.style));
    written := written + Int32Bytes(font.style);
    writer.WriteInt32(font.unitsPerEm);
    AppendTwice(before, written, Int32Bytes(font.unitsPerEm));
    written := written + Int32Bytes(font.unitsPerEm);
    writer.WriteInt32(font.ascend);
    AppendTwice(before, written, Int32Bytes(font.ascend));
    written := written + Int32Bytes(font.ascend);
    writer.WriteInt32(font.descend);
    AppendTwice(before, written, Int32Bytes(font.descend));
    written := written + Int32Bytes(font.descend);
    writer.WriteInt32(font.lineGap);
    AppendTwice(before, written, Int32Bytes(font.lineGap));
  }

  /** The count, then key and glyph index per entry, stopping at a refused key. */
  method WriteDictionary(writer: BinaryWriter, d: seq<Entry>) returns (ok: bool)
    modifies writer
    ensures ok <==> FirstUnwritable(d) == |d|
    ensures writer.bytes == old(writer.bytes) + DictionaryPrefix(d, FirstUnwritable(d))
  {
    writer.WriteInt32(|d|);
    ghost var start := writer.bytes;
    var k := 0;
    while k < |d|
      invariant k <= FirstUnwritable(d)
      invariant writer.bytes == start + EntriesBytes(d[..k])
    {
      ghost var done := writer.bytes;
      ok := writer.WriteChar(Key(d[k].0));
      if !ok {
        return false;
      }
      writer.WriteInt32(d[k].1);
      AppendTwice(done, CharBytes(Key(d[k].0)), Int32Bytes(d[k].1));
      assert d[..k + 1] == d[..k] + [d[k]];
      ConcatSnoc(d[..k], d[k], EntryBytes);
      AppendTwice(start, EntriesBytes(d[..k]), EntryBytes(d[k]));
      k := k + 1;
    }
    return true;
  }

  method WriteGlyphs(writer: BinaryWriter, gs: seq<TriangulatedGlyph>)
    modifies writer
    ensures writer.bytes == old(writer.bytes) + GlyphsBlock(gs)
  {
    writer.WriteInt32(|gs|);
    ghost var start := writer.bytes;
    for k := 0 to |gs|
      invariant writer.bytes == start + GlyphsBytes(gs[..k])
    {
      ghost var done := writer.bytes;
      Save(gs[k], writer);
      assert gs[..k + 1] == gs[..k] + [gs[k]];
      ConcatSnoc(gs[..k], gs[k], GlyphBytes);
      AppendTwice(start, GlyphsBytes(gs[..k]), GlyphBytes(gs[k]));
    }
    assert gs[..|gs|] == gs;
  }

  /**
   * Save(fileName) on a writer over the new file: the whole container, or,
   * when Write(char) refuses a key, everything up to that key.
   */
  method SaveFont(font: GameUtilsFont, utf8: seq<Byte> -> seq<Byte>, writer: BinaryWriter) returns (ok: bool)
    modifies writer
    ensures ok <==> Writable(font)
    ensures ok ==> writer.bytes == old(writer.bytes) + FontBytes(font, utf8)
    ensures !ok ==> (writer.bytes
      == old(writer.bytes) + HeaderBytes(font, utf8) + DictionaryPrefix(font.glyphDictionary, FirstUnwritable(font.glyphDictionary)))
  {
    ghost var before := writer.bytes;
    WriteHeader(font, utf8, writer);
    ok := WriteDictionary(writer, font.glyphDictionary);
    assert ok <==> Writable(font);
    if !ok {
      return;
    }
    WriteGlyphs(writer, font.glyphs);
    ghost var header := HeaderBytes(font, utf8);
    ghost var dictionary := DictionaryPrefix(font.glyphDictionary, |font.glyphDictionary|);
    AppendTwice(before, header, dictionary);
    AppendTwice(before, header + dictionary, GlyphsBlock(font.glyphs));
  }
}
