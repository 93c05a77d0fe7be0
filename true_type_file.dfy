/**
 * The TrueType file as the converter reads it: the table directory, then the
 * maxp glyph count and the head, name, cmap, hhea, hmtx and loca/glyf tables,
 * each found by the first directory entry with its tag.
 *
 * Each table has a specification function stating where its fields sit, and
 * a method following the reader's loops, proved to give the same result.
 * Names are kept as their raw UTF-16BE bytes: the transcoding is not modelled.
 */
module TrueType {
  import opened Wrappers
  import opened BigEndian
  import opened ParseErrors
  import opened Glyphs
  import CharacterMap
  import Blocks

  datatype TableHeader = TableHeader(tag: string, checksum: int, offset: nat, length: int)

  datatype Version = Version(major: int, minor: int)

  datatype HorizontalMetric = HorizontalMetric(advanceWidth: int, leftSideBearing: int)

  datatype HeadTable = HeadTable(version: Version, revision: Version, flags: int, unitsPerEm: int, style: int, longLoca: bool)

  datatype NameRecord = NameRecord(platformId: int, encodingId: int, languageId: int, nameId: int, length: nat, offset: nat)

  /** Family, subfamily and full font name, as UTF-16BE bytes. */
  datatype Names = Names(family: seq<Byte>, subfamily: seq<Byte>, fontName: seq<Byte>)

  datatype HorizontalHeader = HorizontalHeader(ascend: int, descend: int, lineGap: int, metricCount: nat)

  datatype TrueTypeFile = TrueTypeFile(
    fontName: seq<Byte>,
    familyName: seq<Byte>,
    subfamilyName: seq<Byte>,
    version: Version,
    revision: Version,
    flags: int,
    style: int,
    glyphDictionary: seq<CharacterMap.Entry>,
    glyphMetrics: seq<HorizontalMetric>,
    glyphs: seq<Glyph>,
    unitsPerEm: int,
    ascend: int,
    descend: int,
    lineGap: int)

  function U32At(data: seq<Byte>, p: nat): (v: nat)
    requires p + 4 <= |data|
    ensures IsUInt32(v)
  {
    ReadUInt32(data, p).value.value
  }

  // ---- table directory ----

  /** ASCII decoding: bytes above 0x7F become '?'. */
  function Ascii(bs: seq<Byte>): (s: string)
    ensures |s| == |bs|
    ensures forall i :: 0 <= i < |bs| && bs[i] < 0x80 ==> s[i] as int == bs[i]
  {
    seq(|bs|, i requires 0 <= i < |bs| => if bs[i] < 0x80 then bs[i] as char else '?')
  }

  /** A directory record: four tag bytes, then checksum, offset and length. */
  function HeaderAt(data: seq<Byte>, p: nat): TableHeader
    requires p + 16 <= |data|
  {
    TableHeader(Ascii(data[p..p + 4]), U32At(data, p + 4), U32At(data, p + 8), U32At(data, p + 12))
  }

  function HeadersAt(data: seq<Byte>, pos: nat, count: nat): (hs: seq<TableHeader>)
    requires count == 0 || pos + 16 * count <= |data|
    ensures |hs| == count
    ensures forall k :: 0 <= k < count ==> hs[k] == HeaderAt(data, pos + 16 * k)
  {
    seq(count, k requires 0 <= k < count => HeaderAt(data, pos + 16 * k))
  }

  /** The table count is the word at byte 4; records start at byte 12, 16 bytes each. */
  function Directory(data: seq<Byte>): (r: Result<seq<TableHeader>, ParseError>)
    ensures r.Ok? <==> 6 <= |data| && (Be16(data[4], data[5]) == 0 || 12 + 16 * Be16(data[4], data[5]) <= |data|)
    ensures r.Ok? ==> |r.value| == Be16(data[4], data[5])
  {
    var count :- Need(ReadUInt16(data, 4));
    if count.value == 0 || 12 + 16 * count.value <= |data| then Ok(HeadersAt(data, 12, count.value))
    else Err(EndOfStream)
  }

  method ReadDirectory(data: seq<Byte>) returns (r: Result<seq<TableHeader>, ParseError>)
    ensures r == Directory(data)
  {
    var countRead := ReadUInt16(data, 4);
    if countRead.None? {
      return Err(EndOfStream);
    }
    var tableCount := countRead.value.value;
    var p := countRead.value.next + 6;
    var tableList: seq<TableHeader> := [];
    for i := 0 to tableCount
      invariant p == 12 + 16 * i && (i > 0 ==> p <= |data|)
      invariant |tableList| == i
      invariant forall k :: 0 <= k < i ==> tableList[k] == HeaderAt(data, 12 + 16 * k)
    {
      var tag := ReadBytes(data, p, 4);
      var checksum := ReadUInt32(data, tag.next);
      if checksum.None? {
        return Err(EndOfStream);
      }
      var offset := ReadUInt32(data, checksum.value.next);
      if offset.None? {
        return Err(EndOfStream);
      }
      var length := ReadUInt32(data, offset.value.next);
      if length.None? {
        return Err(EndOfStream);
      }
      tableList := tableList + [TableHeader(Ascii(tag.value), checksum.value.value, offset.value.value, length.value.value)];
      p := length.value.next;
    }
    assert tableList == HeadersAt(data, 12, tableCount);
    return Ok(tableList);
  }

  /** tableList.First(header => header.Tag == tag): failing when no entry has the tag. */
  function FindTable(tables: seq<TableHeader>, tag: string): (r: Result<TableHeader, ParseError>)
    ensures r.Err? <==> forall k :: 0 <= k < |tables| ==> tables[k].tag != tag
    ensures r.Err? ==> r.error == MissingTable(tag)
    ensures r.Ok? ==> exists k :: 0 <= k < |tables| && tables[k] == r.value && tables[k].tag == tag
                        && forall j :: 0 <= j < k ==> tables[j].tag != tag
  {
    match FirstIndex(tables, (t: TableHeader) => t.tag == tag)
    case None => Err(MissingTable(tag))
    case Some(k) => Ok(tables[k])
  }

  // ---- head ----

  /**
   * head: version and revision as pairs of words at +0 and +4, flags at
   * +16, unitsPerEm at +18, macStyle at +44, and the long-loca flag true
   * iff the word at +50 is nonzero.
   */
  function ParseHead(data: seq<Byte>, offset: nat): (r: Result<HeadTable, ParseError>)
    ensures r.Ok? <==> offset + 52 <= |data|
    ensures r.Ok? ==>
      r.value.version == Version(WordAt(data, offset, false), WordAt(data, offset + 2, false))
      && r.value.revision == Version(WordAt(data, offset + 4, false), WordAt(data, offset + 6, false))
      && r.value.flags == WordAt(data, offset + 16, true)
      && r.value.unitsPerEm == WordAt(data, offset + 18, false)
      && r.value.style == WordAt(data, offset + 44, true)
      && (r.value.longLoca <==> WordAt(data, offset + 50, false) != 0)
  {
    var major :- Need(ReadUInt16(data, offset));
    var minor :- Need(ReadUInt16(data, major.next));
    var revMajor :- Need(ReadUInt16(data, minor.next));
    var revMinor :- Need(ReadUInt16(data, revMajor.next));
    var flags :- Need(ReadInt16(data, revMinor.next + 8));
    var unitsPerEm :- Need(ReadUInt16(data, flags.next));
    var style :- Need(ReadInt16(data, unitsPerEm.next + 24));
    var longFormat :- Need(ReadUInt16(data, style.next + 4));
    Ok(HeadTable(Version(major.value, minor.value), Version(revMajor.value, revMinor.value),
                 flags.value, unitsPerEm.value, style.value, longFormat.value != 0))
  }

  // ---- name ----

  function NameRecordAt(data: seq<Byte>, p: nat): NameRecord
    requires p + 12 <= |data|
  {
    NameRecord(WordAt(data, p, false), WordAt(data, p + 2, false), WordAt(data, p + 4, false),
               WordAt(data, p + 6, false), WordAt(data, p + 8, false), WordAt(data, p + 10, false))
  }

  function NameRecordsAt(data: seq<Byte>, pos: nat, count: nat): (rs: seq<NameRecord>)
    requires count == 0 || pos + 12 * count <= |data|
    ensures |rs| == count
    ensures forall k :: 0 <= k < count ==> rs[k] == NameRecordAt(data, pos + 12 * k)
  {
    seq(count, k requires 0 <= k < count => NameRecordAt(data, pos + 12 * k))
  }

  /** Record count at +2, string storage offset at +4, then 12-byte records from +6. */
  function NameRecords(data: seq<Byte>, offset: nat): (r: Result<(seq<NameRecord>, nat), ParseError>)
  {
    var count :- Need(ReadUInt16(data, offset + 2));
    var stringOffset :- Need(ReadUInt16(data, offset + 4));
    if count.value == 0 || offset + 6 + 12 * count.value <= |data| then
      Ok((NameRecordsAt(data, offset + 6, count.value), stringOffset.value))
    else Err(EndOfStream)
  }

  /** Only Windows, Unicode BMP, US English records are used. */
  predicate English(r: NameRecord)
  {
    r.platformId == 3 && r.encodingId == 1 && r.languageId == 0x0409
  }

  /**
   * The name with the given ID: the first English record with it, its
   * bytes read at table offset + string offset + record offset (fewer at
   * the end of the input); failing when there is no such record.
   */
  function NameText(data: seq<Byte>, offset: nat, stringOffset: nat, records: seq<NameRecord>, nameId: int)
    : (r: Result<seq<Byte>, ParseError>)
    ensures r.Err? <==> forall k :: 0 <= k < |records| ==> !(English(records[k]) && records[k].nameId == nameId)
    ensures r.Err? ==> r.error == MissingNameRecord(nameId)
    ensures r.Ok? ==> exists k :: (0 <= k < |records| && English(records[k]) && records[k].nameId == nameId
      && (forall j :: 0 <= j < k ==> !(English(records[j]) && records[j].nameId == nameId))
      && r.value == ReadBytes(data, offset + stringOffset + records[k].offset, records[k].length).value)
  {
    match FirstIndex(records, (rec: NameRecord) => English(rec) && rec.nameId == nameId)
    case None => Err(MissingNameRecord(nameId))
    case Some(k) => Ok(ReadBytes(data, offset + stringOffset + records[k].offset, records[k].length).value)
  }

  /** Name IDs 1, 2 and 4: family, subfamily and full name. */
  function DecodeNames(data: seq<Byte>, offset: nat): (r: Result<Names, ParseError>)
  {
    var table :- NameRecords(data, offset);
    var (records, stringOffset) := table;
    var family :- NameText(data, offset, stringOffset, records, 1);
    var subfamily :- NameText(data, offset, stringOffset, records, 2);
    var fontName :- NameText(data, offset, stringOffset, records, 4);
    Ok(Names(family, subfamily, fontName))
  }

  /** One more record at the end of the table's records. */
  lemma NameRecordsSnoc(data: seq<Byte>, pos: nat, count: nat, p: nat)
    requires pos + 12 * (count + 1) <= |data| && p == pos + 12 * count
    ensures NameRecordsAt(data, pos, count + 1) == NameRecordsAt(data, pos, count) + [NameRecordAt(data, p)]
  {
  }

  /** One record: six words, or None past the end of the input. */
  method ReadNameRecord(data: seq<Byte>, p: nat) returns (r: Option<NameRecord>)
    ensures r.Some? <==> p + 12 <= |data|
    ensures r.Some? ==> r.value == NameRecordAt(data, p)
  {
    var fields := ReadWords(data, p, 6, false);
    if fields.None? {
      return None;
    }
    var w := fields.value.value;
    assert forall j :: 0 <= j < 6 ==> w[j] == WordAt(data, p + 2 * j, false);
    return Some(NameRecord(w[0], w[1], w[2], w[3], w[4], w[5]));
  }

  /** The record loop: count records of six words each from start. */
  method ReadNameRecords(data: seq<Byte>, start: nat, count: nat) returns (r: Option<seq<NameRecord>>)
    ensures r.Some? <==> (count == 0 || start + 12 * count <= |data|)
    ensures r.Some? ==> r.value == NameRecordsAt(data, start, count)
  {
    var p := start;
    var recordList: seq<NameRecord> := [];
    for i := 0 to count
      invariant p == start + 12 * i && (i > 0 ==> p <= |data|)
      invariant recordList == NameRecordsAt(data, start, i)
    {
      var record := ReadNameRecord(data, p);
      if record.None? {
        return None;
      }
      NameRecordsSnoc(data, start, i, p);
      recordList := recordList + [record.value];
      p := p + 12;
    }
    return Some(recordList);
  }

  method ParseNameTable(data: seq<Byte>, offset: nat) returns (r: Result<Names, ParseError>)
    ensures r == DecodeNames(data, offset)
  {
    var countRead := ReadUInt16(data, offset + 2);
    if countRead.None? {
      return Err(EndOfStream);
    }
    var stringOffsetRead := ReadUInt16(data, offset + 4);
    if stringOffsetRead.None? {
      return Err(EndOfStream);
    }
    var recordCount, stringOffset := countRead.value.value, stringOffsetRead.value.value;
    var records := ReadNameRecords(data, offset + 6, recordCount);
    if records.None? {
      return Err(EndOfStream);
    }
    var recordList := records.value;
    var family := NameText(data, offset, stringOffset, recordList, 1);
    if family.Err? {
      return Err(family.error);
    }
    var subfamily := NameText(data, offset, stringOffset, recordList, 2);
    if subfamily.Err? {
      return Err(subfamily.error);
    }
    var fontName := NameText(data, offset, stringOffset, recordList, 4);
    if fontName.Err? {
      return Err(fontName.error);
    }
    return Ok(Names(family.value, subfamily.value, fontName.value));
  }

  // ---- hhea ----

  /** hhea: ascender, descender and line gap at +4, +6, +8; numberOfHMetrics at +34. */
  function ParseHhea(data: seq<Byte>, offset: nat): (r: Result<HorizontalHeader, ParseError>)
    ensures r.Ok? <==> offset + 36 <= |data|
    ensures r.Ok? ==>
      r.value == HorizontalHeader(WordAt(data, offset + 4, true), WordAt(data, offset + 6, true),
                                  WordAt(data, offset + 8, true), WordAt(data, offset + 34, false))
  {
    var ascend :- Need(ReadInt16(data, offset + 4));
    var descend :- Need(ReadInt16(data, ascend.next));
    var lineGap :- Need(ReadInt16(data, descend.next));
    var metricCount :- Need(ReadUInt16(data, lineGap.next + 24));
    Ok(HorizontalHeader(ascend.value, descend.value, lineGap.value, metricCount.value))
  }

  // ---- hmtx ----

  function MetricAt(data: seq<Byte>, p: nat): HorizontalMetric
    requires p + 4 <= |data|
  {
    HorizontalMetric(WordAt(data, p, false), WordAt(data, p + 2, true))
  }

  /** n (advance width, left side bearing) pairs from p. */
  function LongMetrics(data: seq<Byte>, p: nat, n: nat): (ms: seq<HorizontalMetric>)
    requires n == 0 || p + 4 * n <= |data|
    ensures |ms| == n
    ensures forall k :: 0 <= k < n ==> ms[k] == MetricAt(data, p + 4 * k)
  {
    seq(n, k requires 0 <= k < n => MetricAt(data, p + 4 * k))
  }

  /** n metrics with the given advance width and left side bearings read from p. */
  function ShortMetrics(data: seq<Byte>, p: nat, advanceWidth: int, n: nat): (ms: seq<HorizontalMetric>)
    requires n == 0 || p + 2 * n <= |data|
    ensures |ms| == n
    ensures forall k :: 0 <= k < n ==> ms[k] == HorizontalMetric(advanceWidth, WordAt(data, p + 2 * k, true))
  {
    seq(n, k requires 0 <= k < n => HorizontalMetric(advanceWidth, WordAt(data, p + 2 * k, true)))
  }

  /**
   * hmtx: glyphCount entries; the first metricCount are (advance width, left
   * side bearing) pairs, the rest reuse entry metricCount-1's advance width
   * and read only a left side bearing. More metrics than glyphs, or none for
   * a non-empty font, is an index error (raised once the pair that does not
   * fit the array has been read).
   */
  function DecodeHmtx(data: seq<Byte>, offset: nat, metricCount: nat, glyphCount: nat)
    : (r: Result<seq<HorizontalMetric>, ParseError>)
    ensures r.Ok? <==> metricCount <= glyphCount && (metricCount > 0 || glyphCount == 0)
                       && (glyphCount == 0 || offset + 4 * metricCount + 2 * (glyphCount - metricCount) <= |data|)
    ensures metricCount > glyphCount ==>
      r == Err(if offset + 4 * glyphCount + 4 <= |data| then IndexOutOfRange else EndOfStream)
    ensures metricCount == 0 < glyphCount ==> r == Err(IndexOutOfRange)
    ensures r.Ok? ==> |r.value| == glyphCount
    ensures r.Ok? ==> forall i :: 0 <= i < metricCount ==> r.value[i] == MetricAt(data, offset + 4 * i)
    ensures r.Ok? ==> forall i :: metricCount <= i < glyphCount ==>
      r.value[i].advanceWidth == r.value[metricCount - 1].advanceWidth
      && r.value[i].leftSideBearing == WordAt(data, offset + 4 * metricCount + 2 * (i - metricCount), true)
  {
    if metricCount > glyphCount then
      Err(if offset + 4 * glyphCount + 4 <= |data| then IndexOutOfRange else EndOfStream)
    else if metricCount == 0 && glyphCount > 0 then Err(IndexOutOfRange)
    else if !(glyphCount == 0 || offset + 4 * metricCount + 2 * (glyphCount - metricCount) <= |data|) then
      Err(EndOfStream)
    else
      var long := LongMetrics(data, offset, metricCount);
      var width := if metricCount == 0 then 0 else long[metricCount - 1].advanceWidth;
      Ok(long + ShortMetrics(data, offset + 4 * metricCount, width, glyphCount - metricCount))
  }

  /** The first loop of the hmtx reader: metricCount pairs into the front of metrics. */
  method ReadLongMetrics(data: seq<Byte>, offset: nat, metricCount: nat, metrics: array<HorizontalMetric>)
    returns (r: Option<ParseError>)
    modifies metrics
    ensures r.None? <==> metricCount <= metrics.Length && (metricCount == 0 || offset + 4 * metricCount <= |data|)
    ensures r.Some? ==> r.value == (if metricCount > metrics.Length && offset + 4 * metrics.Length + 4 <= |data|
                                     then IndexOutOfRange else EndOfStream)
    ensures r.None? ==> metrics[..metricCount] == LongMetrics(data, offset, metricCount)
  {
    var p := offset;
    for i := 0 to metricCount
      invariant p == offset + 4 * i && (i > 0 ==> p <= |data|)
      invariant i <= metrics.Length
      invariant forall k :: 0 <= k < i ==> metrics[k] == MetricAt(data, offset + 4 * k)
    {
      var advanceWidth := ReadUInt16(data, p);
      if advanceWidth.None? {
        return Some(EndOfStream);
      }
      var leftSideBearing := ReadInt16(data, p + 2);
      if leftSideBearing.None? {
        return Some(EndOfStream);
      }
      if i >= metrics.Length {
        return Some(IndexOutOfRange);
      }
      metrics[i] := HorizontalMetric(advanceWidth.value.value, leftSideBearing.value.value);
      p := p + 4;
    }
    return None;
  }

  /** The second loop: the remaining entries reuse the last advance width. */
  method ReadShortMetrics(data: seq<Byte>, p0: nat, metricCount: nat, metrics: array<HorizontalMetric>)
    returns (r: Option<ParseError>)
    requires metricCount <= metrics.Length
    modifies metrics
    ensures r.None? <==> (metricCount > 0 || metrics.Length == 0)
                         && (metrics.Length == metricCount || p0 + 2 * (metrics.Length - metricCount) <= |data|)
    ensures r.Some? ==> r.value == (if metricCount == 0 then IndexOutOfRange else EndOfStream)
    ensures metrics[..metricCount] == old(metrics[..metricCount])
    ensures r.None? && metricCount > 0 ==>
      metrics[metricCount..] == ShortMetrics(data, p0, metrics[metricCount - 1].advanceWidth, metrics.Length - metricCount)
  {
    var p := p0;
    for i := metricCount to metrics.Length
      invariant p == p0 + 2 * (i - metricCount)
      invariant i > metricCount ==> p <= |data| && metricCount > 0
      invariant metrics[..metricCount] == old(metrics[..metricCount])
      invariant forall k :: metricCount <= k < i ==>
        metrics[k] == HorizontalMetric(metrics[metricCount - 1].advanceWidth, WordAt(data, p0 + 2 * (k - metricCount), true))
    {
      if metricCount == 0 {
        return Some(IndexOutOfRange);
      }
      var advanceWidth := metrics[metricCount - 1].advanceWidth;
      var leftSideBearing := ReadInt16(data, p);
      if leftSideBearing.None? {
        return Some(EndOfStream);
      }
      metrics[i] := HorizontalMetric(advanceWidth, leftSideBearing.value.value);
      p := p + 2;
    }
    return None;
  }

  method ParseHmtxTable(data: seq<Byte>, offset: nat, metricCount: nat, glyphCount: nat)
    returns (r: Result<seq<HorizontalMetric>, ParseError>)
    ensures r == DecodeHmtx(data, offset, metricCount, glyphCount)
  {
    var metrics := new HorizontalMetric[glyphCount](_ => HorizontalMetric(0, 0));
    var failed := ReadLongMetrics(data, offset, metricCount, metrics);
    if failed.Some? {
      return Err(failed.value);
    }
    var long := metrics[..metricCount];
    failed := ReadShortMetrics(data, offset + 4 * metricCount, metricCount, metrics);
    if failed.Some? {
      return Err(failed.value);
    }
    assert metrics[..] == metrics[..metricCount] + metrics[metricCount..];
    return Ok(metrics[..]);
  }

  // ---- loca and glyf ----

  /** Entry i of loca: a u32 in the long format, twice a u16 in the short one. */
  function LocaEntry(data: seq<Byte>, locaOffset: nat, longFormat: bool, i: nat): (v: nat)
    requires locaOffset + (if longFormat then 4 else 2) * (i + 1) <= |data|
  {
    if longFormat then U32At(data, locaOffset + 4 * i) else 2 * WordAt(data, locaOffset + 2 * i, false)
  }

  /** The glyphCount + 1 glyph boundaries. */
  function LocaOffsets(data: seq<Byte>, locaOffset: nat, glyphCount: nat, longFormat: bool)
    : (r: Result<seq<nat>, ParseError>)
    ensures r.Ok? <==> locaOffset + (if longFormat then 4 else 2) * (glyphCount + 1) <= |data|
    ensures r.Ok? ==> |r.value| == glyphCount + 1
    ensures r.Ok? ==> forall i :: 0 <= i <= glyphCount ==> r.value[i] == LocaEntry(data, locaOffset, longFormat, i)
  {
    if locaOffset + (if longFormat then 4 else 2) * (glyphCount + 1) <= |data| then
      Ok(seq(glyphCount + 1, i requires 0 <= i <= glyphCount => LocaEntry(data, locaOffset, longFormat, i)))
    else Err(EndOfStream)
  }

  /** Glyph i: Empty for a range with end - start <= 0, else decoded at its start in glyf. */
  function GlyphAt(data: seq<Byte>, glyfOffset: nat, offsets: seq<nat>, i: nat): Result<Glyph, ParseError>
    requires i + 1 < |offsets|
  {
    if offsets[i + 1] as int - offsets[i] <= 0 then Ok(Empty())
    else DecodeGlyph(data, glyfOffset + offsets[i])
  }

  /** Every value of rs, in order, or the first failure among them. */
  function AllOk<T>(rs: seq<Result<T, ParseError>>): (r: Result<seq<T>, ParseError>)
    ensures r.Ok? ==> |r.value| == |rs|
  {
    if rs == [] then Ok([])
    else
      var x :- rs[0];
      var rest :- AllOk(rs[1..]);
      Ok([x] + rest)
  }

  /** Success puts the value of rs[j] at index j. */
  lemma {:induction false} AllOkAt<T>(rs: seq<Result<T, ParseError>>, j: nat)
    requires j < |rs| && AllOk(rs).Ok?
    ensures rs[j] == Ok(AllOk(rs).value[j])
  {
    if j > 0 {
      AllOkAt(rs[1..], j - 1);
    }
  }

  /** The failure is that of the first entry that fails. */
  lemma {:induction false} AllOkFirstFailure<T>(rs: seq<Result<T, ParseError>>, j: nat)
    requires j < |rs| && rs[j].Err?
    requires forall k :: 0 <= k < j ==> rs[k].Ok?
    ensures AllOk(rs) == Err(rs[j].error)
  {
    if j > 0 {
      AllOkFirstFailure(rs[1..], j - 1);
    }
  }

  /** AllOk from index i, as a loop takes it: one entry, then the rest. */
  lemma AllOkNext<T>(rs: seq<Result<T, ParseError>>, i: nat)
    requires i < |rs|
    ensures AllOk(rs[i..]) == if rs[i].Err? then Err(rs[i].error) else Prefixed([rs[i].value], AllOk(rs[i + 1..]))
  {
    assert rs[i..][1..] == rs[i + 1..];
  }

  /** The result of decoding each of the |offsets| - 1 glyphs. */
  function GlyphResults(data: seq<Byte>, glyfOffset: nat, offsets: seq<nat>): (rs: seq<Result<Glyph, ParseError>>)
    requires 0 < |offsets|
    ensures |rs| == |offsets| - 1
  {
    seq(|offsets| - 1, i requires 0 <= i < |offsets| - 1 => GlyphAt(data, glyfOffset, offsets, i))
  }

  /** All glyphs in loca order: the first failure is the result. */
  function DecodeGlyphs(data: seq<Byte>, glyfOffset: nat, offsets: seq<nat>): (r: Result<seq<Glyph>, ParseError>)
    requires 0 < |offsets|
    ensures r.Ok? ==> |r.value| == |offsets| - 1
  {
    AllOk(GlyphResults(data, glyfOffset, offsets))
  }

  /** A successful decoding holds glyph j at index j. */
  lemma DecodeGlyphsAt(data: seq<Byte>, glyfOffset: nat, offsets: seq<nat>, j: nat)
    requires j + 1 < |offsets| && DecodeGlyphs(data, glyfOffset, offsets).Ok?
    ensures GlyphAt(data, glyfOffset, offsets, j) == Ok(DecodeGlyphs(data, glyfOffset, offsets).value[j])
  {
    AllOkAt(GlyphResults(data, glyfOffset, offsets), j);
  }

  /** A glyph that fails after glyphs that succeed is the failure of the whole table. */
  lemma DecodeGlyphsFails(data: seq<Byte>, glyfOffset: nat, offsets: seq<nat>, j: nat)
    requires j + 1 < |offsets| && GlyphAt(data, glyfOffset, offsets, j).Err?
    requires forall k :: 0 <= k < j ==> GlyphAt(data, glyfOffset, offsets, k).Ok?
    ensures DecodeGlyphs(data, glyfOffset, offsets) == Err(GlyphAt(data, glyfOffset, offsets, j).error)
  {
    AllOkFirstFailure(GlyphResults(data, glyfOffset, offsets), j);
  }

  function DecodeGlyf(data: seq<Byte>, glyfOffset: nat, locaOffset: nat, glyphCount: nat, longFormat: bool)
    : (r: Result<seq<Glyph>, ParseError>)
    ensures r.Ok? ==> |r.value| == glyphCount
  {
    var offsets :- LocaOffsets(data, locaOffset, glyphCount, longFormat);
    DecodeGlyphs(data, glyfOffset, offsets)
  }

  /** The loca loop: glyphCount + 1 entries in the format head chose. */
  method ReadLocaOffsets(data: seq<Byte>, locaOffset: nat, glyphCount: nat, longFormat: bool)
    returns (r: Result<seq<nat>, ParseError>)
    ensures r == LocaOffsets(data, locaOffset, glyphCount, longFormat)
  {
    var glyphOffsets := new nat[glyphCount + 1];
    var p := locaOffset;
    var size := if longFormat then 4 else 2;
    for i := 0 to glyphCount + 1
      invariant p == locaOffset + size * i && (i > 0 ==> p <= |data|)
      invariant forall k :: 0 <= k < i ==> glyphOffsets[k] == LocaEntry(data, locaOffset, longFormat, k)
    {
      var entry: Option<Read<int>>;
      if longFormat {
        entry := ReadUInt32(data, p);
      } else {
        var half := ReadUInt16(data, p);
        entry := if half.None? then None else Some(Read(half.value.value * 2, half.value.next));
      }
      if entry.None? {
        return Err(EndOfStream);
      }
      glyphOffsets[i] := entry.value.value;
      p := p + size;
    }
    ghost var expected := LocaOffsets(data, locaOffset, glyphCount, longFormat);
    assert expected.Ok?;
    assert forall k :: 0 <= k <= glyphCount ==> glyphOffsets[..][k] == expected.value[k];
    assert glyphOffsets[..] == expected.value;
    return Ok(glyphOffsets[..]);
  }

  /** The decoded values `done` put in front of the values still to decode, or the failure. */
  function Prefixed<T>(done: seq<T>, rest: Result<seq<T>, ParseError>): (r: Result<seq<T>, ParseError>)
    ensures r.Ok? <==> rest.Ok?
    ensures r.Ok? ==> |r.value| == |done| + |rest.value|
    ensures r.Ok? ==> r.value[..|done|] == done && r.value[|done|..] == rest.value
    ensures r.Err? ==> r.error == rest.error
  {
    match rest
    case Ok(v) => assert (done + v)[..|done|] == done; Ok(done + v)
    case Err(e) => Err(e)
  }

  /** One value more in front. */
  lemma PrefixedTwice<T>(done: seq<T>, x: T, rest: Result<seq<T>, ParseError>)
    ensures Prefixed(done, Prefixed([x], rest)) == Prefixed(done + [x], rest)
  {
    if rest.Ok? {
      Blocks.AppendTwice(done, [x], rest.value);
    }
  }

  /** One glyph of the loop: Empty for an empty range, else decoded at its start. */
  method ReadGlyphAt(data: seq<Byte>, glyfOffset: nat, offsets: seq<nat>, i: nat) returns (g: Result<Glyph, ParseError>)
    requires i + 1 < |offsets|
    ensures g == GlyphAt(data, glyfOffset, offsets, i)
  {
    if offsets[i + 1] as int - offsets[i] <= 0 {
      g := Ok(Empty());
    } else {
      g := ReadGlyph(data, glyfOffset + offsets[i]);
    }
  }

  /** The glyph loop: each glyph decoded, or Empty for an empty range. */
  method ReadGlyphs(data: seq<Byte>, glyfOffset: nat, offsets: seq<nat>) returns (r: Result<seq<Glyph>, ParseError>)
    requires 0 < |offsets|
    ensures r == DecodeGlyphs(data, glyfOffset, offsets)
  {
    ghost var rs := GlyphResults(data, glyfOffset, offsets);
    var glyphs := new Glyph[|offsets| - 1](_ => Empty());
    assert glyphs[..0] == [] && rs[0..] == rs;
    for i := 0 to |offsets| - 1
      invariant AllOk(rs) == Prefixed(glyphs[..i], AllOk(rs[i..]))
    {
      var g := ReadGlyphAt(data, glyfOffset, offsets, i);
      AllOkNext(rs, i);
      if g.Err? {
        return Err(g.error);
      }
      PrefixedTwice(glyphs[..i], g.value, AllOk(rs[i + 1..]));
      glyphs[i] := g.value;
      assert glyphs[..i + 1] == glyphs[..i] + [g.value];
    }
    assert glyphs[..] == glyphs[..|offsets| - 1] + [];
    return Ok(glyphs[..]);
  }

  method ParseGlyfTable(data: seq<Byte>, glyfOffset: nat, locaOffset: nat, glyphCount: nat, longFormat: bool)
    returns (r: Result<seq<Glyph>, ParseError>)
    ensures r == DecodeGlyf(data, glyfOffset, locaOffset, glyphCount, longFormat)
  {
    var offsets := ReadLocaOffsets(data, locaOffset, glyphCount, longFormat);
    if offsets.Err? {
      return Err(offsets.error);
    }
    r := ReadGlyphs(data, glyfOffset, offsets.value);
  }

  // ---- the file ----

  /** The tags the constructor looks up, in lookup order. */
  const RequiredTags: seq<string> := ["maxp", "head", "name", "cmap", "hhea", "hmtx", "glyf", "loca"]

  predicate HasTable(tables: seq<TableHeader>, tag: string)
  {
    exists k :: 0 <= k < |tables| && tables[k].tag == tag
  }

  /** What the constructor reads before the character map. */
  datatype FontHeader = FontHeader(glyphCount: nat, head: HeadTable, names: Names)

  /** The glyph count, the word at maxp + 4, then the head and name tables. */
  function DecodeFontHeader(data: seq<Byte>, tables: seq<TableHeader>): (r: Result<FontHeader, ParseError>)
    ensures !HasTable(tables, "maxp") ==> r == Err(MissingTable("maxp"))
    ensures r.Ok? ==> HasTable(tables, "maxp") && HasTable(tables, "head") && HasTable(tables, "name")
    ensures r.Ok? ==> FindTable(tables, "maxp").value.offset + 6 <= |data|
                      && r.value.glyphCount == WordAt(data, FindTable(tables, "maxp").value.offset + 4, false)
    ensures r.Ok? ==> ParseHead(data, FindTable(tables, "head").value.offset) == Ok(r.value.head)
    ensures r.Ok? ==> DecodeNames(data, FindTable(tables, "name").value.offset) == Ok(r.value.names)
  {
    var maxp :- FindTable(tables, "maxp");
    var glyphCount :- Need(ReadUInt16(data, maxp.offset + 4));
    var head :- FindTable(tables, "head");
    var headTable :- ParseHead(data, head.offset);
    var name :- FindTable(tables, "name");
    var names :- DecodeNames(data, name.offset);
    Ok(FontHeader(glyphCount.value, headTable, names))
  }

  /** The cmap, hhea, hmtx, glyf and loca tables, in the constructor's order. */
  function DecodeOutlines(data: seq<Byte>, tables: seq<TableHeader>, header: FontHeader)
    : (r: Result<TrueTypeFile, ParseError>)
    ensures r.Ok? ==> HasTable(tables, "cmap") && HasTable(tables, "hhea") && HasTable(tables, "hmtx")
                      && HasTable(tables, "glyf") && HasTable(tables, "loca")
    ensures r.Ok? ==> |r.value.glyphs| == header.glyphCount && |r.value.glyphMetrics| == header.glyphCount
    ensures r.Ok? ==> CharacterMap.KeysDistinct(r.value.glyphDictionary)
    ensures r.Ok? ==> var hhea := ParseHhea(data, FindTable(tables, "hhea").value.offset);
      hhea.Ok? && r.value.ascend == hhea.value.ascend && r.value.descend == hhea.value.descend
      && r.value.lineGap == hhea.value.lineGap
      && DecodeHmtx(data, FindTable(tables, "hmtx").value.offset, hhea.value.metricCount, header.glyphCount)
         == Ok(r.value.glyphMetrics)
    ensures r.Ok? ==> DecodeGlyf(data, FindTable(tables, "glyf").value.offset, FindTable(tables, "loca").value.offset,
                                 header.glyphCount, header.head.longLoca) == Ok(r.value.glyphs)
    ensures r.Ok? ==> FromHeader(r.value, header)
  {
    var cmap :- FindTable(tables, "cmap");
    var dictionary :- CharacterMap.DecodeCmap(data, cmap.offset);
    DecodeMetrics(data, tables, header, dictionary)
  }

  /** The character map of decoded outlines is what the cmap table decodes to. */
  lemma OutlinesDictionary(data: seq<Byte>, tables: seq<TableHeader>, header: FontHeader)
    requires DecodeOutlines(data, tables, header).Ok?
    ensures CharacterMap.DecodeCmap(data, FindTable(tables, "cmap").value.offset)
            == Ok(DecodeOutlines(data, tables, header).value.glyphDictionary)
  {
  }

  /** The names and head fields of f are header's. */
  predicate FromHeader(f: TrueTypeFile, header: FontHeader)
  {
    f.fontName == header.names.fontName && f.familyName == header.names.family
    && f.subfamilyName == header.names.subfamily
    && f.version == header.head.version && f.revision == header.head.revision
    && f.flags == header.head.flags && f.style == header.head.style
    && f.unitsPerEm == header.head.unitsPerEm
  }

  /** The hhea, hmtx, glyf and loca tables, once the character map is read. */
  function DecodeMetrics(data: seq<Byte>, tables: seq<TableHeader>, header: FontHeader, dictionary: seq<CharacterMap.Entry>)
    : (r: Result<TrueTypeFile, ParseError>)
    ensures r.Ok? ==> HasTable(tables, "hhea") && HasTable(tables, "hmtx")
                      && HasTable(tables, "glyf") && HasTable(tables, "loca")
    ensures r.Ok? ==> |r.value.glyphs| == header.glyphCount && |r.value.glyphMetrics| == header.glyphCount
    ensures r.Ok? ==> r.value.glyphDictionary == dictionary
    ensures r.Ok? ==> var hhea := ParseHhea(data, FindTable(tables, "hhea").value.offset);
      hhea.Ok? && r.value.ascend == hhea.value.ascend && r.value.descend == hhea.value.descend
      && r.value.lineGap == hhea.value.lineGap
      && DecodeHmtx(data, FindTable(tables, "hmtx").value.offset, hhea.value.metricCount, header.glyphCount)
         == Ok(r.value.glyphMetrics)
    ensures r.Ok? ==> DecodeGlyf(data, FindTable(tables, "glyf").value.offset, FindTable(tables, "loca").value.offset,
                                 header.glyphCount, header.head.longLoca) == Ok(r.value.glyphs)
    ensures r.Ok? ==> FromHeader(r.value, header)
  {
    var hhea :- FindTable(tables, "hhea");
    var hheaTable :- ParseHhea(data, hhea.offset);
    var hmtx :- FindTable(tables, "hmtx");
    var metrics :- DecodeHmtx(data, hmtx.offset, hheaTable.metricCount, header.glyphCount);
    var glyf :- FindTable(tables, "glyf");
    var loca :- FindTable(tables, "loca");
    var glyphs :- DecodeGlyf(data, glyf.offset, loca.offset, header.glyphCount, header.head.longLoca);
    var head, names := header.head, header.names;
    Ok(TrueTypeFile(names.fontName, names.family, names.subfamily, head.version, head.revision,
                    head.flags, head.style, dictionary, metrics, glyphs, head.unitsPerEm,
                    hheaTable.ascend, hheaTable.descend, hheaTable.lineGap))
  }

  /** Every table the constructor looks up. */
  predicate HasRequiredTables(tables: seq<TableHeader>)
  {
    HasTable(tables, "maxp") && HasTable(tables, "head") && HasTable(tables, "name") && HasTable(tables, "cmap")
    && HasTable(tables, "hhea") && HasTable(tables, "hmtx") && HasTable(tables, "glyf") && HasTable(tables, "loca")
  }

  /**
   * The constructor. A font it accepts has all eight required tables, as
   * many glyphs as metrics, both counted by maxp, and a character map whose
   * keys are distinct.
   */
  function DecodeFile(data: seq<Byte>): (r: Result<TrueTypeFile, ParseError>)
    ensures r.Ok? ==> Directory(data).Ok? && HasRequiredTables(Directory(data).value)
    ensures r.Ok? ==> (DecodeFontHeader(data, Directory(data).value).Ok?
      && |r.value.glyphs| == DecodeFontHeader(data, Directory(data).value).value.glyphCount
      && |r.value.glyphMetrics| == |r.value.glyphs|)
    ensures r.Ok? ==> CharacterMap.KeysDistinct(r.value.glyphDictionary)
  {
    var tables :- Directory(data);
    var header :- DecodeFontHeader(data, tables);
    DecodeOutlines(data, tables, header)
  }

  /**
   * Every field of a decoded file comes from its table: the names from name,
   * version, revision, flags, style and unitsPerEm from head, the character
   * map from cmap, the vertical metrics from hhea, the advance widths and
   * bearings from hmtx, and the glyphs from glyf and loca, as many as maxp
   * counts.
   */
  lemma DecodeFileFields(data: seq<Byte>)
    requires DecodeFile(data).Ok?
    ensures var tables, f := Directory(data).value, DecodeFile(data).value;
      var names := DecodeNames(data, FindTable(tables, "name").value.offset);
      var head := ParseHead(data, FindTable(tables, "head").value.offset);
      var hhea := ParseHhea(data, FindTable(tables, "hhea").value.offset);
      var maxp := FindTable(tables, "maxp").value.offset;
      names.Ok? && head.Ok? && hhea.Ok? && maxp + 6 <= |data|
      && f.fontName == names.value.fontName && f.familyName == names.value.family
      && f.subfamilyName == names.value.subfamily
      && f.version == head.value.version && f.revision == head.value.revision && f.flags == head.value.flags
      && f.style == head.value.style && f.unitsPerEm == head.value.unitsPerEm
      && CharacterMap.DecodeCmap(data, FindTable(tables, "cmap").value.offset) == Ok(f.glyphDictionary)
      && f.ascend == hhea.value.ascend && f.descend == hhea.value.descend && f.lineGap == hhea.value.lineGap
      && DecodeHmtx(data, FindTable(tables, "hmtx").value.offset, hhea.value.metricCount, WordAt(data, maxp + 4, false))
         == Ok(f.glyphMetrics)
      && DecodeGlyf(data, FindTable(tables, "glyf").value.offset, FindTable(tables, "loca").value.offset,
                    WordAt(data, maxp + 4, false), head.value.longLoca) == Ok(f.glyphs)
  {
    var tables := Directory(data).value;
    var header := DecodeFontHeader(data, tables).value;
    assert DecodeFile(data) == DecodeOutlines(data, tables, header);
  }

  method ReadFontHeader(data: seq<Byte>, tables: seq<TableHeader>) returns (r: Result<FontHeader, ParseError>)
    ensures r == DecodeFontHeader(data, tables)
  {
    var maxp := FindTable(tables, "maxp");
    if maxp.Err? {
      return Err(maxp.error);
    }
    var glyphCount := ReadUInt16(data, maxp.value.offset + 4);
    if glyphCount.None? {
      return Err(EndOfStream);
    }
    var head := FindTable(tables, "head");
    if head.Err? {
      return Err(head.error);
    }
    var headTable := ParseHead(data, head.value.offset);
    if headTable.Err? {
      return Err(headTable.error);
    }
    var name := FindTable(tables, "name");
    if name.Err? {
      return Err(name.error);
    }
    var names := ParseNameTable(data, name.value.offset);
    if names.Err? {
      return Err(names.error);
    }
    return Ok(FontHeader(glyphCount.value.value, headTable.value, names.value));
  }

  method ReadOutlines(data: seq<Byte>, tables: seq<TableHeader>, header: FontHeader)
    returns (r: Result<TrueTypeFile, ParseError>)
    ensures r == DecodeOutlines(data, tables, header)
  {
    var cmap := FindTable(tables, "cmap");
    if cmap.Err? {
      return Err(cmap.error);
    }
    var dictionary := CharacterMap.ParseCmapTable(data, cmap.value.offset);
    if dictionary.Err? {
      return Err(dictionary.error);
    }
    var hhea := FindTable(tables, "hhea");
    if hhea.Err? {
      return Err(hhea.error);
    }
    var hheaTable := ParseHhea(data, hhea.value.offset);
    if hheaTable.Err? {
      return Err(hheaTable.error);
    }
    var hmtx := FindTable(tables, "hmtx");
    if hmtx.Err? {
      return Err(hmtx.error);
    }
    var metrics := ParseHmtxTable(data, hmtx.value.offset, hheaTable.value.metricCount, header.glyphCount);
    if metrics.Err? {
      return Err(metrics.error);
    }
    var glyf := FindTable(tables, "glyf");
    if glyf.Err? {
      return Err(glyf.error);
    }
    var loca := FindTable(tables, "loca");
    if loca.Err? {
      return Err(loca.error);
    }
    var glyphs := ParseGlyfTable(data, glyf.value.offset, loca.value.offset, header.glyphCount, header.head.longLoca);
    if glyphs.Err? {
      return Err(glyphs.error);
    }
    var h, n, hh := header.head, header.names, hheaTable.value;
    return Ok(TrueTypeFile(n.fontName, n.family, n.subfamily, h.version, h.revision, h.flags, h.style,
                           dictionary.value, metrics.value, glyphs.value, h.unitsPerEm,
                           hh.ascend, hh.descend, hh.lineGap));
  }

  /** The constructor's sequence of table reads, from the bytes of the file. */
  method Load(data: seq<Byte>) returns (r: Result<TrueTypeFile, ParseError>)
    ensures r == DecodeFile(data)
  {
    var tables := ReadDirectory(data);
    if tables.Err? {
      return Err(tables.error);
    }
    var header := ReadFontHeader(data, tables.value);
    if header.Err? {
      return Err(header.error);
    }
    r := ReadOutlines(data, tables.value, header.value);
  }

  // ---- loca formats ----

  /** Short loca bytes: each boundary halved, as a big-endian word. */
  function ShortLoca(bs: seq<nat>): (data: seq<Byte>)
    requires forall i :: 0 <= i < |bs| ==> bs[i] < 0x2_0000
    ensures |data| == 2 * |bs|
  {
    if |bs| == 0 then [] else ShortLoca(bs[..|bs| - 1]) + EncodeUInt16(bs[|bs| - 1] / 2)
  }

  /** Long loca bytes: each boundary as a big-endian u32. */
  function LongLoca(bs: seq<nat>): (data: seq<Byte>)
    requires forall i :: 0 <= i < |bs| ==> bs[i] < TwoTo32
    ensures |data| == 4 * |bs|
  {
    if |bs| == 0 then [] else LongLoca(bs[..|bs| - 1]) + EncodeUInt32(bs[|bs| - 1])
  }

  lemma {:induction false} ShortLocaAt(bs: seq<nat>, i: nat)
    requires forall k :: 0 <= k < |bs| ==> bs[k] < 0x2_0000
    requires i < |bs|
    ensures ShortLoca(bs)[2 * i..2 * i + 2] == EncodeUInt16(bs[i] / 2)
  {
    var init := bs[..|bs| - 1];
    if i < |bs| - 1 {
      ShortLocaAt(init, i);
      assert ShortLoca(bs)[2 * i..2 * i + 2] == ShortLoca(init)[2 * i..2 * i + 2];
    }
  }

  lemma {:induction false} LongLocaAt(bs: seq<nat>, i: nat)
    requires forall k :: 0 <= k < |bs| ==> bs[k] < TwoTo32
    requires i < |bs|
    ensures LongLoca(bs)[4 * i..4 * i + 4] == EncodeUInt32(bs[i])
  {
    var init := bs[..|bs| - 1];
    if i < |bs| - 1 {
      LongLocaAt(init, i);
      assert LongLoca(bs)[4 * i..4 * i + 4] == LongLoca(init)[4 * i..4 * i + 4];
    }
  }

  lemma ShortLocaEntry(bs: seq<nat>, i: nat)
    requires forall k :: 0 <= k < |bs| ==> bs[k] < 0x2_0000 && bs[k] % 2 == 0
    requires i < |bs|
    ensures LocaEntry(ShortLoca(bs), 0, false, i) == bs[i]
  {
    var short := ShortLoca(bs);
    ShortLocaAt(bs, i);
    EncodeUInt16Injective(ReadUInt16(short, 2 * i).value.value, bs[i] / 2);
  }

  lemma LongLocaEntry(bs: seq<nat>, i: nat)
    requires forall k :: 0 <= k < |bs| ==> bs[k] < TwoTo32
    requires i < |bs|
    ensures LocaEntry(LongLoca(bs), 0, true, i) == bs[i]
  {
    var long := LongLoca(bs);
    LongLocaAt(bs, i);
    EncodeUInt32Injective(ReadUInt32(long, 4 * i).value.value, bs[i]);
  }

  lemma OffsetsFromEntries(data: seq<Byte>, longFormat: bool, bs: seq<nat>)
    requires |bs| > 0 && (if longFormat then 4 else 2) * |bs| <= |data|
    requires forall i :: 0 <= i < |bs| ==> LocaEntry(data, 0, longFormat, i) == bs[i]
    ensures LocaOffsets(data, 0, |bs| - 1, longFormat) == Ok(bs)
  {
    assert LocaOffsets(data, 0, |bs| - 1, longFormat).value == bs;
  }

  lemma ShortLocaDecodes(bs: seq<nat>)
    requires |bs| > 0
    requires forall k :: 0 <= k < |bs| ==> bs[k] < 0x2_0000 && bs[k] % 2 == 0
    ensures LocaOffsets(ShortLoca(bs), 0, |bs| - 1, false) == Ok(bs)
  {
    var short := ShortLoca(bs);
    forall i | 0 <= i < |bs|
      ensures LocaEntry(short, 0, false, i) == bs[i]
    {
      ShortLocaEntry(bs, i);
    }
    OffsetsFromEntries(short, false, bs);
  }

  lemma LongLocaDecodes(bs: seq<nat>)
    requires |bs| > 0
    requires forall k :: 0 <= k < |bs| ==> bs[k] < TwoTo32
    ensures LocaOffsets(LongLoca(bs), 0, |bs| - 1, true) == Ok(bs)
  {
    var long := LongLoca(bs);
    forall i | 0 <= i < |bs|
      ensures LocaEntry(long, 0, true, i) == bs[i]
    {
      LongLocaEntry(bs, i);
    }
    OffsetsFromEntries(long, true, bs);
  }

  /**
   * The two loca formats agree: even boundaries below 2^17 written in the
   * short format and in the long format decode to the same offsets.
   */
  lemma LocaFormatsAgree(bs: seq<nat>)
    requires |bs| > 0
    requires forall k :: 0 <= k < |bs| ==> bs[k] < 0x2_0000 && bs[k] % 2 == 0
    ensures LocaOffsets(ShortLoca(bs), 0, |bs| - 1, false) == LocaOffsets(LongLoca(bs), 0, |bs| - 1, true) == Ok(bs)
  {
    ShortLocaDecodes(bs);
    LongLocaDecodes(bs);
  }
}
