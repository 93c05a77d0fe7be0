/**
 * The `cmap` table as the converter reads it: the encoding records, the
 * platform 3 / encoding 1 subtable (offset 0 when there is none, and its
 * format is never checked), read as a segmented format-4 map, and the
 * character dictionary filled segment by segment.
 *
 * The dictionary is kept as its insertion-ordered list of (UTF-16 code unit,
 * glyph index) entries with distinct keys; insertion of a key already present
 * fails, like Dictionary.Add.
 */
module CharacterMap {
  import opened Wrappers
  import opened BigEndian
  import opened ParseErrors

  type Entry = (int, int)

  predicate KeysDistinct(d: seq<Entry>)
  {
    forall i, j :: 0 <= i < j < |d| ==> d[i].0 != d[j].0
  }

  predicate HasKey(d: seq<Entry>, c: int)
  {
    exists i :: 0 <= i < |d| && d[i].0 == c
  }

  /** Adding a key the map does not hold keeps the keys distinct, as Dictionary.Add does. */
  lemma AddKeepsDistinct(d: seq<Entry>, e: Entry)
    requires KeysDistinct(d) && !HasKey(d, e.0)
    ensures KeysDistinct(d + [e])
  {
    forall i | 0 <= i < |d|
      ensures (d + [e])[i].0 != e.0
    {
      assert d[i].0 != e.0;
    }
  }

  /** The glyph index stored for `c`, if any. */
  function Lookup(d: seq<Entry>, c: int): (r: Option<int>)
    ensures r.Some? <==> HasKey(d, c)
    ensures r.Some? ==> (c, r.value) in d
  {
    if |d| == 0 then None
    else if d[0].0 == c then Some(d[0].1)
    else
      var r := Lookup(d[1..], c);
      assert HasKey(d, c) ==> HasKey(d[1..], c) by {
        if HasKey(d, c) {
          var i :| 0 <= i < |d| && d[i].0 == c;
          assert d[1..][i - 1].0 == c;
        }
      }
      r
  }

  /** With distinct keys, an entry is what Lookup finds for its key. */
  lemma {:induction false} LookupFindsEntry(d: seq<Entry>, c: int, g: int)
    requires KeysDistinct(d) && (c, g) in d
    ensures Lookup(d, c) == Some(g)
  {
    if d[0] != (c, g) {
      assert d[0].0 != c by {
        var i :| 0 <= i < |d| && d[i] == (c, g);
      }
      assert (c, g) in d[1..];
      LookupFindsEntry(d[1..], c, g);
    }
  }

  datatype EncodingRecord = EncodingRecord(platformId: int, encodingId: int, offset: int)

  datatype Segment = Segment(endCode: int, startCode: int, idDelta: int, idRangeOffset: int)

  predicate IsUnicodeBmp(t: EncodingRecord)
  {
    t.platformId == 3 && t.encodingId == 1
  }

  /**
   * The glyph for character c of segment i: idDelta + c when idRangeOffset
   * is 0, else idDelta + the word at idRangeOffset + 2(c - startCode) + the
   * start of the idRangeOffset array + 2i. Neither sum is reduced mod 65536.
   */
  function GlyphIdFor(data: seq<Byte>, seg: Segment, i: nat, arrayOffset: nat, c: int): (r: Option<int>)
    requires seg.idRangeOffset >= 0 && seg.startCode <= c
    ensures seg.idRangeOffset == 0 ==> r == Some(seg.idDelta + c)
    ensures seg.idRangeOffset != 0 ==>
      var at := seg.idRangeOffset + 2 * (c - seg.startCode) + arrayOffset + 2 * i;
      (r.Some? <==> at + 2 <= |data|)
      && (r.Some? ==> r.value == seg.idDelta + ReadUInt16(data, at).value.value)
  {
    if seg.idRangeOffset == 0 then Some(seg.idDelta + c)
    else
      match ReadUInt16(data, seg.idRangeOffset + 2 * (c - seg.startCode) + arrayOffset + 2 * i)
      case None => None
      case Some(Read(g, _)) => Some(seg.idDelta + g)
  }

  /** One insertion per character of segment i from c to endCode (None: the read failed). */
  function SegmentSteps(data: seq<Byte>, seg: Segment, i: nat, arrayOffset: nat, c: int): seq<(int, Option<int>)>
    requires seg.idRangeOffset >= 0 && seg.startCode <= c
    decreases seg.endCode - c + 1
  {
    if c > seg.endCode then []
    else [(c, GlyphIdFor(data, seg, i, arrayOffset, c))] + SegmentSteps(data, seg, i, arrayOffset, c + 1)
  }

  predicate RangeOffsetsValid(segs: seq<Segment>)
  {
    forall k :: 0 <= k < |segs| ==> segs[k].idRangeOffset >= 0
  }

  /** The insertions of segments i, i+1, ... up to but excluding the last segment. */
  function Steps(data: seq<Byte>, segs: seq<Segment>, arrayOffset: nat, i: nat): seq<(int, Option<int>)>
    requires RangeOffsetsValid(segs)
    decreases |segs| - i
  {
    if i + 1 >= |segs| then []
    else SegmentSteps(data, segs[i], i, arrayOffset, segs[i].startCode) + Steps(data, segs, arrayOffset, i + 1)
  }

  /**
   * Dictionary.Add for each insertion in order: a failed read is an
   * end-of-stream error, a key already present a duplicate-key error.
   */
  function Fill(steps: seq<(int, Option<int>)>, dict: seq<Entry>): Result<seq<Entry>, ParseError>
  {
    if |steps| == 0 then Ok(dict)
    else
      var (c, g) := steps[0];
      if g.None? then Err(EndOfStream)
      else if HasKey(dict, c) then Err(DuplicateKey(c))
      else Fill(steps[1..], dict + [(c, g.value)])
  }

  /**
   * A successful fill keeps the earlier entries, adds one entry per
   * insertion, holding the insertion's glyph, and leaves the keys distinct.
   */
  lemma {:induction false} FillAddsAll(steps: seq<(int, Option<int>)>, dict: seq<Entry>)
    requires KeysDistinct(dict) && Fill(steps, dict).Ok?
    ensures var r := Fill(steps, dict).value;
      KeysDistinct(r) && dict <= r && |r| == |dict| + |steps|
      && forall k :: 0 <= k < |steps| ==> steps[k].1.Some? && r[|dict| + k] == (steps[k].0, steps[k].1.value)
  {
    if |steps| > 0 {
      var (c, g) := steps[0];
      var dict' := dict + [(c, g.value)];
      assert KeysDistinct(dict') by {
        forall i | 0 <= i < |dict| ensures dict'[i].0 != c {
          assert !HasKey(dict, c);
        }
      }
      FillAddsAll(steps[1..], dict');
      var r := Fill(steps, dict).value;
      forall k | 0 <= k < |steps|
        ensures steps[k].1.Some? && r[|dict| + k] == (steps[k].0, steps[k].1.value)
      {
        if k > 0 {
          assert steps[k] == steps[1..][k - 1];
        } else {
          assert r[|dict|] == dict'[|dict|];
        }
      }
    }
  }

  /** A character inserted twice makes the whole fill fail. */
  lemma DuplicateFails(steps: seq<(int, Option<int>)>, a: nat, b: nat)
    requires a < b < |steps| && steps[a].0 == steps[b].0
    ensures Fill(steps, []).Err?
  {
    if Fill(steps, []).Ok? {
      FillAddsAll(steps, []);
    }
  }

  lemma {:induction false} SegmentStepsHold(data: seq<Byte>, seg: Segment, i: nat, arrayOffset: nat, from: int, c: int)
    requires seg.idRangeOffset >= 0 && seg.startCode <= from <= c <= seg.endCode
    ensures (c, GlyphIdFor(data, seg, i, arrayOffset, c)) in SegmentSteps(data, seg, i, arrayOffset, from)
    decreases c - from
  {
    if from < c {
      SegmentStepsHold(data, seg, i, arrayOffset, from + 1, c);
    }
  }

  /** Every character of every segment but the last has its insertion. */
  lemma {:induction false} StepsHold(data: seq<Byte>, segs: seq<Segment>, arrayOffset: nat, from: nat, k: nat, c: int)
    requires RangeOffsetsValid(segs) && from <= k && k + 1 < |segs|
    requires segs[k].startCode <= c <= segs[k].endCode
    ensures (c, GlyphIdFor(data, segs[k], k, arrayOffset, c)) in Steps(data, segs, arrayOffset, from)
    decreases k - from
  {
    if from < k {
      StepsHold(data, segs, arrayOffset, from + 1, k, c);
    } else {
      SegmentStepsHold(data, segs[k], k, arrayOffset, segs[k].startCode, c);
    }
  }

  /**
   * After a successful fill, a character c in segment k (not the last) maps
   * to idDelta + c on the direct branch and to idDelta + the glyph-array word
   * on the indirect one.
   */
  lemma SegmentMapping(data: seq<Byte>, segs: seq<Segment>, arrayOffset: nat, k: nat, c: int)
    requires RangeOffsetsValid(segs) && k + 1 < |segs|
    requires segs[k].startCode <= c <= segs[k].endCode
    requires Fill(Steps(data, segs, arrayOffset, 0), []).Ok?
    ensures var g := GlyphIdFor(data, segs[k], k, arrayOffset, c);
      g.Some? && Lookup(Fill(Steps(data, segs, arrayOffset, 0), []).value, c) == g
  {
    var steps := Steps(data, segs, arrayOffset, 0);
    StepsHold(data, segs, arrayOffset, 0, k, c);
    FillAddsAll(steps, []);
    var r := Fill(steps, []).value;
    var g := GlyphIdFor(data, segs[k], k, arrayOffset, c);
    var n :| 0 <= n < |steps| && steps[n] == (c, g);
    assert r[n] == (c, g.value);
    LookupFindsEntry(r, c, g.value);
  }

  // ---- the table ----

  function RecordAt(data: seq<Byte>, p: nat): EncodingRecord
    requires p + 8 <= |data|
  {
    EncodingRecord(WordAt(data, p, false), WordAt(data, p + 2, false), ReadUInt32(data, p + 4).value.value)
  }

  /** The encoding records: a word count at +2, then 8-byte records from +4. */
  function EncodingRecords(data: seq<Byte>, tableOffset: nat): Result<seq<EncodingRecord>, ParseError>
  {
    var count :- Need(ReadUInt16(data, tableOffset + 2));
    if count.value == 0 || tableOffset + 4 + 8 * count.value <= |data| then
      Ok(RecordsAt(data, tableOffset + 4, count.value))
    else Err(EndOfStream)
  }

  function RecordsAt(data: seq<Byte>, pos: nat, count: nat): (rs: seq<EncodingRecord>)
    requires count == 0 || pos + 8 * count <= |data|
    ensures |rs| == count
    ensures forall k :: 0 <= k < count ==> rs[k] == RecordAt(data, pos + 8 * k)
  {
    seq(count, k requires 0 <= k < count => RecordAt(data, pos + 8 * k))
  }

  /**
   * The offset of the first platform 3 / encoding 1 record; 0 (the offset of
   * the default record List.Find returns) when there is none.
   */
  function SubtableOffset(records: seq<EncodingRecord>): (off: nat)
    ensures (forall k :: 0 <= k < |records| ==> !IsUnicodeBmp(records[k])) ==> off == 0
    ensures forall k :: (0 <= k < |records| && IsUnicodeBmp(records[k]) && records[k].offset >= 0
                         && forall j :: 0 <= j < k ==> !IsUnicodeBmp(records[j])) ==> off == records[k].offset
  {
    if |records| == 0 then 0
    else if IsUnicodeBmp(records[0]) then (if records[0].offset >= 0 then records[0].offset else 0)
    else
      var off := SubtableOffset(records[1..]);
      assert forall k :: 1 <= k < |records| ==> records[k] == records[1..][k - 1];
      off
  }

  /**
   * The format-4 header at tableOffset + subtable offset: segCountX2 at +6
   * (halved), then the endCode, startCode, idDelta and idRangeOffset arrays
   * at +14, +16 + 2n, +16 + 4n, +16 + 6n. Also gives the position of the
   * idRangeOffset array, from which the indirect branch counts.
   */
  function Segments(data: seq<Byte>, base: nat): (r: Result<(seq<Segment>, nat), ParseError>)
    ensures r.Ok? ==> RangeOffsetsValid(r.value.0) && r.value.1 == base + 16 + 6 * |r.value.0|
    ensures r.Err? ==> r.error == EndOfStream
  {
    var length :- Need(ReadUInt16(data, base + 2));
    var segCountX2 :- Need(ReadUInt16(data, base + 6));
    SegmentTable(data, base, segCountX2.value / 2)
  }

  /** The four arrays of n segments and the offset just past them, when the data holds them. */
  function SegmentTable(data: seq<Byte>, base: nat, n: nat): (r: Result<(seq<Segment>, nat), ParseError>)
    ensures r.Ok? <==> n == 0 || base + 16 + 8 * n <= |data|
    ensures r.Err? ==> r.error == EndOfStream
    ensures r.Ok? ==> RangeOffsetsValid(r.value.0) && r.value.1 == base + 16 + 6 * |r.value.0|
  {
    if n == 0 || base + 16 + 8 * n <= |data| then
      Ok((SegmentArrays(data, base, n), base + 16 + 6 * n))
    else Err(EndOfStream)
  }

  /**
   * segs are the n segments whose endCode, startCode, idDelta and
   * idRangeOffset arrays start at base + 14, + 16 + 2n, + 16 + 4n and
   * + 16 + 6n; idDelta is read signed, the others unsigned.
   */
  predicate LaidOut(data: seq<Byte>, base: nat, n: nat, segs: seq<Segment>)
    requires n == 0 || base + 16 + 8 * n <= |data|
  {
    |segs| == n
    && forall k :: 0 <= k < n ==>
      segs[k] == Segment(WordAt(data, base + 14 + 2 * k, false), WordAt(data, base + 16 + 2 * n + 2 * k, false),
                         WordAt(data, base + 16 + 4 * n + 2 * k, true), WordAt(data, base + 16 + 6 * n + 2 * k, false))
  }

  /** The n segments whose four arrays start at +14, +16 + 2n, +16 + 4n and +16 + 6n. */
  function SegmentArrays(data: seq<Byte>, base: nat, n: nat): (segs: seq<Segment>)
    requires n == 0 || base + 16 + 8 * n <= |data|
    ensures |segs| == n && RangeOffsetsValid(segs)
  {
    var endCode := Words(data, base + 14, n, false);
    var startCode := Words(data, base + 16 + 2 * n, n, false);
    var idDelta := Words(data, base + 16 + 4 * n, n, true);
    var idRangeOffset := Words(data, base + 16 + 6 * n, n, false);
    SegmentsOf(endCode, startCode, idDelta, idRangeOffset)
  }

  function SegmentsOf(endCode: seq<int>, startCode: seq<int>, idDelta: seq<int>, idRangeOffset: seq<int>)
    : (segs: seq<Segment>)
    requires |startCode| == |idDelta| == |idRangeOffset| == |endCode|
    requires forall k :: 0 <= k < |idRangeOffset| ==> idRangeOffset[k] >= 0
    ensures |segs| == |endCode| && RangeOffsetsValid(segs)
  {
    seq(|endCode|, k requires 0 <= k < |endCode| => Segment(endCode[k], startCode[k], idDelta[k], idRangeOffset[k]))
  }

  /** The segments SegmentTable reads sit where LaidOut says. */
  lemma SegmentTableLaidOut(data: seq<Byte>, base: nat, n: nat)
    requires SegmentTable(data, base, n).Ok?
    ensures n == 0 || base + 16 + 8 * n <= |data|
    ensures LaidOut(data, base, n, SegmentTable(data, base, n).value.0)
  {
    var segs := SegmentArrays(data, base, n);
    forall k | 0 <= k < n
      ensures segs[k] == Segment(WordAt(data, base + 14 + 2 * k, false), WordAt(data, base + 16 + 2 * n + 2 * k, false),
                                 WordAt(data, base + 16 + 4 * n + 2 * k, true), WordAt(data, base + 16 + 6 * n + 2 * k, false))
    {
      var endCode := Words(data, base + 14, n, false);
      var startCode := Words(data, base + 16 + 2 * n, n, false);
      var idDelta := Words(data, base + 16 + 4 * n, n, true);
      var idRangeOffset := Words(data, base + 16 + 6 * n, n, false);
      assert segs == SegmentsOf(endCode, startCode, idDelta, idRangeOffset);
    }
  }

  /**
   * A format-4 header that reads: segCountX2 is the word at +6, and the
   * segCountX2 / 2 segments sit where LaidOut says.
   */
  lemma SegmentsLaidOut(data: seq<Byte>, base: nat)
    requires Segments(data, base).Ok?
    ensures ReadUInt16(data, base + 2).Some? && ReadUInt16(data, base + 6).Some?
    ensures var n := ReadUInt16(data, base + 6).value.value / 2;
      (n == 0 || base + 16 + 8 * n <= |data|) && LaidOut(data, base, n, Segments(data, base).value.0)
  {
    SegmentTableLaidOut(data, base, ReadUInt16(data, base + 6).value.value / 2);
  }

  /** The whole table: records, subtable, segments, and the filled dictionary. */
  function DecodeCmap(data: seq<Byte>, tableOffset: nat): (r: Result<seq<Entry>, ParseError>)
    ensures r.Ok? ==> KeysDistinct(r.value)
  {
    DecodeAfterRecords(data, tableOffset, EncodingRecords(data, tableOffset))
  }

  /** The subtable the encoding records point at, or the error reading them. */
  function DecodeAfterRecords(data: seq<Byte>, tableOffset: nat, records: Result<seq<EncodingRecord>, ParseError>)
    : Result<seq<Entry>, ParseError>
  {
    match records
    case Err(e) => Err(e)
    case Ok(rs) => DecodeSubtable(data, tableOffset + SubtableOffset(rs))
  }

  /** The subtable at `base`: its segments, then the dictionary filled from them. */
  function DecodeSubtable(data: seq<Byte>, base: nat): (r: Result<seq<Entry>, ParseError>)
    ensures r.Ok? ==> KeysDistinct(r.value)
  {
    match Segments(data, base)
    case Err(e) => Err(e)
    case Ok((segs, arrayOffset)) => FillSegments(data, segs, arrayOffset)
  }

  /** The dictionary filled from every segment but the last. */
  function FillSegments(data: seq<Byte>, segs: seq<Segment>, arrayOffset: nat): (r: Result<seq<Entry>, ParseError>)
    requires RangeOffsetsValid(segs)
    ensures r.Ok? ==> KeysDistinct(r.value)
  {
    var steps := Steps(data, segs, arrayOffset, 0);
    var r := Fill(steps, []);
    if r.Ok? then FillAddsAll(steps, []); r else r
  }

  /** The example of a direct segment: 65..90 with idDelta -64 maps 'A' to 1 and 'Z' to 26. */
  lemma UppercaseSegment(data: seq<Byte>, segs: seq<Segment>, arrayOffset: nat)
    requires RangeOffsetsValid(segs) && |segs| >= 2 && segs[0] == Segment(90, 65, -64, 0)
    requires Fill(Steps(data, segs, arrayOffset, 0), []).Ok?
    ensures Lookup(Fill(Steps(data, segs, arrayOffset, 0), []).value, 'A' as int) == Some(1)
    ensures Lookup(Fill(Steps(data, segs, arrayOffset, 0), []).value, 'Z' as int) == Some(26)
  {
    SegmentMapping(data, segs, arrayOffset, 0, 65);
    SegmentMapping(data, segs, arrayOffset, 0, 90);
  }

  // ---- the reader's loops ----

  method ReadEncodingRecords(data: seq<Byte>, tableOffset: nat) returns (r: Result<seq<EncodingRecord>, ParseError>)
    ensures r == EncodingRecords(data, tableOffset)
  {
    var countRead := ReadUInt16(data, tableOffset + 2);
    if countRead.None? {
      return Err(EndOfStream);
    }
    var count := countRead.value.value;
    var p := countRead.value.next;
    var tables: seq<EncodingRecord> := [];
    for i := 0 to count
      invariant p == tableOffset + 4 + 8 * i && (i > 0 ==> p <= |data|)
      invariant |tables| == i
      invariant forall k :: 0 <= k < i ==> tables[k] == RecordAt(data, tableOffset + 4 + 8 * k)
    {
      var platformId := ReadUInt16(data, p);
      if platformId.None? { return Err(EndOfStream); }
      var encodingId := ReadUInt16(data, p + 2);
      if encodingId.None? { return Err(EndOfStream); }
      var offset := ReadUInt32(data, p + 4);
      if offset.None? { return Err(EndOfStream); }
      tables := tables + [EncodingRecord(platformId.value.value, encodingId.value.value, offset.value.value)];
      p := p + 8;
    }
    assert count == 0 || tableOffset + 4 + 8 * count <= |data|;
    assert tables == RecordsAt(data, tableOffset + 4, count);
    return Ok(tables);
  }

  /** Filling from a concatenation is filling from the first part, then from the second. */
  lemma {:induction false} FillAppend(a: seq<(int, Option<int>)>, b: seq<(int, Option<int>)>, dict: seq<Entry>)
    ensures Fill(a + b, dict) == match Fill(a, dict) case Err(e) => Err(e) case Ok(d) => Fill(b, d)
  {
    if |a| > 0 {
      assert (a + b)[0] == a[0] && (a + b)[1..] == a[1..] + b;
      var (c, g) := a[0];
      if g.Some? && !HasKey(dict, c) {
        FillAppend(a[1..], b, dict + [(c, g.value)]);
      }
    } else {
      assert a + b == b;
    }
  }

  /** The inner loop: each character of one segment, in order. */
  method FillSegment(data: seq<Byte>, seg: Segment, i: nat, arrayOffset: nat, dict: seq<Entry>)
    returns (r: Result<seq<Entry>, ParseError>)
    requires seg.idRangeOffset >= 0
    ensures r == Fill(SegmentSteps(data, seg, i, arrayOffset, seg.startCode), dict)
  {
    var d := dict;
    var c := seg.startCode;
    while c <= seg.endCode
      invariant seg.startCode <= c
      invariant Fill(SegmentSteps(data, seg, i, arrayOffset, seg.startCode), dict)
             == Fill(SegmentSteps(data, seg, i, arrayOffset, c), d)
      decreases seg.endCode - c
    {
      var glyph: Option<int>;
      if seg.idRangeOffset == 0 {
        glyph := Some(seg.idDelta + c);
      } else {
        var g := ReadUInt16(data, seg.idRangeOffset + 2 * (c - seg.startCode) + arrayOffset + i * 2);
        glyph := if g.None? then None else Some(seg.idDelta + g.value.value);
      }
      assert SegmentSteps(data, seg, i, arrayOffset, c)[0] == (c, glyph);
      if glyph.None? {
        return Err(EndOfStream);
      }
      if HasKey(d, c) {
        return Err(DuplicateKey(c));
      }
      d := d + [(c, glyph.value)];
      c := c + 1;
    }
    return Ok(d);
  }

  /** The outer loop: every segment but the last. */
  method FillDictionary(data: seq<Byte>, segs: seq<Segment>, arrayOffset: nat) returns (r: Result<seq<Entry>, ParseError>)
    requires RangeOffsetsValid(segs)
    ensures r == FillSegments(data, segs, arrayOffset)
  {
    var dict: seq<Entry> := [];
    var i := 0;
    while i < |segs| - 1
      invariant 0 <= i <= |segs| || (|segs| == 0 && i == 0)
      invariant Fill(Steps(data, segs, arrayOffset, 0), []) == Fill(Steps(data, segs, arrayOffset, i), dict)
    {
      FillAppend(SegmentSteps(data, segs[i], i, arrayOffset, segs[i].startCode), Steps(data, segs, arrayOffset, i + 1), dict);
      var added := FillSegment(data, segs[i], i, arrayOffset, dict);
      if added.Err? {
        return Err(added.error);
      }
      dict := added.value;
      i := i + 1;
    }
    return Ok(dict);
  }

  /** The four array loops of the format-4 header. */
  method ReadSegmentArrays(data: seq<Byte>, base: nat, n: nat) returns (r: Option<seq<Segment>>)
    ensures r.Some? <==> n == 0 || base + 16 + 8 * n <= |data|
    ensures r.Some? ==> r.value == SegmentArrays(data, base, n)
  {
    var endCode := ReadWords(data, base + 14, n, false);
    if endCode.None? {
      return None;
    }
    var startCode := ReadWords(data, base + 16 + 2 * n, n, false);
    if startCode.None? {
      return None;
    }
    var idDelta := ReadWords(data, base + 16 + 4 * n, n, true);
    if idDelta.None? {
      return None;
    }
    var idRangeOffset := ReadWords(data, base + 16 + 6 * n, n, false);
    if idRangeOffset.None? {
      return None;
    }
    return Some(SegmentsOf(endCode.value.value, startCode.value.value, idDelta.value.value, idRangeOffset.value.value));
  }

  /** The format-4 header: its segment count, then its arrays. */
  method ReadSegments(data: seq<Byte>, base: nat) returns (r: Result<(seq<Segment>, nat), ParseError>)
    ensures r == Segments(data, base)
  {
    var length := ReadUInt16(data, base + 2);
    if length.None? {
      return Err(EndOfStream);
    }
    var segCountX2 := ReadUInt16(data, base + 6);
    if segCountX2.None? {
      return Err(EndOfStream);
    }
    r := ReadSegmentTable(data, base, segCountX2.value.value / 2);
  }

  method ReadSegmentTable(data: seq<Byte>, base: nat, segCount: nat) returns (r: Result<(seq<Segment>, nat), ParseError>)
    ensures r == SegmentTable(data, base, segCount)
  {
    var segs := ReadSegmentArrays(data, base, segCount);
    if segs.None? {
      return Err(EndOfStream);
    }
    return Ok((segs.value, base + 16 + 6 * segCount));
  }

  method ReadSubtable(data: seq<Byte>, base: nat) returns (r: Result<seq<Entry>, ParseError>)
    ensures r == DecodeSubtable(data, base)
  {
    var header := ReadSegments(data, base);
    if header.Err? {
      return Err(header.error);
    }
    r := FillDictionary(data, header.value.0, header.value.1);
  }

  method ParseCmapTable(data: seq<Byte>, tableOffset: nat) returns (r: Result<seq<Entry>, ParseError>)
    ensures r == DecodeCmap(data, tableOffset)
  {
    var records := ReadEncodingRecords(data, tableOffset);
    if records.Err? {
      return Err(records.error);
    }
    r := ReadSubtable(data, tableOffset + SubtableOffset(records.value));
  }
}
