/**
 * One `glyf` table entry: the header (contour count and bounding box), then
 * either a simple outline (end points, instructions, run-length flags,
 * delta-coded x and y) or a list of compound components.
 *
 * Decoding is given twice: as specification functions, and as methods that
 * follow the reader's loops (the flag array with its repeat counter, the
 * running previous coordinate, the contour counter, the `moreComponents`
 * loop) and are proved to compute the same result.
 */
module Glyphs {
  import opened Wrappers
  import opened BigEndian
  import opened FixedPoint
  import opened ControlPoints
  import opened ParseErrors

  // Point flag bits.
  const OnCurve := 0x01
  const XShortVector := 0x02
  const YShortVector := 0x04
  const Repeat := 0x08
  const XIsSame := 0x10   // also XIsPositive
  const YIsSame := 0x20   // also YIsPositive

  // Component flag bits.
  const ArgsAreWords := 0x0001
  const ArgsAreXYValues := 0x0002
  const IsScaled := 0x0008
  const MoreComponents := 0x0020
  const DifferentXYScale := 0x0040
  const TwoByTwoScale := 0x0080
  const UseMetrics := 0x0200

  /** HasFlag for a one-bit flag, on the 16-bit pattern of `v` (so also for a negative short). */
  predicate HasFlag(v: int, bit: nat)
    requires bit > 0
  {
    ((v % 0x1_0000) / bit) % 2 == 1
  }

  /** Transform holds [a, b, c, d, m, n]. */
  datatype GlyphComponent = GlyphComponent(
    glyphIndex: int,
    useMetrics: bool,
    arg1: int,
    arg2: int,
    argsAreXYValues: bool,
    transform: seq<real>)

  /**
   * The outline: the contours of a simple glyph (None for a contour that no
   * point was assigned to, which the source leaves null), or the components of
   * a compound one.
   */
  datatype Outline =
    | Simple(contours: seq<Option<seq<ControlPoint>>>)
    | Compound(components: seq<GlyphComponent>)

  datatype Glyph = Glyph(xMin: int, yMin: int, xMax: int, yMax: int, outline: Outline)
  {
    predicate IsCompound() { outline.Compound? }
  }

  /** Glyph.Empty: not compound, no contours, a zero bounding box. */
  function Empty(): (g: Glyph)
    ensures !g.IsCompound() && g.outline.contours == []
    ensures g.xMin == g.yMin == g.xMax == g.yMax == 0
  {
    Glyph(0, 0, 0, 0, Simple([]))
  }

  // ---- flags ----

  /**
   * The flag loop, continued from the flags filled so far: each flag byte is
   * stored, and one with Repeat is stored the number of further times given by
   * the next byte. A repeat reaching past the array is an index error.
   */
  function DecodeFlags(data: seq<Byte>, pos: nat, pointCount: nat, flags: seq<int>)
    : (r: Result<Read<seq<int>>, ParseError>)
    requires |flags| <= pointCount
    ensures r.Ok? ==> |r.value.value| == pointCount && flags <= r.value.value
    ensures r.Err? ==> r.error == EndOfStream || r.error == IndexOutOfRange
    ensures r.Ok? && |flags| < pointCount ==>
      pos < |data| && r.value.value[|flags|] == data[pos]
      && (HasFlag(data[pos], Repeat) ==>
            pos + 1 < |data| && |flags| + 1 + data[pos + 1] <= pointCount
            && forall k :: |flags| < k <= |flags| + data[pos + 1] ==> r.value.value[k] == data[pos])
    decreases pointCount - |flags|
  {
    if |flags| == pointCount then Ok(Read(flags, pos))
    else
      match ReadByte(data, pos)
      case None => Err(EndOfStream)
      case Some(Read(f, p)) =>
        if !HasFlag(f, Repeat) then DecodeFlags(data, p, pointCount, flags + [f])
        else
          match ReadByte(data, p)
          case None => Err(EndOfStream)
          case Some(Read(n, p')) =>
            if |flags| + 1 + n > pointCount then Err(IndexOutOfRange)
            else DecodeFlags(data, p', pointCount, flags + [f] + seq(n, _ => f))
  }

  method ReadFlags(data: seq<Byte>, pos: nat, pointCount: nat) returns (r: Result<Read<seq<int>>, ParseError>)
    ensures r == DecodeFlags(data, pos, pointCount, [])
  {
    var flags := new int[pointCount];
    var flagCount := 0;
    var p := pos;
    while flagCount < pointCount
      invariant 0 <= flagCount <= pointCount
      invariant DecodeFlags(data, pos, pointCount, []) == DecodeFlags(data, p, pointCount, flags[..flagCount])
    {
      ghost var before, pBefore := flags[..flagCount], p;
      var current := ReadByte(data, p);
      if current.None? {
        return Err(EndOfStream);
      }
      var f := current.value.value;
      p := current.value.next;
      flags[flagCount] := f;
      flagCount := flagCount + 1;
      assert flags[..flagCount] == before + [f];
      if HasFlag(f, Repeat) {
        var count := ReadByte(data, p);
        if count.None? {
          return Err(EndOfStream);
        }
        p := count.value.next;
        var newCount := flagCount + count.value.value;
        ghost var start, prefix := flagCount, flags[..flagCount];
        while flagCount < newCount
          invariant start <= flagCount <= newCount && flagCount <= pointCount
          invariant flags[..flagCount] == prefix + seq(flagCount - start, _ => f)
        {
          if flagCount >= pointCount {
            return Err(IndexOutOfRange);
          }
          flags[flagCount] := f;
          flagCount := flagCount + 1;
          assert flags[..flagCount] == prefix + seq(flagCount - start, _ => f);
        }
      }
    }
    assert flags[..flagCount] == flags[..];
    return Ok(Read(flags[..], p));
  }

  // ---- coordinates ----

  /** The bytes one coordinate takes: a byte if short, none if "same", else a word. */
  function CoordSize(f: int, shortBit: nat, sameBit: nat): nat
    requires shortBit > 0 && sameBit > 0
  {
    if HasFlag(f, shortBit) then 1 else if HasFlag(f, sameBit) then 0 else 2
  }

  function SizeSum(flags: seq<int>, shortBit: nat, sameBit: nat): nat
    requires shortBit > 0 && sameBit > 0
  {
    if |flags| == 0 then 0 else CoordSize(flags[0], shortBit, sameBit) + SizeSum(flags[1..], shortBit, sameBit)
  }

  /** The step from the previous coordinate that a flag allows. */
  predicate StepAllowed(f: int, shortBit: nat, sameBit: nat, delta: int)
    requires shortBit > 0 && sameBit > 0
  {
    if HasFlag(f, shortBit) then
      (if HasFlag(f, sameBit) then 0 <= delta < 0x100 else -0x100 < delta <= 0)
    else if HasFlag(f, sameBit) then delta == 0
    else -0x8000 <= delta < 0x8000
  }

  /**
   * One coordinate: with the short bit an unsigned byte, negated unless the
   * same/positive bit is set; otherwise with the same bit the previous value;
   * otherwise a signed word; byte and word are added to the previous value.
   */
  function CoordStep(data: seq<Byte>, pos: nat, f: int, shortBit: nat, sameBit: nat, prev: int)
    : (r: Option<Read<int>>)
    requires shortBit > 0 && sameBit > 0
    ensures r.Some? ==> r.value.next == pos + CoordSize(f, shortBit, sameBit)
                        && StepAllowed(f, shortBit, sameBit, r.value.value - prev)
    ensures r.None? <==> CoordSize(f, shortBit, sameBit) > 0 && pos + CoordSize(f, shortBit, sameBit) > |data|
    ensures r.Some? && HasFlag(f, shortBit) ==>
              (if HasFlag(f, sameBit) then r.value.value - prev else prev - r.value.value) == data[pos]
    ensures r.Some? && !HasFlag(f, shortBit) && HasFlag(f, sameBit) ==> r.value.value == prev
    ensures r.Some? && !HasFlag(f, shortBit) && !HasFlag(f, sameBit) ==>
              EncodeInt16(r.value.value - prev) == data[pos..pos + 2]
  {
    if HasFlag(f, shortBit) then
      match ReadByte(data, pos)
      case None => None
      case Some(Read(b, p)) => Some(Read((if HasFlag(f, sameBit) then b else -b) + prev, p))
    else if HasFlag(f, sameBit) then Some(Read(prev, pos))
    else
      match ReadInt16(data, pos)
      case None => None
      case Some(Read(d, p)) => Some(Read(d + prev, p))
  }

  /** The running previous coordinate: 0 before the first point, never reset. */
  function Previous(coords: seq<int>): int
  {
    if |coords| == 0 then 0 else coords[|coords| - 1]
  }

  /** One coordinate per flag, continued from the coordinates decoded so far. */
  function DecodeCoords(data: seq<Byte>, pos: nat, flags: seq<int>, shortBit: nat, sameBit: nat, coords: seq<int>)
    : (r: Result<Read<seq<int>>, ParseError>)
    requires shortBit > 0 && sameBit > 0 && |coords| <= |flags|
    ensures r.Ok? ==> |r.value.value| == |flags| && coords <= r.value.value
    decreases |flags| - |coords|
  {
    if |coords| == |flags| then Ok(Read(coords, pos))
    else
      match CoordStep(data, pos, flags[|coords|], shortBit, sameBit, Previous(coords))
      case None => Err(EndOfStream)
      case Some(Read(c, p)) => DecodeCoords(data, p, flags, shortBit, sameBit, coords + [c])
  }

  /**
   * Every decoded coordinate differs from the one before it (across contour
   * boundaries: the previous value is never reset) by a step its flag allows.
   */
  lemma {:induction false} CoordSteps(data: seq<Byte>, pos: nat, flags: seq<int>, shortBit: nat, sameBit: nat, coords: seq<int>)
    requires shortBit > 0 && sameBit > 0 && |coords| <= |flags|
    requires DecodeCoords(data, pos, flags, shortBit, sameBit, coords).Ok?
    ensures var r := DecodeCoords(data, pos, flags, shortBit, sameBit, coords).value;
      forall i :: |coords| <= i < |flags| ==>
        StepAllowed(flags[i], shortBit, sameBit, r.value[i] - Previous(r.value[..i]))
    decreases |flags| - |coords|
  {
    if |coords| < |flags| {
      var step := CoordStep(data, pos, flags[|coords|], shortBit, sameBit, Previous(coords));
      CoordSteps(data, step.value.next, flags, shortBit, sameBit, coords + [step.value.value]);
      FirstCoordStep(data, pos, flags, shortBit, sameBit, coords);
    }
  }

  /** The next coordinate decoded differs from the last one by a step its flag allows. */
  lemma FirstCoordStep(data: seq<Byte>, pos: nat, flags: seq<int>, shortBit: nat, sameBit: nat, coords: seq<int>)
    requires shortBit > 0 && sameBit > 0 && |coords| < |flags|
    requires DecodeCoords(data, pos, flags, shortBit, sameBit, coords).Ok?
    ensures var r := DecodeCoords(data, pos, flags, shortBit, sameBit, coords).value;
      var i := |coords|;
      StepAllowed(flags[i], shortBit, sameBit, r.value[i] - Previous(r.value[..i]))
  {
    var step := CoordStep(data, pos, flags[|coords|], shortBit, sameBit, Previous(coords));
    var coords' := coords + [step.value.value];
    var r := DecodeCoords(data, pos, flags, shortBit, sameBit, coords).value;
    assert r == DecodeCoords(data, step.value.next, flags, shortBit, sameBit, coords').value;
    assert r.value[..|coords|] == coords && r.value[|coords|] == step.value.value by {
      assert coords' <= r.value;
    }
  }

  /** The coordinates take exactly the bytes their flags say. */
  lemma {:induction false} CoordBytes(data: seq<Byte>, pos: nat, flags: seq<int>, shortBit: nat, sameBit: nat, coords: seq<int>)
    requires shortBit > 0 && sameBit > 0 && |coords| <= |flags|
    requires DecodeCoords(data, pos, flags, shortBit, sameBit, coords).Ok?
    ensures DecodeCoords(data, pos, flags, shortBit, sameBit, coords).value.next
         == pos + SizeSum(flags[|coords|..], shortBit, sameBit)
    decreases |flags| - |coords|
  {
    if |coords| < |flags| {
      var step := CoordStep(data, pos, flags[|coords|], shortBit, sameBit, Previous(coords));
      var c, p := step.value.value, step.value.next;
      CoordBytes(data, p, flags, shortBit, sameBit, coords + [c]);
      assert flags[|coords|..] == [flags[|coords|]] + flags[|coords| + 1..];
    }
  }

  method ReadCoords(data: seq<Byte>, pos: nat, flags: seq<int>, shortBit: nat, sameBit: nat)
    returns (r: Result<Read<seq<int>>, ParseError>)
    requires shortBit > 0 && sameBit > 0
    ensures r == DecodeCoords(data, pos, flags, shortBit, sameBit, [])
  {
    var coords: seq<int> := [];
    var previous := 0;
    var p := pos;
    for i := 0 to |flags|
      invariant |coords| == i && previous == Previous(coords)
      invariant DecodeCoords(data, pos, flags, shortBit, sameBit, []) == DecodeCoords(data, p, flags, shortBit, sameBit, coords)
    {
      var step := CoordStep(data, p, flags[i], shortBit, sameBit, previous);
      if step.None? {
        return Err(EndOfStream);
      }
      coords := coords + [step.value.value];
      previous := step.value.value;
      p := step.value.next;
    }
    return Ok(Read(coords, p));
  }

  // ---- contour partition ----

  /** The contour counter before point i: bumped after every point listed as an end point. */
  function ContourIndex(ends: seq<int>, i: nat): nat
  {
    if i == 0 then 0 else ContourIndex(ends, i - 1) + (if i - 1 in ends then 1 else 0)
  }

  function EndsBelow(ends: seq<int>, i: nat): set<int>
  {
    set j | 0 <= j < i && j in ends
  }

  lemma {:induction false} ContourIndexCounts(ends: seq<int>, i: nat)
    ensures ContourIndex(ends, i) == |EndsBelow(ends, i)|
  {
    if i > 0 {
      ContourIndexCounts(ends, i - 1);
      if i - 1 in ends {
        assert i - 1 !in EndsBelow(ends, i - 1);
        assert EndsBelow(ends, i) == EndsBelow(ends, i - 1) + {i - 1};
      } else {
        assert EndsBelow(ends, i) == EndsBelow(ends, i - 1);
      }
    }
  }

  lemma SubsetSize(a: set<int>, b: set<int>)
    requires a <= b
    ensures |a| <= |b|
  {
    assert b == a + (b - a);
    assert a * (b - a) == {};
  }

  lemma {:induction false} ElementsSize(s: seq<int>)
    ensures |set x | x in s| <= |s|
  {
    if |s| > 0 {
      var t := s[..|s| - 1];
      ElementsSize(t);
      assert (set x | x in s) == (set x | x in t) + {s[|s| - 1]};
    }
  }

  /**
   * The counter stays inside the contour array: before any point up to the
   * last end point it has counted only end points other than the last entry.
   */
  lemma ContourIndexBound(ends: seq<int>, i: nat)
    requires |ends| > 0 && i <= ends[|ends| - 1]
    ensures ContourIndex(ends, i) < |ends|
  {
    var init := ends[..|ends| - 1];
    ContourIndexCounts(ends, i);
    assert EndsBelow(ends, i) <= set x | x in init by {
      forall j | j in EndsBelow(ends, i) ensures j in init {
        var m :| 0 <= m < |ends| && ends[m] == j;
        assert m != |ends| - 1;
        assert init[m] == j;
      }
    }
    SubsetSize(EndsBelow(ends, i), set x | x in init);
    ElementsSize(init);
  }

  function Contents(c: Option<seq<ControlPoint>>): seq<ControlPoint>
  {
    if c.Some? then c.value else []
  }

  /**
   * The contour lists after the given points were appended in order, each to
   * the contour the counter names; a contour that received no point stays None.
   */
  function Distribute(points: seq<ControlPoint>, ends: seq<int>): (cs: seq<Option<seq<ControlPoint>>>)
    requires |ends| > 0 && |points| <= ends[|ends| - 1] + 1
    ensures |cs| == |ends|
  {
    if |points| == 0 then seq(|ends|, _ => None)
    else
      var i := |points| - 1;
      var cs := Distribute(points[..i], ends);
      ContourIndexBound(ends, i);
      var k := ContourIndex(ends, i);
      cs[k := Some(Contents(cs[k]) + [points[i]])]
  }

  /** One more flag, x and y make one more point at the end. */
  lemma PointsSnoc(flags: seq<int>, xs: seq<int>, ys: seq<int>, y: int, i: nat)
    requires i < |flags| == |xs| && |ys| == i
    ensures Points(flags[..i + 1], xs[..i + 1], ys + [y])
         == Points(flags[..i], xs[..i], ys) + [ControlPoint(xs[i] as real, y as real, HasFlag(flags[i], OnCurve))]
  {
  }

  /** Distributing one more point appends it to the contour the counter names. */
  lemma DistributeSnoc(done: seq<ControlPoint>, point: ControlPoint, ends: seq<int>)
    requires |ends| > 0 && |done| <= ends[|ends| - 1]
    ensures ContourIndex(ends, |done|) < |ends|
    ensures var cs := Distribute(done, ends);
      var k := ContourIndex(ends, |done|);
      Distribute(done + [point], ends) == cs[k := Some(Contents(cs[k]) + [point])]
  {
    ContourIndexBound(ends, |done|);
    assert (done + [point])[..|done|] == done;
  }

  /** Point i pairs x[i], y[i] and the OnCurve bit of flag i. */
  function Points(flags: seq<int>, xs: seq<int>, ys: seq<int>): (ps: seq<ControlPoint>)
    requires |xs| == |flags| && |ys| == |flags|
    ensures |ps| == |flags|
    ensures forall i :: 0 <= i < |flags| ==> ps[i].isOnCurve == HasFlag(flags[i], OnCurve)
  {
    seq(|flags|, i requires 0 <= i < |flags| => ControlPoint(xs[i] as real, ys[i] as real, HasFlag(flags[i], OnCurve)))
  }

  predicate StrictlyIncreasing(ends: seq<int>)
  {
    forall a, b :: 0 <= a < b < |ends| ==> ends[a] < ends[b]
  }

  /** The first point of contour k when the end points increase. */
  function ContourStart(ends: seq<int>, k: nat): int
    requires k < |ends|
  {
    if k == 0 then 0 else ends[k - 1] + 1
  }

  /** With increasing end points, the counter names the contour whose range holds i. */
  lemma {:induction false} ContourIndexOfIncreasing(ends: seq<int>, k: nat, i: nat)
    requires StrictlyIncreasing(ends) && k < |ends| && ends[0] >= 0
    requires ContourStart(ends, k) <= i <= ends[k]
    ensures ContourIndex(ends, i) == k
    decreases i
  {
    if i == ContourStart(ends, k) {
      if k > 0 {
        assert i - 1 in ends by { assert ends[k - 1] == i - 1; }
        ContourIndexOfIncreasing(ends, k - 1, i - 1);
      }
    } else {
      assert i - 1 !in ends by {
        forall m | 0 <= m < |ends| ensures ends[m] != i - 1 {
          if m < k { assert ends[m] <= ends[k - 1]; }
          else if m > k { assert ends[m] > ends[k]; }
        }
      }
      ContourIndexOfIncreasing(ends, k, i - 1);
    }
  }

  /** Every point up to the last end point lies in some contour's range. */
  lemma {:induction false} ContourOfPoint(ends: seq<int>, i: nat) returns (k: nat)
    requires StrictlyIncreasing(ends) && |ends| > 0 && ends[0] >= 0 && i <= ends[|ends| - 1]
    ensures k < |ends| && ContourStart(ends, k) <= i <= ends[k]
  {
    k := 0;
    while ends[k] < i
      invariant k < |ends| && ContourStart(ends, k) <= i
    {
      k := k + 1;
    }
  }

  /**
   * With increasing end points, after the first |points| points contour k
   * holds exactly the points from its start up to its end point (or up to
   * the points decoded so far), in order; a contour not reached yet is None.
   */
  lemma {:induction false} DistributePrefix(points: seq<ControlPoint>, ends: seq<int>, k: nat)
    requires StrictlyIncreasing(ends) && |ends| > 0 && ends[0] >= 0
    requires |points| <= ends[|ends| - 1] + 1 && k < |ends|
    ensures Distribute(points, ends)[k] ==
      if |points| <= ContourStart(ends, k) then None
      else Some(points[ContourStart(ends, k)..if |points| < ends[k] + 1 then |points| else ends[k] + 1])
  {
    if |points| > 0 {
      var i := |points| - 1;
      var prefix := points[..i];
      DistributePrefix(prefix, ends, k);
      var owner := ContourOfPoint(ends, i);
      ContourIndexOfIncreasing(ends, owner, i);
      assert prefix + [points[i]] == points;
      DistributeSnoc(prefix, points[i], ends);
      PrefixStep(points, ends, k, owner, Distribute(prefix, ends)[k], Distribute(points, ends)[k]);
    }
  }

  /** The inductive step of DistributePrefix: point i joins contour k exactly when k owns it. */
  lemma PrefixStep(points: seq<ControlPoint>, ends: seq<int>, k: nat, owner: nat,
                   before: Option<seq<ControlPoint>>, after: Option<seq<ControlPoint>>)
    requires StrictlyIncreasing(ends) && |ends| > 0 && ends[0] >= 0
    requires 0 < |points| <= ends[|ends| - 1] + 1 && k < |ends| && owner < |ends|
    requires ContourStart(ends, owner) <= |points| - 1 <= ends[owner]
    requires var i := |points| - 1;
      before == if i <= ContourStart(ends, k) then None
                else Some(points[..i][ContourStart(ends, k)..if i < ends[k] + 1 then i else ends[k] + 1])
    requires after == if owner == k then Some(Contents(before) + [points[|points| - 1]]) else before
    ensures after == if |points| <= ContourStart(ends, k) then None
      else Some(points[ContourStart(ends, k)..if |points| < ends[k] + 1 then |points| else ends[k] + 1])
  {
    var i := |points| - 1;
    var prefix := points[..i];
    var start := ContourStart(ends, k);
    if owner == k {
      if i > start {
        assert prefix[start..i] == points[start..i];
      }
      assert points[start..i + 1] == points[start..i] + [points[i]];
    } else if owner < k {
      assert ends[owner] < ends[k - 1] + 1 by {
        if owner < k - 1 { assert ends[owner] < ends[k - 1]; }
      }
    } else {
      assert ends[k] < ends[owner - 1] + 1 by {
        if k < owner - 1 { assert ends[k] < ends[owner - 1]; }
      }
      assert prefix[start..ends[k] + 1] == points[start..ends[k] + 1];
    }
  }

  /**
   * A whole simple glyph with increasing end points: contour k is exactly the
   * points endPts[k-1]+1 .. endPts[k], so contours cover the points in order.
   */
  lemma ContoursArePointRanges(points: seq<ControlPoint>, ends: seq<int>, k: nat)
    requires StrictlyIncreasing(ends) && |ends| > 0 && ends[0] >= 0
    requires |points| == ends[|ends| - 1] + 1 && k < |ends|
    ensures Distribute(points, ends)[k] == Some(points[ContourStart(ends, k)..ends[k] + 1])
  {
    DistributePrefix(points, ends, k);
    if k < |ends| - 1 {
      assert ends[k] < ends[|ends| - 1];
    }
    if k > 0 {
      assert ends[k - 1] < ends[k];
    }
  }

  function Flatten(cs: seq<Option<seq<ControlPoint>>>): seq<ControlPoint>
  {
    if |cs| == 0 then [] else Flatten(cs[..|cs| - 1]) + Contents(cs[|cs| - 1])
  }

  lemma FlattenSnoc(cs: seq<Option<seq<ControlPoint>>>, k: nat)
    requires 0 < k <= |cs|
    ensures Flatten(cs[..k]) == Flatten(cs[..k - 1]) + Contents(cs[k - 1])
  {
    assert cs[..k][..k - 1] == cs[..k - 1];
  }

  /** The contours, concatenated, give back every point in order: sizes sum to pointCount. */
  lemma ContoursCoverPoints(points: seq<ControlPoint>, ends: seq<int>, k: nat)
    requires StrictlyIncreasing(ends) && |ends| > 0 && ends[0] >= 0
    requires |points| == ends[|ends| - 1] + 1 && k <= |ends|
    ensures Flatten(Distribute(points, ends)[..k]) == points[..if k == 0 then 0 else ends[k - 1] + 1]
  {
    var cs := Distribute(points, ends);
    forall j | 0 <= j < |ends|
      ensures cs[j] == Some(points[ContourStart(ends, j)..ends[j] + 1])
    {
      ContoursArePointRanges(points, ends, j);
    }
    RangesCoverPoints(points, ends, cs, k);
  }

  /** Contours that are consecutive point ranges concatenate to a prefix of the points. */
  lemma {:induction false} RangesCoverPoints(points: seq<ControlPoint>, ends: seq<int>,
                                             cs: seq<Option<seq<ControlPoint>>>, k: nat)
    requires k <= |ends| == |cs|
    requires forall j :: 0 <= j < |ends| ==> 0 <= ends[j] + 1 <= |points|
    requires forall j {:trigger ContourStart(ends, j)} :: 0 <= j < |ends| ==> ContourStart(ends, j) <= ends[j] + 1
    requires forall j {:trigger cs[j]} :: 0 <= j < |ends| ==> cs[j] == Some(points[ContourStart(ends, j)..ends[j] + 1])
    ensures Flatten(cs[..k]) == points[..if k == 0 then 0 else ends[k - 1] + 1]
  {
    if k > 0 {
      RangesCoverPoints(points, ends, cs, k - 1);
      FlattenSnoc(cs, k);
      AppendRange(points, ContourStart(ends, k - 1), ends[k - 1] + 1);
    }
  }

  lemma AppendRange(points: seq<ControlPoint>, lo: nat, hi: nat)
    requires lo <= hi <= |points|
    ensures points[..lo] + points[lo..hi] == points[..hi]
  {
  }

  // ---- simple glyphs ----

  /**
   * A simple glyph after its header: contourCount end points, the
   * instruction length (the instructions are skipped), the flags, all x and
   * then all y values, and the points shared out among the contours. No
   * contours at all fails where the last end point is taken.
   */
  function DecodeSimple(data: seq<Byte>, pos: nat, contourCount: nat)
    : (r: Result<seq<Option<seq<ControlPoint>>>, ParseError>)
    ensures r.Ok? ==> |r.value| == contourCount
    ensures contourCount == 0 ==> r.Err?
  {
    if !(contourCount == 0 || pos + 2 * contourCount <= |data|) then Err(EndOfStream)
    else if contourCount == 0 then Err(EmptySequence)
    else DecodeOutline(data, pos + 2 * contourCount, Words(data, pos, contourCount, false))
  }

  /**
   * The rest of a simple glyph once its end points are read: the point
   * count is one past the last end point.
   */
  function DecodeOutline(data: seq<Byte>, pos: nat, ends: seq<int>)
    : (r: Result<seq<Option<seq<ControlPoint>>>, ParseError>)
    requires |ends| > 0 && ends[|ends| - 1] >= 0
    ensures r.Ok? ==> |r.value| == |ends|
  {
    var pointCount: nat := ends[|ends| - 1] + 1;
    var instructions :- Need(ReadUInt16(data, pos));
    var flags :- DecodeFlags(data, instructions.next + instructions.value, pointCount, []);
    var xs :- DecodeCoords(data, flags.next, flags.value, XShortVector, XIsSame, []);
    DecodeContours(data, xs.next, flags.value, xs.value, ends)
  }

  function DecodeContours(data: seq<Byte>, pos: nat, flags: seq<int>, xs: seq<int>, ends: seq<int>)
    : (r: Result<seq<Option<seq<ControlPoint>>>, ParseError>)
    requires |xs| == |flags| && |ends| > 0 && |flags| == ends[|ends| - 1] + 1
    ensures r.Ok? ==> |r.value| == |ends|
  {
    var ys :- DecodeCoords(data, pos, flags, YShortVector, YIsSame, []);
    Ok(Distribute(Points(flags, xs, ys.value), ends))
  }

  method ReadSimple(data: seq<Byte>, pos: nat, contourCount: nat)
    returns (r: Result<seq<Option<seq<ControlPoint>>>, ParseError>)
    ensures r == DecodeSimple(data, pos, contourCount)
  {
    var endPoints := ReadWords(data, pos, contourCount, false);
    if endPoints.None? {
      return Err(EndOfStream);
    }
    if contourCount == 0 {
      return Err(EmptySequence);
    }
    var ends := endPoints.value.value;
    assert IsUInt16(ends[contourCount - 1]);
    r := ReadOutline(data, endPoints.value.next, ends);
  }

  method ReadOutline(data: seq<Byte>, pos: nat, ends: seq<int>)
    returns (r: Result<seq<Option<seq<ControlPoint>>>, ParseError>)
    requires |ends| > 0 && ends[|ends| - 1] >= 0
    ensures r == DecodeOutline(data, pos, ends)
  {
    var pointCount: nat := ends[|ends| - 1] + 1;
    var instructions := ReadUInt16(data, pos);
    if instructions.None? {
      return Err(EndOfStream);
    }
    var flagsRead := ReadFlags(data, instructions.value.next + instructions.value.value, pointCount);
    if flagsRead.Err? {
      return Err(flagsRead.error);
    }
    var flags := flagsRead.value.value;
    var xsRead := ReadCoords(data, flagsRead.value.next, flags, XShortVector, XIsSame);
    if xsRead.Err? {
      return Err(xsRead.error);
    }
    r := ReadContours(data, xsRead.value.next, flags, xsRead.value.value, ends);
  }

  /**
   * The y loop: each point gets its y value and is appended to the contour
   * the counter names; the counter moves on after each end point.
   */
  method ReadContours(data: seq<Byte>, pos: nat, flags: seq<int>, xs: seq<int>, ends: seq<int>)
    returns (r: Result<seq<Option<seq<ControlPoint>>>, ParseError>)
    requires |xs| == |flags| && |ends| > 0 && |flags| == ends[|ends| - 1] + 1
    ensures r == DecodeContours(data, pos, flags, xs, ends)
  {
    var pointCount := |flags|;
    var contourCount := |ends|;
    var contours := new Option<seq<ControlPoint>>[contourCount](_ => None);
    var contourIndex := 0;
    var ys: seq<int> := [];
    var previousY := 0;
    var p := pos;
    for i := 0 to pointCount
      invariant |ys| == i && previousY == Previous(ys)
      invariant DecodeCoords(data, pos, flags, YShortVector, YIsSame, [])
             == DecodeCoords(data, p, flags, YShortVector, YIsSame, ys)
      invariant contourIndex == ContourIndex(ends, i)
      invariant contours[..] == Distribute(Points(flags[..i], xs[..i], ys), ends)
    {
      var step := CoordStep(data, p, flags[i], YShortVector, YIsSame, previousY);
      if step.None? {
        return Err(EndOfStream);
      }
      var y := step.value.value;
      var point := ControlPoint(xs[i] as real, y as real, HasFlag(flags[i], OnCurve));
      PointsSnoc(flags, xs, ys, y, i);
      DistributeSnoc(Points(flags[..i], xs[..i], ys), point, ends);
      contours[contourIndex] := Some(Contents(contours[contourIndex]) + [point]);
      ys := ys + [y];
      previousY := y;
      p := step.value.next;
      if i in ends {
        contourIndex := contourIndex + 1;
      }
    }
    assert flags[..pointCount] == flags && xs[..pointCount] == xs;
    return Ok(contours[..]);
  }

  // ---- compound glyphs ----

  /** The 2.14 words a transform takes: one scale, two, a 2x2 matrix, or none. */
  function TransformWords(flags: int): nat
  {
    if HasFlag(flags, IsScaled) then 1
    else if HasFlag(flags, DifferentXYScale) then 2
    else if HasFlag(flags, TwoByTwoScale) then 4
    else 0
  }

  /** The 2.14 value at pos, 0 past the end. */
  function Fixed(data: seq<Byte>, pos: nat): real
  {
    match ReadFixed16(data, pos)
    case None => 0.0
    case Some(Read(v, _)) => v
  }

  /**
   * The transform entries a, b, c, d: one scale for both axes, two scales,
   * a 2x2 matrix, or the identity, tested in that order.
   */
  function DecodeTransform(data: seq<Byte>, pos: nat, flags: int): (r: Option<Read<seq<real>>>)
    ensures r.None? <==> TransformWords(flags) > 0 && pos + 2 * TransformWords(flags) > |data|
    ensures r.Some? ==> |r.value.value| == 4 && r.value.next == pos + 2 * TransformWords(flags)
    ensures r.Some? && r.value.next > pos ==> r.value.next <= |data|
    ensures r.Some? && HasFlag(flags, IsScaled) ==>
              r.value.value == [Fixed(data, pos), 0.0, 0.0, Fixed(data, pos)]
    ensures r.Some? && !HasFlag(flags, IsScaled) && HasFlag(flags, DifferentXYScale) ==>
              r.value.value == [Fixed(data, pos), 0.0, 0.0, Fixed(data, pos + 2)]
    ensures r.Some? && !HasFlag(flags, IsScaled) && !HasFlag(flags, DifferentXYScale) && HasFlag(flags, TwoByTwoScale) ==>
              r.value.value == [Fixed(data, pos), Fixed(data, pos + 2), Fixed(data, pos + 4), Fixed(data, pos + 6)]
    ensures r.Some? && !HasFlag(flags, IsScaled) && !HasFlag(flags, DifferentXYScale) && !HasFlag(flags, TwoByTwoScale) ==>
              r.value == Read([1.0, 0.0, 0.0, 1.0], pos)
  {
    if HasFlag(flags, IsScaled) then
      match ReadFixed16(data, pos)
      case None => None
      case Some(Read(a, p)) => Some(Read([a, 0.0, 0.0, a], p))
    else if HasFlag(flags, DifferentXYScale) then
      match ReadFixed16(data, pos)
      case None => None
      case Some(Read(a, p)) =>
        match ReadFixed16(data, p)
        case None => None
        case Some(Read(d, p')) => Some(Read([a, 0.0, 0.0, d], p'))
    else if HasFlag(flags, TwoByTwoScale) then
      match ReadFixed16(data, pos)
      case None => None
      case Some(Read(a, p1)) =>
        match ReadFixed16(data, p1)
        case None => None
        case Some(Read(b, p2)) =>
          match ReadFixed16(data, p2)
          case None => None
          case Some(Read(c, p3)) =>
            match ReadFixed16(data, p3)
            case None => None
            case Some(Read(d, p4)) => Some(Read([a, b, c, d], p4))
    else Some(Read([1.0, 0.0, 0.0, 1.0], pos))
  }

  function Abs(x: real): real { if x < 0.0 then -x else x }

  function Max(x: real, y: real): real { if x < y then y else x }

  /** The tolerance 33/65536 of the scale comparison. */
  const Tolerance: real := 33.0 / 65536.0

  /**
   * [a, b, c, d, m, n]: m = max(|a|, |b|), doubled when |a| and |c| are
   * within the tolerance; n = max(|c|, |d|), doubled when |c| and |d| are.
   */
  function Scales(t: seq<real>): (s: seq<real>)
    requires |t| == 4
    ensures |s| == 6 && s[..4] == t
    ensures s[4] == (if Abs(Abs(t[0]) - Abs(t[2])) <= Tolerance then 2.0 else 1.0) * Max(Abs(t[0]), Abs(t[1]))
    ensures s[5] == (if Abs(Abs(t[2]) - Abs(t[3])) <= Tolerance then 2.0 else 1.0) * Max(Abs(t[2]), Abs(t[3]))
    ensures s[4] >= 0.0 && s[5] >= 0.0
  {
    var m := Max(Abs(t[0]), Abs(t[1]));
    var n := Max(Abs(t[2]), Abs(t[3]));
    var m' := if Abs(Abs(t[0]) - Abs(t[2])) <= Tolerance then m * 2.0 else m;
    var n' := if Abs(Abs(t[2]) - Abs(t[3])) <= Tolerance then n * 2.0 else n;
    t + [m', n']
  }

  /**
   * One component record: flags (a signed word), glyph index, two word or
   * two byte arguments, the transform. Also says whether MoreComponents is set.
   */
  function DecodeComponent(data: seq<Byte>, pos: nat): (r: Result<Read<(GlyphComponent, bool)>, ParseError>)
    ensures r.Ok? ==> pos < r.value.next <= |data|
    ensures r.Ok? ==> |r.value.value.0.transform| == 6
    ensures r.Ok? ==> ReadInt16(data, pos).Some?
                      && r.value.value.1 == HasFlag(ReadInt16(data, pos).value.value, MoreComponents)
    ensures r.Err? ==> r.error == EndOfStream
    ensures r.Ok? ==>
      var flags, c := ReadInt16(data, pos).value.value, r.value.value.0;
      var words := HasFlag(flags, ArgsAreWords);
      var at := pos + 4 + (if words then 4 else 2);
      pos + 4 <= |data| && c.glyphIndex == ReadUInt16(data, pos + 2).value.value
      && c.useMetrics == HasFlag(flags, UseMetrics) && c.argsAreXYValues == HasFlag(flags, ArgsAreXYValues)
      && at <= |data|
      && (words ==> c.arg1 == ReadUInt16(data, pos + 4).value.value && c.arg2 == ReadUInt16(data, pos + 6).value.value)
      && (!words ==> c.arg1 == data[pos + 4] && c.arg2 == data[pos + 5])
      && DecodeTransform(data, at, flags).Some?
      && c.transform == Scales(DecodeTransform(data, at, flags).value.value)
      && r.value.next == DecodeTransform(data, at, flags).value.next
  {
    var flags :- Need(ReadInt16(data, pos));
    var index :- Need(ReadUInt16(data, flags.next));
    var words := HasFlag(flags.value, ArgsAreWords);
    var arg1 :- Need(if words then ReadUInt16(data, index.next) else ReadByte(data, index.next));
    var arg2 :- Need(if words then ReadUInt16(data, arg1.next) else ReadByte(data, arg1.next));
    var transform :- Need(DecodeTransform(data, arg2.next, flags.value));
    var component := GlyphComponent(
      index.value, HasFlag(flags.value, UseMetrics), arg1.value, arg2.value,
      HasFlag(flags.value, ArgsAreXYValues), Scales(transform.value));
    Ok(Read((component, HasFlag(flags.value, MoreComponents)), transform.next))
  }

  /** Component records, continued from those read so far, while MoreComponents is set. */
  function DecodeComponents(data: seq<Byte>, pos: nat, components: seq<GlyphComponent>)
    : (r: Result<seq<GlyphComponent>, ParseError>)
    ensures r.Ok? ==> |r.value| > |components| && components <= r.value
    decreases |data| - pos
  {
    var record :- DecodeComponent(data, pos);
    var (component, more) := record.value;
    if more then DecodeComponents(data, record.next, components + [component])
    else Ok(components + [component])
  }

  method ReadCompound(data: seq<Byte>, pos: nat) returns (r: Result<seq<GlyphComponent>, ParseError>)
    ensures r == DecodeComponents(data, pos, [])
  {
    var components: seq<GlyphComponent> := [];
    var moreComponents := true;
    var p := pos;
    while moreComponents
      invariant moreComponents ==> DecodeComponents(data, pos, []) == DecodeComponents(data, p, components)
      invariant !moreComponents ==> DecodeComponents(data, pos, []) == Ok(components)
      decreases moreComponents, |data| - p
    {
      var record := DecodeComponent(data, p);
      if record.Err? {
        return Err(record.error);
      }
      components := components + [record.value.value.0];
      moreComponents := record.value.value.1;
      p := record.value.next;
    }
    return Ok(components);
  }

  // ---- the glyph ----

  /**
   * The glyph constructor: contour count and bounding box (xMin, yMin, xMax,
   * yMax) as signed words, then a negative count selects the compound
   * reader and any other count the simple one.
   */
  function DecodeGlyph(data: seq<Byte>, pos: nat): (r: Result<Glyph, ParseError>)
    ensures r.Ok? ==> pos + 10 <= |data|
    ensures r.Ok? ==> (r.value.IsCompound() <==> ReadInt16(data, pos).value.value < 0)
    ensures r.Ok? ==> (r.value.xMin == ReadInt16(data, pos + 2).value.value
                       && r.value.yMin == ReadInt16(data, pos + 4).value.value
                       && r.value.xMax == ReadInt16(data, pos + 6).value.value
                       && r.value.yMax == ReadInt16(data, pos + 8).value.value)
    ensures r.Ok? && r.value.outline.Simple? ==> |r.value.outline.contours| == ReadInt16(data, pos).value.value
  {
    var count :- Need(ReadInt16(data, pos));
    var xMin :- Need(ReadInt16(data, pos + 2));
    var yMin :- Need(ReadInt16(data, pos + 4));
    var xMax :- Need(ReadInt16(data, pos + 6));
    var yMax :- Need(ReadInt16(data, pos + 8));
    if count.value < 0 then
      var components :- DecodeComponents(data, pos + 10, []);
      Ok(Glyph(xMin.value, yMin.value, xMax.value, yMax.value, Compound(components)))
    else
      var contours :- DecodeSimple(data, pos + 10, count.value);
      Ok(Glyph(xMin.value, yMin.value, xMax.value, yMax.value, Simple(contours)))
  }

  method ReadGlyph(data: seq<Byte>, pos: nat) returns (r: Result<Glyph, ParseError>)
    ensures r == DecodeGlyph(data, pos)
  {
    var count := ReadInt16(data, pos);
    var xMin := ReadInt16(data, pos + 2);
    var yMin := ReadInt16(data, pos + 4);
    var xMax := ReadInt16(data, pos + 6);
    var yMax := ReadInt16(data, pos + 8);
    if count.None? || xMin.None? || yMin.None? || xMax.None? || yMax.None? {
      return Err(EndOfStream);
    }
    var box := (xMin.value.value, yMin.value.value, xMax.value.value, yMax.value.value);
    if count.value.value < 0 {
      var components := ReadCompound(data, pos + 10);
      if components.Err? {
        return Err(components.error);
      }
      return Ok(Glyph(box.0, box.1, box.2, box.3, Compound(components.value)));
    } else {
      var contours := ReadSimple(data, pos + 10, count.value.value);
      if contours.Err? {
        return Err(contours.error);
      }
      return Ok(Glyph(box.0, box.1, box.2, box.3, Simple(contours.value)));
    }
  }
}
