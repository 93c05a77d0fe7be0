# GameUtils font pipeline and collections, modelled in Dafny

This project models the core of the GameUtils repository in Dafny and proves properties of that model.

## The font pipeline

The font converter turns a TrueType file into a "gufont" file, and the engine loads it.

- **Big-endian reads.** `BigEndian` models the reader's 16-, 32- and 64-bit reads. Every read fails when the input runs short. The 64-bit reads keep only the last four bytes, as the code does.
- **Fixed-point reads.** `FixedPoint` models the integer arithmetic of ReadFixed16 and ReadFixed32 as the code does it. The final division is exact, where the code's .NET decimal rounds it (see "## Left out"). The code's ReadFixed16 is not the F2DOT14 format of the OpenType specification.
- **Table directory and tables.** `TrueType` models the table directory and the head, name, hhea, hmtx, maxp, loca and glyf tables. `CharacterMap` models the cmap Format 4 subtable, including its indirect glyph-array branch. idDelta is added without reduction modulo 65536, as in the code.
- **Glyphs.** `Glyphs` models the simple glyph path: run-length flags, delta-coded coordinates and the split into contours. It also models the compound component records.
- **Point arithmetic.** `ControlPoints` models control-point arithmetic over exact rationals.
- **Triangles and polygons.** `Triangles` models triangle containment, intersection, area and splitting. `GlyphContours` and `Polygons` model how contours become linked polygons and curve triangles.
- **Mesh steps.**
  - `Splitting` models the split passes.
  - `Winding` models the winding number.
  - `Classification` models the inside/outside marking.
  - `SearchTrees` models the hole search.
  - `MeshIndexing` models vertex indexing.
  - `Vertices` models the mesh vertex.
- **One glyph.** `TriangulatedGlyphs` assembles a glyph and writes its record.
- **The gufont file.** `GameUtilsFonts` writes the gufont container. `Fonts` is the engine's reader of that container. `FontRoundTrip` proves that reading what the writer wrote gives back the name, metrics, character map and glyphs.

The outside libraries the converter calls are parameters of the model (see "Left out"):

- the polygon union;
- the constrained triangulation;
- the float conversion.

## Small stateful structures

Each of these is a class whose methods change its fields in place.

- **Buffered collections.**
  - `BufferedList` and `BufferedLinkedList` queue their changes. The changes become visible only when ApplyChanges runs.
  - Each is specified by a function that replays the queue.
  - Count, Contains and the indexers read the applied contents only.
- **MessageListener.** `MessageListener` is a FIFO queue that keeps only the messages of its type. Its invariant relates the queue to the history of pushes and pops. `MessageListenerHandle.Dispose` unregisters its listener once.
- **Collisions.** `CollisionCollection` finds or appends the collision of an ordered pair of objects. It then appends contact points to that collision's point list, which is shared by reference.
- **MathHelper.** `MathHelpers` models the integer overloads of MathHelper. The factorials wrap around in 32 or 64 bits, as C# unchecked arithmetic does.
- **Logger.** `Logging` models the Logger constructors and PostMessage.

## Where the model follows the code rather than the documentation

The model does what the code does wherever the two differ:

- ReadFixed16;
- ReadInt64;
- the unreduced cmap idDelta;
- the unchecked cmap subtable format.

## Two readings of the mesh steps

Two steps of the glyph triangulation do something other than what they evidently intend (see "Findings"): the split pass and the winding number. The whole pipeline therefore takes a `Winding.Rule`:

- under `AsWritten` it runs SplitTriangles and GetWindingNumber as the code has them;
- under `Corrected` it runs the split pass that splits each triangle at most once, and the winding number that counts every crossing of the ray.

Every property of `TriangulatedGlyphs` and `GameUtilsFonts` is stated for both rules, and says where they differ: only the split pass as written can fail, with an index error in RemoveAt.

## Model

| member | source | states |
|---|---|---|
| BigEndian.Signed16 | FontConverter/BigEndianBinaryReader.cs:11-16 | BitConverter.ToInt16's reinterpretation: a 16-bit two's-complement value congruent to the unsigned one modulo 2^16 |
| BigEndian.Signed32 | FontConverter/BigEndianBinaryReader.cs:18-23 | BitConverter.ToInt32's reinterpretation: a 32-bit two's-complement value congruent to the unsigned one modulo 2^32 |
| BigEndian.ReadUInt16 | FontConverter/BigEndianBinaryReader.cs:32-37 | fails exactly when fewer than two bytes remain; otherwise moves on two bytes, and the value is the unsigned 16-bit number whose big-endian encoding is the bytes read |
| BigEndian.ReadInt16 | FontConverter/BigEndianBinaryReader.cs:11-16 | fails exactly when fewer than two bytes remain; otherwise moves on two bytes, and the value is the signed 16-bit number whose big-endian encoding is the bytes read |
| BigEndian.ReadUInt32 | FontConverter/BigEndianBinaryReader.cs:39-44 | fails exactly when fewer than four bytes remain; otherwise moves on four bytes, and the value is the unsigned 32-bit number whose encoding is the bytes read |
| BigEndian.ReadInt32 | FontConverter/BigEndianBinaryReader.cs:18-23 | fails exactly when fewer than four bytes remain; otherwise moves on four bytes, and the value is the signed 32-bit number whose encoding is the bytes read |
| BigEndian.ReadUInt64 | FontConverter/BigEndianBinaryReader.cs:46-51 | consumes up to eight bytes and fails only when fewer than four remain; the value is ToUInt32 of the four bytes just before the new position, so any bytes before them never matter |
| BigEndian.ReadInt64 | FontConverter/BigEndianBinaryReader.cs:25-30 | consumes up to eight bytes and fails only when fewer than four remain; the value is ToInt32 of the four bytes just before the new position, a signed 32-bit number |
| BigEndian.ReadByte | FontConverter/Glyph.cs:94-95 | fails exactly at the end of the input; otherwise gives the byte at the position and moves on one |
| BigEndian.ReadBytes | FontConverter/TrueTypeFile.cs:165 | never fails: gives the next n bytes, or all the remaining bytes when fewer than n are left, and moves past exactly what it gave |
| BigEndian.UInt16RoundTrip | FontConverter/BigEndianBinaryReader.cs:32-37 | ReadUInt16 over the big-endian bytes of any unsigned 16-bit value gives that value back, whatever surrounds them |
| BigEndian.Int16RoundTrip | FontConverter/BigEndianBinaryReader.cs:11-16 | ReadInt16 over the big-endian bytes of any signed 16-bit value gives that value back |
| BigEndian.UInt32RoundTrip | FontConverter/BigEndianBinaryReader.cs:39-44 | ReadUInt32 over the big-endian bytes of any unsigned 32-bit value gives that value back |
| BigEndian.Int32RoundTrip | FontConverter/BigEndianBinaryReader.cs:18-23 | ReadInt32 over the big-endian bytes of any signed 32-bit value gives that value back |
| BigEndian.Int64KeepsLowHalf | FontConverter/BigEndianBinaryReader.cs:25-30 | of eight bytes, ReadInt64 returns ReadInt32 of the last four, so the first four never matter |
| BigEndian.EncodeUInt16Injective | FontConverter/BigEndianBinaryReader.cs:32-37 | distinct 16-bit values have distinct big-endian encodings |
| BigEndian.EncodeUInt32Injective | FontConverter/BigEndianBinaryReader.cs:39-44 | distinct 32-bit values have distinct big-endian encodings |
| BigEndian.WordAt | FontConverter/Glyph.cs:146-147 | the word at a position is what ReadUInt16, or ReadInt16 when signed, gives there |
| BigEndian.Words | FontConverter/TrueTypeFile.cs:205-207 | n consecutive words, word i read at pos + 2i with the given signedness and within its 16-bit range |
| BigEndian.ReadWords | FontConverter/TrueTypeFile.cs:205-221 | the fixed-count word loop succeeds exactly when all 2n bytes are present; it then gives Words and ends 2n bytes on |
| FixedPoint.Mantissa | FontConverter/BinaryReaderExtensions.cs:11 | `(raw >> 14) & 0x8001` is 0 or 1 for a non-negative raw, and 0x8000 plus the shifted value plus 2 (32768 or 32769) for a negative one |
| FixedPoint.MaskOfSmall | FontConverter/BinaryReaderExtensions.cs:11 | the mask 0x8001 over each of the four shift results -2, -1, 0 and 1 |
| FixedPoint.Fraction | FontConverter/BinaryReaderExtensions.cs:10 | `raw & 0x3fff` lies in [0, 0x3fff] |
| FixedPoint.ReadFixed16 | FontConverter/BinaryReaderExtensions.cs:7-14 | fails exactly when ReadInt16 does; the value is never negative, is at most 2 for a non-negative raw, and lies in [32768, 32770] for a negative one |
| FixedPoint.FractionTerm | FontConverter/BinaryReaderExtensions.cs:13 | the fraction divided by 0x3fff lies in [0, 1] |
| FixedPoint.ReadFixed32 | FontConverter/BinaryReaderExtensions.cs:16-21 | fails exactly when fewer than four bytes remain; the value lies between the signed integer part and that part plus one |
| FixedPoint.Fixed16OfMinusOne | FontConverter/BinaryReaderExtensions.cs:7-14 | the bytes C0 00, which are -1.0 in F2DOT14, read as 32769 |
| FixedPoint.Fixed16OfOneHalf | FontConverter/BinaryReaderExtensions.cs:7-14 | the bytes 20 00, which are 0.5 in F2DOT14, read as 8192/16383, which is not 0.5 |
| ParseErrors.Need | FontConverter/BigEndianBinaryReader.cs:13-15 | a primitive read that found too few bytes becomes the end-of-stream failure, and a successful read passes through |
| Wrappers.FirstIndex | FontConverter/TrueTypeFile.cs:100 | First/Find: the first index whose element satisfies the predicate, or None exactly when none does |
| LittleEndian.ValueOfBytesLE | GameUtils/Graphics/Font.cs:75-88 | reading n bytes back, least significant first, where the writer put them gives back every value that n bytes can hold |
| LittleEndian.Int32RoundTrip | FontConverter/GameUtilsFont.cs:46-55 | ReadInt32 after Write(int) gives back every 32-bit value, whatever surrounds it |
| LittleEndian.Int32BytesWrap | FontConverter/GameUtilsFont.cs:46 | Write(int) keeps only the low 32 bits: values congruent modulo 2^32 are written alike |
| LittleEndian.SingleRoundTrip | GameUtils/Graphics/Font.cs:33 | ReadSingle after Write(float) gives back the same bit pattern |
| LittleEndian.CharRoundTrip | FontConverter/GameUtilsFont.cs:58 | ReadChar after Write(char) gives back the UTF-16 code unit |
| Glyphs.Empty | FontConverter/Glyph.cs:71-75 | Glyph.Empty is not compound, has no contours and a zero bounding box |
| Glyphs.DecodeFlags | FontConverter/Glyph.cs:153-167 | the flag loop fills exactly pointCount flags and keeps those already stored; it fails only at the end of the data or on a repeat that reaches past the array; the next flag is the next byte, and with the repeat bit it is also copied into the following n entries, n being the byte after it |
| Glyphs.ReadFlags | FontConverter/Glyph.cs:153-167 | the while loop with its repeat counter, writing into the flag array, computes DecodeFlags |
| Glyphs.CoordStep | FontConverter/Glyph.cs:177-179 | fails exactly when the bytes the flag asks for are missing; a short coordinate is the previous one plus the next byte when the second bit (IsPositive for a short coordinate) is set and minus it otherwise; with that bit (IsSame) and no short bit it is the previous one; otherwise the difference is the signed word at the position |
| Glyphs.DecodeCoords | FontConverter/Glyph.cs:172-185 | one coordinate per flag, extending those decoded so far |
| Glyphs.CoordSteps | FontConverter/Glyph.cs:171-181 | every decoded coordinate differs from the one before it by a step its flag allows; the running previous value is never reset at contour boundaries |
| Glyphs.FirstCoordStep | FontConverter/Glyph.cs:177-181 | the next coordinate decoded differs from the last one by a step its flag allows |
| Glyphs.CoordBytes | FontConverter/Glyph.cs:172-185 | the coordinates take exactly the bytes their flags say |
| Glyphs.ReadCoords | FontConverter/Glyph.cs:169-185 | the x loop with its running previousX computes DecodeCoords |
| Glyphs.ContourIndexCounts | FontConverter/Glyph.cs:183-184 | the contour counter before point i is the number of distinct end points below i |
| Glyphs.ContourIndexBound | FontConverter/Glyph.cs:174 | up to the last end point the counter stays inside the contour array, so the source's indexing does not fail |
| Glyphs.Distribute | FontConverter/Glyph.cs:187-211 | one contour list per end point; a contour no point reached stays null |
| Glyphs.DistributeSnoc | FontConverter/Glyph.cs:193-199 | one more point is appended to the contour the counter names, and every other contour is unchanged |
| Glyphs.Points | FontConverter/Glyph.cs:199 | point i pairs x[i], y[i] and flag i's OnCurve bit |
| Glyphs.PointsSnoc | FontConverter/Glyph.cs:199 | one more flag, x and y add one point at the end |
| Glyphs.ContourIndexOfIncreasing | FontConverter/Glyph.cs:183-184 | with increasing end points, the counter at point i names the contour whose range holds i |
| Glyphs.ContourOfPoint | FontConverter/Glyph.cs:148 | with increasing end points, every point up to the last end point lies in some contour's range |
| Glyphs.DistributePrefix | FontConverter/Glyph.cs:187-211 | with increasing end points, after any prefix of the points, contour k holds exactly the points from its start up to its end point or the prefix's end, in order; a contour not yet reached is null |
| Glyphs.PrefixStep | FontConverter/Glyph.cs:193-206 | the inductive step: point i joins contour k exactly when k's range holds i |
| Glyphs.ContoursArePointRanges | FontConverter/Glyph.cs:187-211 | for a whole simple glyph with increasing end points, contour k is exactly the points endPts[k-1]+1 through endPts[k] |
| Glyphs.ContoursCoverPoints | FontConverter/Glyph.cs:143-211 | the contours, concatenated, give back every point in order, so their sizes sum to the point count |
| Glyphs.RangesCoverPoints | FontConverter/Glyph.cs:187-211 | contours that are consecutive point ranges concatenate to a prefix of the points |
| Glyphs.DecodeSimple | FontConverter/Glyph.cs:143-148 | one contour per end point; zero contours fails where the last end point is taken |
| Glyphs.DecodeOutline | FontConverter/Glyph.cs:148-211 | the point count is one past the last end point, and there is one contour per end point |
| Glyphs.DecodeContours | FontConverter/Glyph.cs:187-211 | one contour per end point once the y values are read |
| Glyphs.ReadSimple | FontConverter/Glyph.cs:143-148 | the end point loop computes DecodeSimple |
| Glyphs.ReadOutline | FontConverter/Glyph.cs:148-185 | the instruction skip, the flag loop and the x loop in sequence compute DecodeOutline |
| Glyphs.ReadContours | FontConverter/Glyph.cs:187-211 | the y loop, which fills the contour array through the counter, computes DecodeContours |
| Glyphs.DecodeTransform | FontConverter/Glyph.cs:98-122 | reads two, four or eight bytes as the scale flags ask, none without one, and fails exactly when they are missing; IsScaled gives one fixed-point scale on both axes, DifferentXYScale the x then the y scale, TwoByTwo four fixed-point entries in order, and otherwise the identity; the flags are tested in the source order |
| Glyphs.Scales | FontConverter/Glyph.cs:124-127 | [a, b, c, d, m, n]: m = max(\|a\|, \|b\|), doubled when \|a\| and \|c\| are within 33/65536; n = max(\|c\|, \|d\|), doubled when \|c\| and \|d\| are within it; m and n are never negative |
| Glyphs.DecodeComponent | FontConverter/Glyph.cs:83-139 | fails only at the end of the data; the glyph index is the word after the flags, UseMetrics and ArgsAreXYValues come from the flags, the two arguments are words or bytes as ArgsAreWords says, and the transform is the four entries read right after them followed by the scales m and n |
| Glyphs.DecodeComponents | FontConverter/Glyph.cs:77-141 | at least one component is read (the do-while shape), extending those read so far |
| Glyphs.ReadCompound | FontConverter/Glyph.cs:77-141 | the `while (moreComponents)` loop computes DecodeComponents |
| Glyphs.DecodeGlyph | FontConverter/Glyph.cs:51-69 | compound exactly when the signed contour count is negative; the bounding box is the four signed words after it, in the order xMin, yMin, xMax, yMax; a simple glyph has as many contours as the count says |
| Glyphs.ReadGlyph | FontConverter/Glyph.cs:51-69 | the constructor computes DecodeGlyph |
| ControlPoints.At | FontConverter/ControlPoint.cs:7-12 | the two-argument constructor keeps the coordinates and leaves IsOnCurve false |
| ControlPoints.Add | FontConverter/ControlPoint.cs:33-36 | the sum is off-curve and subtracting the right operand gives the left one back |
| ControlPoints.Subtract | FontConverter/ControlPoint.cs:38-41 | the difference is off-curve |
| ControlPoints.Negate | FontConverter/ControlPoint.cs:43-46 | the negation is off-curve and adds to the original to give the origin |
| ControlPoints.Divide | FontConverter/ControlPoint.cs:53-56 | for a non-zero scalar the quotient is off-curve and multiplying it back gives a point Equal to the original |
| ControlPoints.Plus | FontConverter/ControlPoint.cs:101-104 | unary + returns the value itself, flag included |
| ControlPoints.Mid | FontConverter/TriangulatedGlyph.cs:45 | `(p + q) / 2` is off-curve and equidistant from p and q on both axes |
| ControlPoints.VectorProductAntisymmetric | FontConverter/ControlPoint.cs:58-61 | the cross product changes sign when its operands swap, and is zero for a point with itself |
| ControlPoints.ScalingCommutes | FontConverter/ControlPoint.cs:116-124 | both operand orders of `*` scale the coordinates and clear the flag |
| ControlPoints.SubtractIsAddNegated | FontConverter/ControlPoint.cs:106-114 | p - q is p + (-q); Equals is symmetric |
| ControlPoints.EqualsIgnoresFlag | FontConverter/ControlPoint.cs:71-74 | equality compares coordinates only: a point Equals its flag-flipped copy although the two values differ |
| GlyphContours.PrevIndex | FontConverter/TriangulatedGlyph.cs:32 | a, the cyclic predecessor, is a valid index |
| GlyphContours.NextIndex | FontConverter/TriangulatedGlyph.cs:32 | b, the cyclic successor, is a valid index |
| GlyphContours.NextIndexMod | FontConverter/TriangulatedGlyph.cs:32 | the loop's b is (i + 1) mod Count |
| GlyphContours.Walk | FontConverter/TriangulatedGlyph.cs:32-59 | the nodes added over points 0 .. i-1 are numbered consecutively from the first free identity |
| GlyphContours.WalkCount | FontConverter/TriangulatedGlyph.cs:36-58 | the walk makes one curve triangle per off-curve point, whose A is that point, and none of them is marked inside |
| GlyphContours.WalkLast | FontConverter/TriangulatedGlyph.cs:36-39 | after an on-curve point, that point's node is the last one |
| GlyphContours.WalkHolds | FontConverter/TriangulatedGlyph.cs:52-56 | every triangle of the walk except the one at point 0 has as BNode the node that holds its B |
| GlyphContours.WalkEnds | FontConverter/TriangulatedGlyph.cs:42-61 | when point 0 is off-curve, the first triangle's B is the point before it; if the last point is also off-curve, the first node holds that B |
| GlyphContours.PointsAt | FontConverter/TriangulatedGlyph.cs:34-47 | an on-curve point adds itself to the polygon; an off-curve point adds the midpoint with its predecessor when that is off the curve too, and nothing otherwise |
| GlyphContours.CornersAt | FontConverter/TriangulatedGlyph.cs:40-57 | an off-curve point makes one curve triangle: the point, its predecessor or the midpoint with it, and its successor or the midpoint with it; an on-curve point makes none |
| GlyphContours.AllOnCurve | FontConverter/TriangulatedGlyph.cs:36-39 | a contour of on-curve points only is its own polygon and makes no curve triangle |
| GlyphContours.BeforeOnPolygon | FontConverter/TriangulatedGlyph.cs:42-47 | the B of every curve triangle is a point of the polygon |
| GlyphContours.AfterOnPolygon | FontConverter/TriangulatedGlyph.cs:49-50 | the C of every curve triangle is a point of the polygon |
| GlyphContours.CurveEndsOnPolygon | FontConverter/TriangulatedGlyph.cs:42-52 | both ends B and C of every curve triangle are points of the contour's polygon |
| GlyphContours.WalkStep | FontConverter/TriangulatedGlyph.cs:34-58 | one pass of the point loop appends what that point adds to the polygon, and its curve triangle, behind what is already there |
| GlyphContours.WalkPoints | FontConverter/TriangulatedGlyph.cs:32-59 | the loop over points 0 .. i-1 builds exactly what they add to the polygon and their curve triangles, in contour order |
| GlyphContours.ContourPoints | FontConverter/TriangulatedGlyph.cs:26-62 | the polygon of a contour holds its on-curve points and implicit midpoints in contour order, and its triangles are its curve triangles, one per off-curve point, in order |
| GlyphContours.KeptContours | FontConverter/TriangulatedGlyph.cs:24-26 | the contours that become polygons: at most one per contour, each of at least two points |
| GlyphContours.CreatedPolygons | FontConverter/TriangulatedGlyph.cs:19-66 | polygon k is built from the k-th contour that is not null and has more than one point, and the triangles are the curve triangles of those contours, contour after contour |
| GlyphContours.ContourOf | FontConverter/TriangulatedGlyph.cs:26-62 | for a contour of two or more points, one triangle per off-curve point, each off-curve, not inside, and with a BNode in its own polygon holding its B, including the first one fixed after the loop |
| GlyphContours.CreateContours | FontConverter/TriangulatedGlyph.cs:19-66 | fails (null reference) exactly when some contour is null; contours of fewer than two points add no polygon; every triangle is off-curve at A, not inside, and linked to a polygon that exists |
| GlyphContours.InsertedKeeps | FontConverter/TriangulatedGlyph.cs:91 | AddAfter keeps every node, shifting the nodes after the insertion point by one |
| GlyphContours.InsertKeepsLinks | FontConverter/TriangulatedGlyph.cs:91-93 | inserting a fresh node after a node of a polygon keeps every triangle's link valid, and the new node sits right after the old one |
| GlyphContours.AppendLinked | FontConverter/TriangulatedGlyph.cs:24-63 | appending one more contour's polygon and triangles keeps every link valid |
| GlyphContours.ContoursNext | FontConverter/TriangulatedGlyph.cs:24-63 | one more contour: a null one fails, one of fewer than two points is skipped, any other adds its polygon and triangles |
| GlyphContours.LinkedNext | FontConverter/TriangulatedGlyph.cs:24-63 | one more contour keeps the created contours linked |
| GlyphContours.CreatedLinked | FontConverter/TriangulatedGlyph.cs:19-66 | every triangle CreateContours makes has a BNode holding its B, and node identities are fresh |
| GlyphContours.FailureStays | FontConverter/TriangulatedGlyph.cs:24 | once a null contour has been met, later contours do not change the failure |
| GlyphContours.VisitPoint | FontConverter/TriangulatedGlyph.cs:34-58 | one pass of the point loop advances the walk by one point, and reports the triangle at point 0 exactly when point 0 is off-curve |
| GlyphContours.WalkContour | FontConverter/TriangulatedGlyph.cs:28-61 | the point loop and the first triangle's fix-up compute ContourOf |
| GlyphContours.CreateContoursOf | FontConverter/TriangulatedGlyph.cs:19-66 | the loop over the glyph's contours computes CreateContours |
| SearchTrees.Coordinates | FontConverter/TriangulatedGlyph.cs:316-318 | AddPoint receives each contour point's x and y, in order |
| SearchTrees.Checked | FontConverter/TriangulatedGlyph.cs:231-234 | Contains fails (index out of range) exactly on an empty polygon, and otherwise gives the crossing-count verdict |
| SearchTrees.ChildFrom | FontConverter/TriangulatedGlyph.cs:304-305 | the loop over the children gives false exactly when every child contour is non-empty and does not contain the point; true only when some child contains it |
| SearchTrees.InsideNode | FontConverter/TriangulatedGlyph.cs:302-308 | IsInside fails only by indexing an empty contour |
| SearchTrees.Chain | FontConverter/TriangulatedGlyph.cs:316-321 | the segments (s, s+1), (s+1, s+2), ... between consecutive points of the contour |
| SearchTrees.RingCloses | FontConverter/TriangulatedGlyph.cs:316-322 | for a contour of n > 0 points, the n segments join point m to point (m + 1) mod n |
| SearchTrees.RingDegenerate | FontConverter/TriangulatedGlyph.cs:322 | a one-point contour gets the segment (s, s); an empty one gets the single segment (s - 1, s) |
| SearchTrees.HalveInside | FontConverter/TriangulatedGlyph.cs:334-341 | the halving loop only returns a point inside the hole and outside all its children, a2 + c * s for some 0 < s <= x/2 |
| SearchTrees.SeedInside | FontConverter/TriangulatedGlyph.cs:326-345 | a seed found by the corner scan is inside the hole and outside everything nested in it |
| SearchTrees.SeedNone | FontConverter/TriangulatedGlyph.cs:326-332 | for a contour of two or more points, no seed is found exactly when no corner turns clockwise |
| SearchTrees.SearchPoints | FontConverter/TriangulatedGlyph.cs:310-351 | the points are the pre-order concatenation of the contours, and the point index advances by their number |
| SearchTrees.DescendPoints | FontConverter/TriangulatedGlyph.cs:314-349 | one child adds its own contour, then its subtree's points |
| SearchTrees.ChildPoints | FontConverter/TriangulatedGlyph.cs:316-349 | a child's contour, then its subtree, whatever seed it was given |
| SearchTrees.CoordinatesAppend | FontConverter/TriangulatedGlyph.cs:316-318 | adding two runs of points adds their coordinates in the same order |
| SearchTrees.SearchSegments | FontConverter/TriangulatedGlyph.cs:310-351 | when no contour is empty, the walk keeps the earlier segments and every segment it adds joins two points it added |
| SearchTrees.DescendSegments | FontConverter/TriangulatedGlyph.cs:314-349 | the same for one child and its subtree |
| SearchTrees.SearchHoles | FontConverter/TriangulatedGlyph.cs:310-351 | the walk keeps the earlier seeds, and every seed it adds lies inside some hole of the forest and outside that hole's children |
| SearchTrees.DescendHoles | FontConverter/TriangulatedGlyph.cs:324-349 | the same for one child and its subtree |
| SearchTrees.ChildHoles | FontConverter/TriangulatedGlyph.cs:324-349 | a child's own seed, if any, is inside the child; the other seeds are inside holes of its subtree |
| SearchTrees.HoleSeedInside | FontConverter/TriangulatedGlyph.cs:343 | the coordinates handed to AddHole are inside the hole and outside its children |
| SearchTrees.SeedOffCurve | FontConverter/TriangulatedGlyph.cs:340 | seeds are built by +, so they carry no on-curve flag |
| SearchTrees.InsideNodeOf | FontConverter/TriangulatedGlyph.cs:302-308 | the loop over the children computes InsideNode |
| SearchTrees.HalveStep | FontConverter/TriangulatedGlyph.cs:337-341 | one round of the do-while loop: a failing containment test propagates, an inside candidate is returned, and otherwise x is halved again |
| SearchTrees.HalveOf | FontConverter/TriangulatedGlyph.cs:334-341 | the do-while loop, starting from x = 2, computes Halve |
| SearchTrees.HoleSeedOf | FontConverter/TriangulatedGlyph.cs:326-346 | the corner loop, with k, j and i moving together and breaking at the first clockwise corner, computes HoleSeed |
| SearchTrees.EmitContour | FontConverter/TriangulatedGlyph.cs:314-322 | the point loop adds the contour's points and its ring of segments, and advances the index by the point count |
| SearchTrees.SearchTree | FontConverter/TriangulatedGlyph.cs:310-351 | the recursive walk computes SearchFrom |
| SearchTrees.HalveFaults | FontConverter/TriangulatedGlyph.cs:337-341 | the halving loop only fails by indexing an empty contour or by running out of rounds |
| SearchTrees.SeedFaults | FontConverter/TriangulatedGlyph.cs:326-346 | the corner loop only fails by an index error or by running out of rounds |
| SearchTrees.SearchFaults | FontConverter/TriangulatedGlyph.cs:310-351 | the walk fails only with those two faults |
| SearchTrees.DescendFaults | FontConverter/TriangulatedGlyph.cs:314-349 | the same for one child |
| Polygons.Points | FontConverter/TriangulatedGlyph.cs:196 | a polygon's ToList is the points of its nodes, in order |
| Polygons.NodeIndex | FontConverter/TriangulatedGlyph.cs:91 | the position of the node with a given identity, or None exactly when no node has it |
| Polygons.NumberedIndex | FontConverter/TriangulatedGlyph.cs:38-46 | in nodes numbered consecutively from base, the node with identity base + m is at position m |
| Polygons.AddAfter | FontConverter/TriangulatedGlyph.cs:91 | LinkedList.AddAfter puts the new node directly after the given one and keeps the rest in order; it fails exactly when the node is not in the list |
| Winding.RayParameters | FontConverter/TriangulatedGlyph.cs:128-132 | u is the fraction of the edge where it meets the point's row |
| Winding.Crossing | FontConverter/TriangulatedGlyph.cs:117-153 | an edge contributes -1, 0 or +1: +1 only going down across the row, -1 only going up |
| Winding.RightCrossing | FontConverter/TriangulatedGlyph.cs:117-153 | the corrected contribution, also between -1 and +1 |
| Winding.EdgeFraction | FontConverter/TriangulatedGlyph.cs:128-132 | a crossing edge meets the row strictly between its end points, at the x the model calls CrossingX |
| Winding.RayHitsAtOrRight | FontConverter/TriangulatedGlyph.cs:131-134 | for a crossing edge, the test t >= 0, u in [0, 1] holds exactly when the crossing is at or right of the point |
| Winding.CrossingBetween | FontConverter/TriangulatedGlyph.cs:122-126 | the crossing lies between the end points' x coordinates |
| Winding.CrossingCounts | FontConverter/TriangulatedGlyph.cs:117-153 | an edge counts +1 going down and -1 going up exactly when both ends are right of the point, or they straddle its column and the crossing is at or right of it; edges with an end on the row count 0 |
| Winding.CrossingAgrees | FontConverter/TriangulatedGlyph.cs:122-126 | away from the point's column, the source's count and the corrected one agree |
| Winding.OnEdge | FontConverter/TriangulatedGlyph.cs:129-132 | the point a fraction l of the way along the edge |
| Winding.MeetsRowOnce | FontConverter/TriangulatedGlyph.cs:120 | a crossing edge meets the point's row only at its crossing |
| Winding.OneSideMissesRow | FontConverter/TriangulatedGlyph.cs:120 | an edge wholly above or below the row never meets it |
| Winding.RightCrossingMeetsRay | FontConverter/TriangulatedGlyph.cs:108-158 | the corrected count is nonzero exactly for edges that meet the ray from the point, when neither end lies on the row, and its sign is the edge's direction |
| Winding.CrossingReversed | FontConverter/TriangulatedGlyph.cs:120-153 | reversing an edge negates its count, both as written and corrected |
| Winding.Count | FontConverter/TriangulatedGlyph.cs:117-153 | each rule's contribution lies in [-1, 1] |
| Winding.EdgeSum | FontConverter/TriangulatedGlyph.cs:115-154 | the sum over n edges lies in [-n, n] |
| Winding.OneSideAddsNothing | FontConverter/TriangulatedGlyph.cs:115-154 | a contour wholly above or below the point's row adds nothing |
| Winding.RulesAgree | FontConverter/TriangulatedGlyph.cs:108-158 | when no contour point lies on the point's column, both rules give the same winding number |
| Winding.EdgesAgree | FontConverter/TriangulatedGlyph.cs:115-154 | the same for one contour |
| Winding.ColumnEndpointMissed | FontConverter/TriangulatedGlyph.cs:120-126 | the triangle (0,1), (2,-1), (-2,-1) surrounds the origin, yet its winding number as written is 0; the corrected count gives 1 |
| Winding.ContourWinding | FontConverter/TriangulatedGlyph.cs:115-154 | the inner loop, with a trailing b, computes EdgeSum |
| Winding.GetWindingNumber | FontConverter/TriangulatedGlyph.cs:108-158 | the loop over the contours computes WindingNumber |
| Triangles.New | FontConverter/Triangle.cs:21-26 | the constructor stores A, B and C; BNode is null and IsInside false |
| Triangles.Quadrant | FontConverter/Triangle.cs:32-48 | quadrants 0 and 1 are exactly the vertices level with or below the point, 0 and 3 exactly those level with or left of it |
| Triangles.Turn | FontConverter/Triangle.cs:72-89 | the change of the turn count is in [-2, 2] and agrees with the quadrant difference modulo 4; the switch returns early (None) only on a two-quadrant jump |
| Triangles.NoneStaysNone | FontConverter/Triangle.cs:81-82 | once the loop has returned true, later edges do not change the verdict |
| Triangles.AlphaTracksQuadrant | FontConverter/Triangle.cs:50-93 | after n edges, alpha is congruent modulo 4 to the quadrant of vertex n-1 minus that of the last vertex |
| Triangles.WholeTurns | FontConverter/Triangle.cs:50-96 | around the whole polygon alpha is a multiple of 4 |
| Triangles.Contains | FontConverter/Triangle.cs:28-97 | the quadrant loop returns true exactly when some edge passes through the point or alpha ends at +4 or -4 |
| Triangles.Corners | FontConverter/Triangle.cs:101-102 | the polygon of a triangle has its three corners |
| Triangles.IntersectsWithSymmetric | FontConverter/Triangle.cs:99-113 | IntersectsWith tests the corners of each triangle against the other, so it is symmetric |
| Triangles.Area | FontConverter/Triangle.cs:115-118 | the area is never negative, and is zero exactly for collinear corners |
| Triangles.Split | FontConverter/Triangle.cs:120-132 | the new on-curve point is (B + 2A + C) / 4; the halves are (a1, B, cb) and (a2, cb, C) with no node yet |
| Triangles.SplitOnCurve | FontConverter/Triangle.cs:120-126 | the new point is the quadratic curve B-A-C at parameter 1/2 |
| Triangles.SplitAreas | FontConverter/Triangle.cs:120-132 | each half has an eighth of the area of the triangle, so splitting shrinks triangles |
| Splitting.SplitAt | FontConverter/TriangulatedGlyph.cs:87-93 | splitting fails with a null reference when BNode is null and otherwise succeeds exactly when the node is in its polygon; that polygon gains one node, the others are unchanged, the first half keeps BNode and the second gets the new node |
| Splitting.Comparisons | FontConverter/TriangulatedGlyph.cs:78-84 | the table records, for every pair, whether triangle i qualifies against j: not a neighbour, intersecting, and of larger area |
| Splitting.FirstOnly | FontConverter/TriangulatedGlyph.cs:84-96 | the corrected table keeps only each row's first hit |
| Splitting.SplitKeepsLinks | FontConverter/TriangulatedGlyph.cs:89-93 | splitting a triangle whose node is in its polygon succeeds, and every node that was held before is still held, and so are both halves' nodes |
| Splitting.StepLinked | FontConverter/TriangulatedGlyph.cs:78-97 | one comparison, on triangles whose nodes are all held, succeeds and keeps them held |
| Splitting.ScanLinked | FontConverter/TriangulatedGlyph.cs:78-97 | the same for the inner loop |
| Splitting.RowsLinked | FontConverter/TriangulatedGlyph.cs:74-98 | the same for the outer loop |
| Splitting.ScanQueues | FontConverter/TriangulatedGlyph.cs:78-97 | the inner loop sets the split flag exactly on a hit, queues i once per hit and adds two halves per hit |
| Splitting.RowsQueue | FontConverter/TriangulatedGlyph.cs:74-98 | the outer loop queues the rows from the last down to the first, each once per hit, and changes nothing when no row has a hit |
| Splitting.HitsCount | FontConverter/TriangulatedGlyph.cs:78-97 | a row has a hit exactly when some comparison in it qualifies |
| Splitting.AnyHitExists | FontConverter/TriangulatedGlyph.cs:74-98 | some row has a hit exactly when some entry of the table is set |
| Splitting.FirstOnlyAnyHit | FontConverter/TriangulatedGlyph.cs:84-96 | the corrected table has a hit exactly when the table as written does |
| Splitting.AnyHitIsSomeQualify | FontConverter/TriangulatedGlyph.cs:74-98 | both tables have a hit exactly when some triangle qualifies against another |
| Splitting.PassFacts | FontConverter/TriangulatedGlyph.cs:68-106 | a pass reports a split exactly when its table has a hit and otherwise leaves the triangles alone; on linked triangles it only fails by an index error and keeps them linked |
| Splitting.SplitPassFacts | FontConverter/TriangulatedGlyph.cs:68-106 | both passes report a split exactly when some triangle qualifies, leave the triangles alone otherwise, and keep linked triangles linked |
| Splitting.FirstOnlyHits | FontConverter/TriangulatedGlyph.cs:84-96 | a row of the corrected table has one hit if the row as written has any, and none otherwise |
| Splitting.HitRows | FontConverter/TriangulatedGlyph.cs:74-98 | the rows with a hit |
| Splitting.SplitSet | FontConverter/TriangulatedGlyph.cs:74-98 | the triangles that qualify against some other |
| Splitting.HitRowsAreSplitSet | FontConverter/TriangulatedGlyph.cs:74-98 | the rows with a hit are exactly the triangles that qualify |
| Splitting.QueuedDecreasing | FontConverter/TriangulatedGlyph.cs:74-98 | with at most one hit per row the queue is strictly decreasing and holds exactly the rows with one hit |
| Splitting.FirstOnlyRow | FontConverter/TriangulatedGlyph.cs:84-96 | a corrected row has at most one hit, and one exactly when the row as written has any |
| Splitting.QueuedOnce | FontConverter/TriangulatedGlyph.cs:74-101 | the corrected queue is strictly decreasing, holds each row with a hit exactly once, and only valid indices |
| Splitting.PassOnceExactWith | FontConverter/TriangulatedGlyph.cs:68-106 | the corrected pass over any table succeeds on linked triangles, removes exactly the rows with a hit keeping the rest in order, and appends two halves for each |
| Splitting.PassOnceExact | FontConverter/TriangulatedGlyph.cs:68-106 | the corrected pass removes exactly the triangles that qualify against another, keeps the others in order and appends two halves for each |
| Splitting.FirstOnlyUnchanged | FontConverter/TriangulatedGlyph.cs:84-96 | with at most one hit per row the correction changes nothing, so the two passes agree |
| Splitting.QueuedTwiceFront | FontConverter/TriangulatedGlyph.cs:95-101 | two hits in row 0 and none elsewhere queue index 0 twice |
| Splitting.TwiceSplitDropsNextWith | FontConverter/TriangulatedGlyph.cs:74-103 | when row 0 of any table has exactly two hits and no other row has one, the pass as written removes triangles 0 and 1 and appends four halves |
| Splitting.TwiceSplitDropsNext | FontConverter/TriangulatedGlyph.cs:74-103 | a triangle that qualifies against two others makes the pass as written delete the next triangle, which was never split, and add the halves twice |
| Splitting.Table | FontConverter/TriangulatedGlyph.cs:84-96 | as written a pass works from the whole table, so a triangle is split once per triangle it qualifies against; corrected only from each row's first hit |
| Splitting.PassesUnder | FontConverter/TriangulatedGlyph.cs:179-185 | the do-while loop under either rule runs at least one more pass and never more than four in all |
| Splitting.SplitPasses | FontConverter/TriangulatedGlyph.cs:179-185 | the constructor's passes, as written or corrected, number one to four |
| Splitting.Settles | FontConverter/TriangulatedGlyph.cs:180-185 | under either rule a pass that splits nothing leaves the triangles alone, and no entry of the table is set |
| Splitting.PassesNext | FontConverter/TriangulatedGlyph.cs:180-185 | one round of the do-while loop under either rule: the pass, then another round while it split and fewer than four have run |
| Splitting.PassesStop | FontConverter/TriangulatedGlyph.cs:180-185 | under either rule the loop stops before four passes only when the last table has no hit |
| Splitting.PassesLinked | FontConverter/TriangulatedGlyph.cs:180-185 | on linked triangles the passes keep them linked; the corrected passes always succeed and those as written fail only with an index error |
| Splitting.PassesFacts | FontConverter/TriangulatedGlyph.cs:179-185 | under either rule one to four passes run, fewer only when no triangle qualifies any more; on linked triangles they keep them linked, the corrected passes succeed and those as written fail only with an index error |
| Splitting.Compare | FontConverter/TriangulatedGlyph.cs:80-96 | the loop body computes one Step, and reports whether the pair qualifies |
| Splitting.ScanRow | FontConverter/TriangulatedGlyph.cs:78-97 | the inner loop computes Scan |
| Splitting.ScanRowFirst | FontConverter/TriangulatedGlyph.cs:78-97 | the inner loop, stopping after the first split, computes Scan over the corrected table |
| Splitting.ScanRows | FontConverter/TriangulatedGlyph.cs:74-98 | the outer loop computes Rows |
| Splitting.ScanRowsFirst | FontConverter/TriangulatedGlyph.cs:74-98 | the outer loop with the corrected inner loop computes Rows over the corrected table |
| Splitting.SplitTriangles | FontConverter/TriangulatedGlyph.cs:68-106 | the pass as written: the loops, then RemoveAt of each queued index and AddRange of the halves |
| Splitting.SplitTrianglesOnce | FontConverter/TriangulatedGlyph.cs:68-106 | the corrected pass, which splits a triangle at most once |
| Splitting.SplitUntilDone | FontConverter/TriangulatedGlyph.cs:177-185 | the do-while loop, calling SplitTriangles as written or the corrected pass by rule, computes SplitPasses |
| Classification.Probe | FontConverter/TriangulatedGlyph.cs:189 | the probe point is the midpoint of B and C |
| Classification.InsideCount | FontConverter/TriangulatedGlyph.cs:187-194 | the number of the first n triangles marked inside is at most n |
| Classification.Mark | FontConverter/TriangulatedGlyph.cs:191-193 | marking sets only this triangle's IsInside; it can fail only for an inside triangle, whose apex must be inserted after its node |
| Classification.Classify | FontConverter/TriangulatedGlyph.cs:187-194 | the loop keeps the number of triangles |
| Classification.MarkCounts | FontConverter/TriangulatedGlyph.cs:191-193 | an inside mark adds exactly one node, A, directly after B's node in B's polygon; an outside mark adds none |
| Classification.MarkLinked | FontConverter/TriangulatedGlyph.cs:191-193 | on linked triangles marking succeeds and keeps every node held |
| Classification.ClassifyLinked | FontConverter/TriangulatedGlyph.cs:187-194 | on linked triangles the loop succeeds and keeps them linked |
| Classification.ClassifyCounts | FontConverter/TriangulatedGlyph.cs:187-194 | the loop adds one node and one identity per inside triangle and no polygon |
| Classification.ClassifyMarks | FontConverter/TriangulatedGlyph.cs:187-194 | each visited triangle is marked by its own verdict and nothing else about it changes; the rest are untouched |
| Classification.ClassifyFailureStays | FontConverter/TriangulatedGlyph.cs:187-194 | a failing iteration ends the loop with that failure |
| Classification.MarkTriangle | FontConverter/TriangulatedGlyph.cs:189-193 | the loop body computes Mark |
| Classification.ClassifyTriangles | FontConverter/TriangulatedGlyph.cs:187-194 | the loop computes Classify, each triangle marked inside exactly when its probe's winding number is 0 |
| ListRemoval.RemoveAll | FontConverter/TriangulatedGlyph.cs:100-101 | RemoveAt in queue order fails only by an index out of range, and otherwise removes one element per index and adds none |
| ListRemoval.RemoveFails | FontConverter/TriangulatedGlyph.cs:100-101 | a failing RemoveAt ends the loop with that failure |
| ListRemoval.RemoveFrontTwice | FontConverter/TriangulatedGlyph.cs:100-101 | removing index 0 twice drops the first two elements |
| ListRemoval.Without | FontConverter/TriangulatedGlyph.cs:100-101 | the list without the elements at the given indices, never longer |
| ListRemoval.WithoutOneMore | FontConverter/TriangulatedGlyph.cs:100-101 | removing one more index below all the others removes exactly that element and keeps the ones before it |
| ListRemoval.RemoveDecreasing | FontConverter/TriangulatedGlyph.cs:100-101 | with strictly decreasing valid indices, RemoveAt in queue order removes exactly the elements at those indices, keeping the rest in order |
| ListRemoval.RemoveQueued | FontConverter/TriangulatedGlyph.cs:100-101 | the foreach loop computes RemoveAll |
| Vertices.FlagByte | FontConverter/TriangulatedGlyph.cs:413 | the flag byte is IsInside plus IsCurve, between 0 and 2, and 0 exactly for a vertex that is neither |
| Vertices.Plain | FontConverter/Vertex.cs:12-17 | the two-argument constructor leaves U, V and both flags at their defaults, so its flag byte is 0 |
| Vertices.Curve | FontConverter/Vertex.cs:19-27 | the five-argument constructor sets every field and IsCurve; its flag byte is 2 inside and 1 outside |
| Vertices.FlagMarksCurve | FontConverter/TriangulatedGlyph.cs:413-418 | for vertices the constructors build, the flag byte is 0, 1 or 2 and is nonzero exactly when U and V follow |
| MeshIndexing.Corners | FontConverter/TriangulatedGlyph.cs:206-214 | three corners per mesh triangle, in order |
| MeshIndexing.IdsNext | FontConverter/TriangulatedGlyph.cs:358-395 | each corner adds its identity to the identities seen |
| MeshIndexing.PlaceCounted | FontConverter/TriangulatedGlyph.cs:358-395 | each corner adds one index, and a vertex exactly when its identity is new |
| MeshIndexing.PlaceStored | FontConverter/TriangulatedGlyph.cs:358-395 | the dictionary holds exactly the identities seen, each mapped below highestIndex |
| MeshIndexing.PlaceHolding | FontConverter/TriangulatedGlyph.cs:358-395 | each identity's index names the vertex made from a corner with that identity |
| MeshIndexing.PlaceKeeps | FontConverter/TriangulatedGlyph.cs:358-395 | one corner keeps all of these facts |
| MeshIndexing.PrefixIndexed | FontConverter/TriangulatedGlyph.cs:358-395 | they hold after any number of corners |
| MeshIndexing.IndexBounds | FontConverter/TriangulatedGlyph.cs:206-214 | one index per corner, each naming a vertex, and one vertex per distinct identity |
| MeshIndexing.IndexFaithful | FontConverter/TriangulatedGlyph.cs:206-214 | when equal identities carry equal points, each corner's index names a vertex at that corner's point |
| MeshIndexing.IndexPlain | FontConverter/TriangulatedGlyph.cs:358-395 | every mesh vertex is built by the two-argument constructor, so it is neither a curve vertex nor inside |
| MeshIndexing.IndexVertices | FontConverter/TriangulatedGlyph.cs:353-398 | the three corner blocks, sharing the dictionary and highestIndex, compute three placements |
| MeshIndexing.IndexMesh | FontConverter/TriangulatedGlyph.cs:206-214 | the loop over the mesh's triangles appends each triangle's indices and vertices, giving the placement of all corners |
| MeshIndexing.PlaceAllBehind | FontConverter/TriangulatedGlyph.cs:212-213 | earlier output in front does not change what the placements add |
| MeshIndexing.PlaceAllAppend | FontConverter/TriangulatedGlyph.cs:206-214 | placing two runs of corners is placing the first, then the second |
| MeshIndexing.PrefixExtends | FontConverter/TriangulatedGlyph.cs:206-214 | one more triangle appends its own placement against the shared dictionary |
| BinaryWriters.BinaryWriter.constructor | FontConverter/GameUtilsFont.cs:41 | a new writer has written nothing |
| BinaryWriters.BinaryWriter.WriteByte | FontConverter/TriangulatedGlyph.cs:413 | one byte is appended |
| BinaryWriters.BinaryWriter.WriteBytes | FontConverter/GameUtilsFont.cs:43 | the array's bytes are appended, with no length |
| BinaryWriters.BinaryWriter.WriteInt32 | FontConverter/GameUtilsFont.cs:49-53 | four little-endian bytes are appended |
| BinaryWriters.BinaryWriter.WriteSingle | FontConverter/TriangulatedGlyph.cs:411-417 | the float's four little-endian bytes are appended |
| BinaryWriters.BinaryWriter.WriteChar | FontConverter/GameUtilsFont.cs:58 | with the UTF-16 encoding a character is two little-endian bytes; a lone surrogate is refused and nothing is written |
| TriangulatedGlyphs.Blank | FontConverter/TriangulatedGlyph.cs:162-174 | a compound glyph, or one without contours, keeps empty buffers and the metric's advance width and left side bearing |
| TriangulatedGlyphs.ContourLists | FontConverter/TriangulatedGlyph.cs:113-115 | the glyph's contours as the winding number reads them |
| TriangulatedGlyphs.PolygonLists | FontConverter/TriangulatedGlyph.cs:196 | ToList of each polygon, in order |
| TriangulatedGlyphs.Trace | FontConverter/TriangulatedGlyph.cs:176-200 | a null contour makes the constructor fail with a null reference; a trace that succeeds met no null contour |
| TriangulatedGlyphs.CurveOf | FontConverter/TriangulatedGlyph.cs:220-225 | three curve vertices per curve triangle, each inside exactly when the triangle is |
| TriangulatedGlyphs.CurveVertices | FontConverter/TriangulatedGlyph.cs:218-226 | three vertices per curve triangle |
| TriangulatedGlyphs.Serial | FontConverter/TriangulatedGlyph.cs:220-224 | each index added is the vertex count at that moment, so the indices count up |
| TriangulatedGlyphs.Build | FontConverter/TriangulatedGlyph.cs:160-229 | a compound glyph, or one with no contours, gives empty buffers; every built glyph carries the metric's advance width and left side bearing |
| TriangulatedGlyphs.CurveLayout | FontConverter/TriangulatedGlyph.cs:218-226 | vertex m belongs to curve triangle m / 3, corner m % 3 in the order B, A, C |
| TriangulatedGlyphs.CurveVerticesCurve | FontConverter/TriangulatedGlyph.cs:220-225 | every curve vertex is a curve vertex, inside exactly when its triangle is |
| TriangulatedGlyphs.AssembleIndexed | FontConverter/TriangulatedGlyph.cs:202-227 | the buffers form a triangle list: three indices per triangle, each naming a vertex |
| TriangulatedGlyphs.AssembleCurves | FontConverter/TriangulatedGlyph.cs:202-227 | the mesh's indexing comes first, unchanged; then the curve triangles' vertices in order, with indices counting through them |
| TriangulatedGlyphs.CurvesAfter | FontConverter/TriangulatedGlyph.cs:218-226 | the curve vertices and their indices appended behind any buffers |
| TriangulatedGlyphs.AssembleWellFormed | FontConverter/TriangulatedGlyph.cs:202-227 | every vertex is well formed, and exactly those after the mesh's vertices are curve vertices |
| TriangulatedGlyphs.TraceMarks | FontConverter/TriangulatedGlyph.cs:187-194 | under either rule each curve triangle that reaches the buffers is inside exactly when the point halfway between B and C has winding number zero, computed as written or corrected by the same rule |
| TriangulatedGlyphs.BuildFaults | FontConverter/TriangulatedGlyph.cs:160-229 | the constructor fails with a null reference exactly when a contour is null; otherwise only as the tree walk fails or, with the split pass as written, by an index error in RemoveAt; the corrected split pass and the classification never fail |
| TriangulatedGlyphs.BuildIndexed | FontConverter/TriangulatedGlyph.cs:160-229 | a built glyph is a valid triangle list of well-formed vertices |
| TriangulatedGlyphs.TraceOf | FontConverter/TriangulatedGlyph.cs:176-200 | the constructor up to the triangulator, with the split pass and winding number of the rule, computes Trace |
| TriangulatedGlyphs.AppendCurves | FontConverter/TriangulatedGlyph.cs:218-226 | the loop over the curve triangles appends Serial indices and CurveVertices |
| TriangulatedGlyphs.Triangulate | FontConverter/TriangulatedGlyph.cs:160-229 | the constructor computes Build |
| TriangulatedGlyphs.VertexBytes | FontConverter/TriangulatedGlyph.cs:409-419 | a curve vertex takes 17 bytes, with U and V, and any other 9 |
| TriangulatedGlyphs.IndicesBytes | FontConverter/TriangulatedGlyph.cs:406 | four bytes per index |
| TriangulatedGlyphs.WriteVertex | FontConverter/TriangulatedGlyph.cs:410-418 | the loop body writes VertexBytes |
| TriangulatedGlyphs.WriteIndices | FontConverter/TriangulatedGlyph.cs:405-406 | the count, then each index |
| TriangulatedGlyphs.WriteVertices | FontConverter/TriangulatedGlyph.cs:408-419 | the count, then each vertex |
| TriangulatedGlyphs.Save | FontConverter/TriangulatedGlyph.cs:400-420 | advance width, left side bearing, the index block and the vertex block, in that order |
| TrueType.U32At | FontConverter/TrueTypeFile.cs:93-95 | a big-endian word of four bytes is an unsigned 32-bit value |
| TrueType.Ascii | FontConverter/TrueTypeFile.cs:92 | one character per byte, equal to the byte for ASCII bytes |
| TrueType.HeadersAt | FontConverter/TrueTypeFile.cs:88-98 | count table records of 16 bytes each, record k read at pos + 16k |
| TrueType.Directory | FontConverter/TrueTypeFile.cs:83-98 | the directory is read exactly when the count at offset 4 and all its 16-byte records fit the input, and has that many entries |
| TrueType.ReadDirectory | FontConverter/TrueTypeFile.cs:83-98 | the record loop computes Directory |
| TrueType.FindTable | FontConverter/TrueTypeFile.cs:100-120 | First fails, naming the tag, exactly when no table has it; otherwise it gives the first table with that tag |
| TrueType.ParseHead | FontConverter/TrueTypeFile.cs:126-138 | head succeeds exactly when its 52 bytes fit: version and revision words at +0 and +4, flags at +16, units per em at +18, style at +44, long loca exactly when the word at +50 is nonzero |
| TrueType.NameRecordsAt | FontConverter/TrueTypeFile.cs:147-159 | count name records of 12 bytes each, record k at pos + 12k |
| TrueType.NameText | FontConverter/TrueTypeFile.cs:161-176 | First fails, naming the ID, exactly when no Windows, Unicode BMP, US English record carries the ID; otherwise the bytes come from the first such record, at table offset + string offset + record offset |
| TrueType.NameRecordsSnoc | FontConverter/TrueTypeFile.cs:147-159 | one more record appends the record at the next 12-byte slot |
| TrueType.ReadNameRecord | FontConverter/TrueTypeFile.cs:149-157 | a record is read exactly when its 12 bytes fit |
| TrueType.ReadNameRecords | FontConverter/TrueTypeFile.cs:146-159 | the record loop succeeds exactly when all records fit, and reads NameRecordsAt |
| TrueType.ParseNameTable | FontConverter/TrueTypeFile.cs:140-177 | ParseNameTable computes DecodeNames |
| TrueType.ParseHhea | FontConverter/TrueTypeFile.cs:244-252 | hhea succeeds exactly when its 36 bytes fit: ascender, descender and line gap at +4, +6, +8 and the metric count at +34 |
| TrueType.LongMetrics | FontConverter/TrueTypeFile.cs:259-266 | n pairs of 4 bytes, pair k at p + 4k |
| TrueType.ShortMetrics | FontConverter/TrueTypeFile.cs:268-275 | n entries with the given advance width and a 2-byte left side bearing each |
| TrueType.DecodeHmtx | FontConverter/TrueTypeFile.cs:254-278 | more metrics than glyphs, or none for a non-empty font, is an index error; otherwise there is one metric per glyph, the first metricCount read as pairs and the rest reusing the last advance width |
| TrueType.ReadLongMetrics | FontConverter/TrueTypeFile.cs:258-266 | the first loop fills the front of the array with the pairs; it fails with an index error once a pair that fits the input does not fit the array |
| TrueType.ReadShortMetrics | FontConverter/TrueTypeFile.cs:268-275 | the second loop fills the rest, keeping the front; with no pair to reuse it fails with an index error |
| TrueType.ParseHmtxTable | FontConverter/TrueTypeFile.cs:254-278 | the two loops compute DecodeHmtx |
| TrueType.LocaOffsets | FontConverter/TrueTypeFile.cs:282-289 | glyphCount + 1 offsets are read exactly when they fit, each a doubled word or a long word |
| TrueType.AllOk | FontConverter/TrueTypeFile.cs:291-304 | when every glyph is read, one glyph per entry |
| TrueType.AllOkAt | FontConverter/TrueTypeFile.cs:291-304 | the glyph at j is the one read for entry j |
| TrueType.AllOkFirstFailure | FontConverter/TrueTypeFile.cs:291-304 | the first glyph that fails to read decides the failure |
| TrueType.GlyphResults | FontConverter/TrueTypeFile.cs:291-304 | one glyph read per pair of consecutive offsets |
| TrueType.DecodeGlyphs | FontConverter/TrueTypeFile.cs:291-304 | one glyph per pair of consecutive offsets |
| TrueType.DecodeGlyphsAt | FontConverter/TrueTypeFile.cs:294-302 | glyph j is empty when its offsets do not increase, and otherwise read at the glyf offset plus its own offset |
| TrueType.DecodeGlyphsFails | FontConverter/TrueTypeFile.cs:291-304 | the first glyph that fails to read ends the loop with its failure |
| TrueType.DecodeGlyf | FontConverter/TrueTypeFile.cs:280-305 | glyphCount glyphs |
| TrueType.ReadLocaOffsets | FontConverter/TrueTypeFile.cs:284-289 | the loca loop computes LocaOffsets |
| TrueType.Prefixed | FontConverter/TrueTypeFile.cs:291-304 | glyphs already read followed by the rest, or the rest's failure |
| TrueType.ReadGlyphAt | FontConverter/TrueTypeFile.cs:294-302 | the loop body computes GlyphAt |
| TrueType.ReadGlyphs | FontConverter/TrueTypeFile.cs:291-304 | the glyph loop computes DecodeGlyphs |
| TrueType.ParseGlyfTable | FontConverter/TrueTypeFile.cs:280-305 | ParseGlyfTable computes DecodeGlyf |
| TrueType.DecodeFontHeader | FontConverter/TrueTypeFile.cs:100-108 | a missing maxp fails first; on success maxp, head and name exist, the glyph count is the word at maxp + 4, head is read at its own offset and the names are decoded from the name table |
| TrueType.DecodeOutlines | FontConverter/TrueTypeFile.cs:110-121 | on success cmap, hhea, hmtx, glyf and loca exist; ascend, descend and line gap come from hhea, the metrics from hmtx with hhea's metric count, the glyphs from glyf and loca in head's index format, glyphCount of each; the dictionary has distinct keys; the names and head fields are the header's |
| TrueType.OutlinesDictionary | FontConverter/TrueTypeFile.cs:110-111 | the glyph dictionary is what the cmap table decodes to |
| TrueType.DecodeMetrics | FontConverter/TrueTypeFile.cs:113-121 | after the cmap: hhea, hmtx, glyf and loca exist, the vertical metrics come from hhea, the metrics from hmtx, the glyphs from glyf and loca, glyphCount of each; the dictionary and the header fields are kept |
| TrueType.DecodeFile | FontConverter/TrueTypeFile.cs:70-124 | a font that loads has all eight tables, as many glyphs and metrics as maxp counts, and a dictionary with distinct keys |
| TrueType.DecodeFileFields | FontConverter/TrueTypeFile.cs:100-121 | every field of a loaded font comes from its table: names from name, version to unitsPerEm from head, the dictionary from cmap, the vertical metrics from hhea, the metrics from hmtx and the glyphs from glyf and loca, as many as the word at maxp + 4 |
| TrueType.ReadFontHeader | FontConverter/TrueTypeFile.cs:100-108 | the lookups compute DecodeFontHeader |
| TrueType.ReadOutlines | FontConverter/TrueTypeFile.cs:110-121 | the lookups compute DecodeOutlines |
| TrueType.Load | FontConverter/TrueTypeFile.cs:70-124 | the constructor computes DecodeFile |
| TrueType.ShortLoca | FontConverter/TrueTypeFile.cs:287 | the short loca format: each even offset stored halved as a 2-byte word |
| TrueType.LongLoca | FontConverter/TrueTypeFile.cs:286 | the long loca format: each offset as a 4-byte word |
| TrueType.ShortLocaAt | FontConverter/TrueTypeFile.cs:287 | entry i sits at bytes 2i and 2i+1 |
| TrueType.LongLocaAt | FontConverter/TrueTypeFile.cs:286 | entry i sits at bytes 4i to 4i+3 |
| TrueType.ShortLocaEntry | FontConverter/TrueTypeFile.cs:287 | reading a short entry and doubling it gives back the even offset |
| TrueType.LongLocaEntry | FontConverter/TrueTypeFile.cs:286 | reading a long entry gives back the offset |
| TrueType.OffsetsFromEntries | FontConverter/TrueTypeFile.cs:284-289 | when every entry reads back, the loop reads all offsets |
| TrueType.ShortLocaDecodes | FontConverter/TrueTypeFile.cs:284-289 | even offsets below 2^17 stored in the short format read back unchanged |
| TrueType.LongLocaDecodes | FontConverter/TrueTypeFile.cs:284-289 | offsets below 2^32 stored in the long format read back unchanged |
| TrueType.LocaFormatsAgree | FontConverter/TrueTypeFile.cs:285-289 | for even offsets below 2^17 both formats read back the same offsets |
| CharacterMap.AddKeepsDistinct | FontConverter/TrueTypeFile.cs:229-236 | Dictionary.Add of a new key keeps the keys distinct |
| CharacterMap.Lookup | FontConverter/TrueTypeFile.cs:223-241 | a lookup finds a glyph exactly when the character is a key, and the pair is in the dictionary |
| CharacterMap.LookupFindsEntry | FontConverter/TrueTypeFile.cs:223-241 | with distinct keys, a lookup finds the glyph stored for the character |
| CharacterMap.GlyphIdFor | FontConverter/TrueTypeFile.cs:226-237 | with idRangeOffset 0 the glyph is idDelta + c; otherwise idDelta plus the word at idRangeOffset + 2(c - start) + the array position + 2i, which fails only past the end of the input |
| CharacterMap.FillAddsAll | FontConverter/TrueTypeFile.cs:223-239 | when every Add succeeds the keys stay distinct, the earlier entries stay, and each step adds its own pair in order |
| CharacterMap.DuplicateFails | FontConverter/TrueTypeFile.cs:229-236 | a character mapped twice makes Dictionary.Add fail |
| CharacterMap.SegmentStepsHold | FontConverter/TrueTypeFile.cs:228-237 | each character of the segment's range is visited with its glyph |
| CharacterMap.StepsHold | FontConverter/TrueTypeFile.cs:224-239 | each character of every segment but the last is visited with its glyph |
| CharacterMap.SegmentMapping | FontConverter/TrueTypeFile.cs:224-239 | every character of every segment but the last maps to its glyph in the finished dictionary |
| CharacterMap.RecordsAt | FontConverter/TrueTypeFile.cs:185-194 | count encoding records of 8 bytes each, record k at pos + 8k |
| CharacterMap.SubtableOffset | FontConverter/TrueTypeFile.cs:196 | the offset of the first platform 3, encoding 1 record, and 0 (the default record's offset) when there is none |
| CharacterMap.Segments | FontConverter/TrueTypeFile.cs:197-221 | fails only at the end of the data; the segment arrays, with the position of the idRangeOffset array 16 + 6n bytes after the subtable |
| CharacterMap.SegmentTable | FontConverter/TrueTypeFile.cs:203-221 | succeeds exactly when the four arrays of n words fit in the data, and otherwise fails at the end of the stream |
| CharacterMap.SegmentArrays | FontConverter/TrueTypeFile.cs:205-221 | n segments with non-negative range offsets |
| CharacterMap.SegmentsOf | FontConverter/TrueTypeFile.cs:205-221 | one segment per index of the four arrays |
| CharacterMap.SegmentTableLaidOut | FontConverter/TrueTypeFile.cs:205-221 | segment k has the k-th word of endCode at +14, of startCode at +16 + 2n, of idDelta (signed) at +16 + 4n and of idRangeOffset at +16 + 6n |
| CharacterMap.SegmentsLaidOut | FontConverter/TrueTypeFile.cs:197-221 | a header that reads has length and segCountX2 words, and its segCountX2 / 2 segments lie as SegmentTableLaidOut says |
| CharacterMap.DecodeCmap | FontConverter/TrueTypeFile.cs:179-242 | a decoded character map has distinct keys |
| CharacterMap.DecodeSubtable | FontConverter/TrueTypeFile.cs:197-241 | a decoded dictionary has distinct keys |
| CharacterMap.FillSegments | FontConverter/TrueTypeFile.cs:223-241 | the filling loop, when it succeeds, gives distinct keys |
| CharacterMap.UppercaseSegment | FontConverter/TrueTypeFile.cs:226-229 | a first segment 65..90 with idDelta -64 maps 'A' to glyph 1 and 'Z' to glyph 26 |
| CharacterMap.ReadEncodingRecords | FontConverter/TrueTypeFile.cs:181-194 | the record loop computes EncodingRecords |
| CharacterMap.FillAppend | FontConverter/TrueTypeFile.cs:223-239 | filling two runs of steps is filling the first, then the second unless the first failed |
| CharacterMap.FillSegment | FontConverter/TrueTypeFile.cs:226-238 | the loops over one segment's characters compute its Fill |
| CharacterMap.FillDictionary | FontConverter/TrueTypeFile.cs:223-241 | the loop over all segments but the last computes FillSegments |
| CharacterMap.ReadSegmentArrays | FontConverter/TrueTypeFile.cs:205-221 | the four array loops succeed exactly when the arrays fit, and read SegmentArrays |
| CharacterMap.ReadSegments | FontConverter/TrueTypeFile.cs:197-221 | the header and array reads compute Segments |
| CharacterMap.ReadSegmentTable | FontConverter/TrueTypeFile.cs:203-221 | computes SegmentTable |
| CharacterMap.ReadSubtable | FontConverter/TrueTypeFile.cs:197-241 | computes DecodeSubtable |
| CharacterMap.ParseCmapTable | FontConverter/TrueTypeFile.cs:179-242 | ParseCmapTable computes DecodeCmap |
| Fonts.IntAt | GameUtils/Graphics/Font.cs:23-28 | ReadInt32 succeeds exactly when four bytes remain, gives a signed 32-bit value and advances by four |
| Fonts.SingleAt | GameUtils/Graphics/Font.cs:33 | ReadSingle succeeds exactly when four bytes remain and advances by four |
| Fonts.ByteAt | GameUtils/Graphics/Font.cs:34 | ReadByte gives the next byte exactly when one remains |
| Fonts.CharAt | GameUtils/Graphics/Font.cs:88 | ReadChar with the UTF-16 encoding gives a 16-bit non-surrogate character and advances by two: the code unit itself, or U+FFFD for an unpaired low surrogate; it runs out exactly when fewer than two bytes remain, and otherwise fails exactly on a high surrogate |
| Fonts.LowSurrogateReadsReplacement | GameUtils/Graphics/Font.cs:88 | the bytes 00 DC, a lone low surrogate, read as the key U+FFFD |
| Fonts.BytesAt | GameUtils/Graphics/Font.cs:76 | ReadBytes fails exactly on a negative count, gives at most count bytes (fewer at the end of the stream) and exactly the next count bytes when they remain |
| Fonts.VertexAt | GameUtils/Graphics/Font.cs:31-38 | a vertex is x, y and a mode byte, and the Bezier coordinates follow exactly when the mode is not Default: 9 or 17 bytes |
| Fonts.IndicesFrom | GameUtils/Graphics/Font.cs:27-28 | the index loop reads one index per iteration |
| Fonts.VerticesFrom | GameUtils/Graphics/Font.cs:31-39 | the vertex loop reads one vertex per iteration |
| Fonts.IndexArrayAt | GameUtils/Graphics/Font.cs:26-28 | the array has as many indices as its stored count; a negative count overflows |
| Fonts.VertexArrayAt | GameUtils/Graphics/Font.cs:30-39 | the array has as many vertices as its stored count; a negative count overflows |
| Fonts.GlyphAt | GameUtils/Graphics/Font.cs:21-40 | a glyph record starts with its advance width and left side bearing |
| Fonts.EntriesFrom | GameUtils/Graphics/Font.cs:87-88 | the map loop reads six bytes per entry, keeps earlier entries and distinct keys, and fails on a character already present |
| Fonts.Iterations | GameUtils/Graphics/Font.cs:87 | a for loop to count runs count times, and not at all for a negative count |
| Fonts.HeaderAt | GameUtils/Graphics/Font.cs:75-83 | the counted name bytes, then five Int32 fields; a negative name length fails |
| Fonts.DictionaryAt | GameUtils/Graphics/Font.cs:85-88 | as many entries as the stored count says, with distinct 16-bit keys |
| Fonts.GlyphsFrom | GameUtils/Graphics/Font.cs:91-92 | the glyph loop reads one glyph per iteration |
| Fonts.GlyphArrayAt | GameUtils/Graphics/Font.cs:90-92 | the array has as many glyphs as its stored count; a negative count overflows |
| Fonts.Body | GameUtils/Graphics/Font.cs:73-93 | a read font has a map with distinct character keys |
| Fonts.Load | GameUtils/Graphics/Font.cs:98-107 | loading fails as invalid data exactly when the stream does not start with "gufont"; a loaded map has distinct character keys |
| Fonts.GetGlyph | GameUtils/Graphics/Font.cs:67-71 | a mapped character gets Glyphs[i] for the index i the map stores with it, when i is in range; any other character gets glyph 0, when there is one; otherwise the index is out of range |
| Fonts.GetGlyphMapped | GameUtils/Graphics/Font.cs:69-70 | with distinct keys, a character stored with glyph index i gets exactly Glyphs[i], and an index error when i is out of range |
| Fonts.RepeatedKeyRefused | GameUtils/Graphics/Font.cs:88 | Dictionary.Add of a character read a second time fails |
| Fonts.BinaryReader.constructor | GameUtils/Graphics/Font.cs:100 | a reader starts at the start of the stream |
| Fonts.BinaryReader.ReadInt32 | GameUtils/Graphics/Font.cs:23 | computes IntAt at the current position and moves past it |
| Fonts.BinaryReader.ReadSingle | GameUtils/Graphics/Font.cs:33 | computes SingleAt at the current position and moves past it |
| Fonts.BinaryReader.ReadByte | GameUtils/Graphics/Font.cs:34 | computes ByteAt at the current position and moves past it |
| Fonts.BinaryReader.ReadChar | GameUtils/Graphics/Font.cs:88 | computes CharAt at the current position and moves past it |
| Fonts.BinaryReader.ReadBytes | GameUtils/Graphics/Font.cs:76 | computes BytesAt at the current position and moves past it |
| Fonts.ReadIndices | GameUtils/Graphics/Font.cs:26-28 | the index loop computes IndexArrayAt |
| Fonts.ReadVertex | GameUtils/Graphics/Font.cs:33-38 | the vertex body computes VertexAt |
| Fonts.ReadVerticesFrom | GameUtils/Graphics/Font.cs:31-39 | the vertex loop computes VerticesFrom |
| Fonts.ReadVertices | GameUtils/Graphics/Font.cs:30-39 | computes VertexArrayAt |
| Fonts.ReadGlyph | GameUtils/Graphics/Font.cs:21-40 | the Glyph constructor computes GlyphAt |
| Fonts.ReadGlyphsFrom | GameUtils/Graphics/Font.cs:91-92 | the glyph loop computes GlyphsFrom |
| Fonts.ReadGlyphs | GameUtils/Graphics/Font.cs:90-92 | computes GlyphArrayAt |
| Fonts.ReadDictionary | GameUtils/Graphics/Font.cs:85-88 | the map loop computes DictionaryAt |
| Fonts.ReadHeader | GameUtils/Graphics/Font.cs:75-83 | computes HeaderAt |
| Fonts.ReadBody | GameUtils/Graphics/Font.cs:73-93 | Read computes Body |
| Fonts.LoadFont | GameUtils/Graphics/Font.cs:98-107 | the stream constructor computes Load |
| GameUtilsFonts.BuildGlyphs | FontConverter/GameUtilsFont.cs:31-33 | glyph i is built from glyph i and metric i, and the loop fails when a glyph has no metric |
| GameUtilsFonts.FromTrueType | FontConverter/GameUtilsFont.cs:21-34 | under either rule, the name is the family name, and style, units per em, ascend, descend, line gap and the dictionary are copied; there is one glyph per TrueType glyph, and at least as many metrics |
| GameUtilsFonts.MissingMetricFails | FontConverter/GameUtilsFont.cs:31-33 | fewer metrics than glyphs is an index error |
| GameUtilsFonts.FromTrueTypePairs | FontConverter/GameUtilsFont.cs:31-33 | each glyph is the triangulation of its own glyph and metric, under the rule of the conversion |
| GameUtilsFonts.FromTrueTypeIndexed | FontConverter/GameUtilsFont.cs:21-34 | every converted glyph is a valid triangle list of well-formed vertices |
| GameUtilsFonts.BuildAll | FontConverter/GameUtilsFont.cs:31-33 | the loop computes BuildGlyphs |
| GameUtilsFonts.Convert | FontConverter/GameUtilsFont.cs:21-34 | the constructor, with the split pass and winding number of the rule, computes FromTrueType |
| GameUtilsFonts.FailureStays | FontConverter/GameUtilsFont.cs:31-33 | a failing glyph ends the loop with that failure |
| GameUtilsFonts.Key | FontConverter/GameUtilsFont.cs:58 | a key is a 16-bit char |
| GameUtilsFonts.EntryBytes | FontConverter/GameUtilsFont.cs:58-59 | six bytes per entry |
| GameUtilsFonts.EntriesBytes | FontConverter/GameUtilsFont.cs:56-60 | six bytes per entry, one after the other |
| GameUtilsFonts.FirstUnwritable | FontConverter/GameUtilsFont.cs:56-60 | the first key Write(char) refuses, or the map's length |
| GameUtilsFonts.WriteHeader | FontConverter/GameUtilsFont.cs:43-53 | magic, the counted UTF-8 name, then five Int32 fields |
| GameUtilsFonts.WriteDictionary | FontConverter/GameUtilsFont.cs:55-60 | the count and every entry up to the first refused key, and success exactly when none is refused |
| GameUtilsFonts.WriteGlyphs | FontConverter/GameUtilsFont.cs:62-64 | the count and each glyph's Save |
| GameUtilsFonts.SaveFont | FontConverter/GameUtilsFont.cs:36-67 | the whole container when no key is a lone surrogate; otherwise the header and the entries before the refused key |
| FontRoundTrip.ReadBackAll | GameUtils/Graphics/Font.cs:30-39 | each vertex reads back as itself, its flag byte as mode |
| FontRoundTrip.ReadBackGlyphs | GameUtils/Graphics/Font.cs:90-92 | each glyph reads back as itself |
| FontRoundTrip.Keyed | FontConverter/GameUtilsFont.cs:58 | the map with each key as a char |
| FontRoundTrip.KeyedAt | FontConverter/GameUtilsFont.cs:58 | entry i's key comes back as its char, with its glyph index |
| FontRoundTrip.IntRead | GameUtils/Graphics/Font.cs:23 | ReadInt32 reads back what Write(int) wrote |
| FontRoundTrip.SingleRead | GameUtils/Graphics/Font.cs:33 | ReadSingle reads back what Write(float) wrote |
| FontRoundTrip.CharRead | GameUtils/Graphics/Font.cs:88 | ReadChar reads back what Write(char) wrote |
| FontRoundTrip.IndicesRepeated | GameUtils/Graphics/Font.cs:27-28 | the index loop repeats ReadInt32 |
| FontRoundTrip.VerticesRepeated | GameUtils/Graphics/Font.cs:31-39 | the vertex loop repeats the vertex read |
| FontRoundTrip.GlyphsChain | GameUtils/Graphics/Font.cs:91-92 | glyphs each read where the last ended make the loop read them all |
| FontRoundTrip.IndicesLinked | FontConverter/TriangulatedGlyph.cs:406 | each written index reads back where the previous one ended |
| FontRoundTrip.IndicesRead | FontConverter/TriangulatedGlyph.cs:406 | the written indices read back in order |
| FontRoundTrip.VertexRead | FontConverter/TriangulatedGlyph.cs:410-418 | a written vertex reads back, its flag byte as mode, U and V exactly for curve vertices |
| FontRoundTrip.VerticesLinked | FontConverter/TriangulatedGlyph.cs:408-419 | each written vertex reads back where the previous one ended |
| FontRoundTrip.VertexAtOffset | FontConverter/TriangulatedGlyph.cs:408-419 | vertex i reads back at its offset |
| FontRoundTrip.VerticesRead | FontConverter/TriangulatedGlyph.cs:408-419 | the written vertices read back in order |
| FontRoundTrip.IndexArrayStep | GameUtils/Graphics/Font.cs:26-28 | the count, then the loop |
| FontRoundTrip.IndexArrayRead | FontConverter/TriangulatedGlyph.cs:405-406 | a written index block reads back |
| FontRoundTrip.VertexArrayStep | GameUtils/Graphics/Font.cs:30-39 | the count, then the loop |
| FontRoundTrip.VertexArrayRead | FontConverter/TriangulatedGlyph.cs:408-419 | a written vertex block reads back |
| FontRoundTrip.GlyphLayout | FontConverter/TriangulatedGlyph.cs:400-420 | where the parts of a glyph record lie |
| FontRoundTrip.GlyphStep | GameUtils/Graphics/Font.cs:21-40 | the two metrics, the index array, then the vertex array |
| FontRoundTrip.GlyphMetricsRead | GameUtils/Graphics/Font.cs:23-24 | the advance width and left side bearing read back |
| FontRoundTrip.GlyphIndicesRead | GameUtils/Graphics/Font.cs:26-28 | the indices read back |
| FontRoundTrip.GlyphVerticesRead | GameUtils/Graphics/Font.cs:30-39 | the vertices read back |
| FontRoundTrip.GlyphRead | GameUtils/Graphics/Font.cs:21-40 | a saved glyph reads back |
| FontRoundTrip.GlyphsLinked | FontConverter/GameUtilsFont.cs:63-64 | each saved glyph reads back where the previous one ended |
| FontRoundTrip.GlyphAtOffset | FontConverter/GameUtilsFont.cs:63-64 | glyph i reads back at its offset |
| FontRoundTrip.GlyphsRead | GameUtils/Graphics/Font.cs:91-92 | the saved glyphs read back in order |
| FontRoundTrip.GlyphArrayStep | GameUtils/Graphics/Font.cs:90-92 | the count, then the loop |
| FontRoundTrip.GlyphArrayRead | FontConverter/GameUtilsFont.cs:62-64 | a saved glyph block reads back |
| FontRoundTrip.EntriesHead | FontConverter/GameUtilsFont.cs:58-59 | the first written entry reads back as its char and glyph index |
| FontRoundTrip.RepeatedKey | GameUtils/Graphics/Font.cs:88 | a key already read makes the keys not distinct |
| FontRoundTrip.EntriesRead | GameUtils/Graphics/Font.cs:87-88 | written entries read back keyed by chars, or fail on a char read twice |
| FontRoundTrip.HeaderRead | GameUtils/Graphics/Font.cs:75-83 | a written header starts with the magic and reads back as the font's name bytes and five fields |
| FontRoundTrip.DictionaryStep | GameUtils/Graphics/Font.cs:86-88 | the count, then the loop |
| FontRoundTrip.DictionaryRead | GameUtils/Graphics/Font.cs:85-88 | a written map reads back keyed by chars, or fails on a repeated char |
| FontRoundTrip.BodyStep | GameUtils/Graphics/Font.cs:73-93 | the header, the map, then the glyphs |
| FontRoundTrip.BodyFails | GameUtils/Graphics/Font.cs:85-88 | a failing map ends the read |
| FontRoundTrip.LoadBody | GameUtils/Graphics/Font.cs:102-105 | after the magic, loading reads the body |
| FontRoundTrip.FontLayout | FontConverter/GameUtilsFont.cs:43-64 | where the header, the map and the glyphs of a saved container lie |
| FontRoundTrip.HeaderSection | FontConverter/GameUtilsFont.cs:43-53 | the saved header reads back |
| FontRoundTrip.DictionarySection | FontConverter/GameUtilsFont.cs:55-60 | the saved map reads back keyed by chars, or fails on a repeated char |
| FontRoundTrip.GlyphSection | FontConverter/GameUtilsFont.cs:62-64 | the saved glyphs read back |
| FontRoundTrip.WriteThenRead | FontConverter/GameUtilsFont.cs:36-67 | loading a saved font gives it back, its keys as chars, its vertices with flag byte as mode, unless two keys are the same char, when loading fails |
| FontRoundTrip.MappedGlyphAfterRoundTrip | GameUtils/Graphics/Font.cs:67-71 | after the round trip, a mapped character gets the glyph the converter built for it |
| FontRoundTrip.UnmappedGlyphAfterRoundTrip | GameUtils/Graphics/Font.cs:67-71 | after the round trip, an unmapped character gets glyph 0 |
| BufferedLists.RemoveFirst | GameUtils/Collections/BufferedList.cs:264 | List.Remove leaves a list without the item unchanged |
| BufferedLists.RemoveFirstLength | GameUtils/Collections/BufferedList.cs:264 | removing an item the list holds shortens it by one |
| BufferedLists.RemoveFirstCounts | GameUtils/Collections/BufferedList.cs:264 | List.Remove takes away one occurrence of the item and nothing else |
| BufferedLists.RemoveFirstSplits | GameUtils/Collections/BufferedList.cs:264 | it is the first occurrence that goes, and the order of the rest is kept |
| BufferedLists.ApplyAllAppend | GameUtils/Collections/BufferedList.cs:72-73 | draining a queue in two parts is draining it whole |
| BufferedLists.AddedInOrder | GameUtils/Collections/BufferedList.cs:242-248 | the added payload is every queued add's item, in queue order |
| BufferedLists.AddsAppend | GameUtils/Collections/BufferedList.cs:242-248 | a queue of adds appends its items to the list in order and removes nothing |
| BufferedLists.ListFromSources | GameUtils/Collections/BufferedList.cs:65-78 | applying the queue never makes up items: the list holds only items it held before or that were added |
| BufferedLists.ClearLast | GameUtils/Collections/BufferedList.cs:271-283 | a clear empties the list and reports every item it held as removed |
| BufferedLists.RemoveAbsent | GameUtils/Collections/BufferedList.cs:260-266 | removing an item the list does not hold changes nothing, but the item is still reported as removed |
| BufferedLists.BufferedList.constructor | GameUtils/Collections/BufferedList.cs:55-60 | a new list is empty with no pending change |
| BufferedLists.BufferedList.Item | GameUtils/Collections/BufferedList.cs:41-50 | the indexer gives the applied item at the index, and fails exactly outside the list |
| BufferedLists.BufferedList.Add | GameUtils/Collections/BufferedList.cs:84-90 | queues an add change; the applied list is unchanged |
| BufferedLists.BufferedList.Remove | GameUtils/Collections/BufferedList.cs:96-103 | queues a remove change and returns true; the applied list is unchanged |
| BufferedLists.BufferedList.Clear | GameUtils/Collections/BufferedList.cs:109-115 | queues a clear change; the applied list is unchanged |
| BufferedLists.BufferedList.Sort | GameUtils/Collections/BufferedList.cs:145-166 | reorders the applied items only, keeping the same items; the queue is untouched |
| BufferedLists.BufferedList.ApplyChanges | GameUtils/Collections/BufferedList.cs:65-78 | drains the queue oldest first, leaving it empty, and gives the list and the added and removed payloads that applying the changes in order produces |
| BufferedLinkedLists.Node.constructor | GameUtils/Collections/BufferedLinkedList.cs:74 | a new node holds the item |
| BufferedLinkedLists.Values | GameUtils/Collections/BufferedLinkedList.cs:246 | ToArray: the nodes' values in order |
| BufferedLinkedLists.IndexOf | GameUtils/Collections/BufferedLinkedList.cs:237 | the position of a linked node, the first holding it |
| BufferedLinkedLists.Unlink | GameUtils/Collections/BufferedLinkedList.cs:237 | LinkedList.Remove(node) takes out that node only and keeps the nodes distinct |
| BufferedLinkedLists.ApplyTo | GameUtils/Collections/BufferedLinkedList.cs:215-256 | one change keeps the nodes distinct |
| BufferedLinkedLists.ApplyAll | GameUtils/Collections/BufferedLinkedList.cs:58-59 | the drain keeps the nodes distinct; when it stops on a fault the changes after it are still queued, and otherwise none are |
| BufferedLinkedLists.ApplyAllAppend | GameUtils/Collections/BufferedLinkedList.cs:58-59 | a queue drained without a fault in two parts is the queue drained whole |
| BufferedLinkedLists.AddedNodes | GameUtils/Collections/BufferedLinkedList.cs:215-221 | one node per add change |
| BufferedLinkedLists.AddsLinkAtTail | GameUtils/Collections/BufferedLinkedList.cs:215-221 | adding unlinked nodes, none twice, links them at the tail in queue order, records their values as added, and raises nothing |
| BufferedLinkedLists.RemoveUnlinkedFails | GameUtils/Collections/BufferedLinkedList.cs:233-239 | removing a node that is not linked throws after its value is recorded, and the rest of the queue stays queued |
| BufferedLinkedLists.RemoveLinked | GameUtils/Collections/BufferedLinkedList.cs:233-239 | removing a linked node unlinks that node alone and records its value |
| BufferedLinkedLists.BufferedLinkedList.constructor | GameUtils/Collections/BufferedLinkedList.cs:41-46 | a new list is empty with no pending change |
| BufferedLinkedLists.BufferedLinkedList.Add | GameUtils/Collections/BufferedLinkedList.cs:70-78 | makes a new node holding the item, queues its add and returns it; the applied nodes are unchanged |
| BufferedLinkedLists.BufferedLinkedList.AddNode | GameUtils/Collections/BufferedLinkedList.cs:84-90 | queues an add of the given node; the applied nodes are unchanged |
| BufferedLinkedLists.BufferedLinkedList.Remove | GameUtils/Collections/BufferedLinkedList.cs:96-103 | queues a remove change and returns true; the applied nodes are unchanged |
| BufferedLinkedLists.BufferedLinkedList.Clear | GameUtils/Collections/BufferedLinkedList.cs:109-115 | queues a clear change; the applied nodes are unchanged |
| BufferedLinkedLists.BufferedLinkedList.ApplyChanges | GameUtils/Collections/BufferedLinkedList.cs:51-64 | drains the queue oldest first: on success the queue is empty and the payloads are returned; on a fault that exception escapes and the later changes stay queued |
| MessageListeners.Accepted | GameUtils/MessageListener.cs:30-34 | the messages a listener keeps are a sub-list of those pushed, each of them a T |
| MessageListeners.AllAccepted | GameUtils/MessageListener.cs:30-34 | when every pushed message is a T, all of them are kept, in push order |
| MessageListeners.NoneAccepted | GameUtils/MessageListener.cs:30-34 | when no pushed message is a T, nothing is kept |
| MessageListeners.MessageListener.constructor | GameUtils/MessageListener.cs:24-28 | a new listener has an empty queue |
| MessageListeners.MessageListener.PushMessage | GameUtils/MessageListener.cs:30-34 | a T is enqueued at the back, any other message is dropped, and the queue stays the accepted pushes not yet popped |
| MessageListeners.MessageListener.PeekMessage | GameUtils/MessageListener.cs:39-42 | gives the oldest queued message, the next accepted push in FIFO order, and fails exactly when MessageAvailable is false |
| MessageListeners.MessageListener.PopMessage | GameUtils/MessageListener.cs:47-50 | gives and removes the oldest queued message, fails exactly on an empty queue, and keeps the FIFO invariant |
| MessageListeners.ListenerList.constructor | GameUtils/MessageListener.cs:55 | the engine's listener list starts empty |
| MessageListeners.MessageListenerHandle.constructor | GameUtils/MessageListener.cs:60-65 | a handle holds its list and node and is not disposed |
| MessageListeners.MessageListenerHandle.Dispose | GameUtils/MessageListener.cs:67-78 | the first call unlinks exactly the handle's node and drops the references; later calls change nothing; a node not in the list throws and leaves all as it was |
| Collisions.PointList.constructor | GameUtils.Physics/Collision.cs:19 | a new point list is empty |
| Collisions.PointList.Add | GameUtils.Physics/CollisionCollection.cs:59-61 | List.Add appends one point at the end |
| Collisions.Collision.constructor | GameUtils.Physics/Collision.cs:17-20 | a new collision owns a fresh, empty point list |
| Collisions.Collision.Points | GameUtils.Physics/Collision.cs:9-15 | Points is the collision's own list, so points added through it stay in the collision |
| Collisions.Collision.SetCollision | GameUtils.Physics/Collision.cs:25-30 | clears the points and records the ordered pair of objects |
| Collisions.ContactPoint | GameUtils.Physics/CollisionCollection.cs:58-61 | a contact point carries the normal and the penetration, at ContactB for the second object and ContactA otherwise |
| Collisions.ContactPoints | GameUtils.Physics/CollisionCollection.cs:56-62 | one contact point per vector pair, in order |
| Collisions.CollisionCollection.constructor | GameUtils.Physics/CollisionCollection.cs:26-29 | a new collection is empty |
| Collisions.CollisionCollection.Item | GameUtils.Physics/CollisionCollection.cs:10-16 | the indexer gives the collision at the index, and fails exactly outside the collection |
| Collisions.CollisionCollection.Clear | GameUtils.Physics/CollisionCollection.cs:31-34 | empties the collection |
| Collisions.CollisionCollection.AddCollisionPair | GameUtils.Physics/CollisionCollection.cs:36-63 | reuses the collision of the ordered pair when there is one, otherwise appends a fresh one; either way appends the pair's contact points to it and leaves every other collision's points alone, keeping at most one collision per pair |
| Collisions.CollisionCollection.FindCollision | GameUtils.Physics/CollisionCollection.cs:40-47 | the first collision of the ordered pair, or Count when there is none |
| Collisions.AppendContacts | GameUtils.Physics/CollisionCollection.cs:56-62 | appends the contact points of all pairs, in order, and keeps the earlier points |
| Logging.KindString | GameUtils/Logging/Logger.cs:13-21 | each kind other than None has a bracketed tag |
| Logging.JoinCons | GameUtils/Logging/Logger.cs:101 | string.Join puts exactly one separator after a leading part |
| Logging.MessageParts | GameUtils/Logging/Logger.cs:96-99 | one part for the message, last, plus one for the time stamp when it is on and one for the kind when it is not None |
| Logging.FormatCases | GameUtils/Logging/Logger.cs:94-101 | the posted line in each of the four cases: optional "[stamp] ", optional tag and a space, then the message |
| Logging.MessageLast | GameUtils/Logging/Logger.cs:99-101 | the message is always the tail of the line |
| Logging.StampFirst | GameUtils/Logging/Logger.cs:97-101 | with time stamps on, the line starts with the bracketed stamp and a space |
| Logging.Logger.WithFormat | GameUtils/Logging/Logger.cs:50-55 | keeps the given time stamp settings, with Low priority |
| Logging.Logger.WithTimeStamp | GameUtils/Logging/Logger.cs:57-62 | keeps the given time stamp switch, the default format and Low priority |
| Logging.Logger.WithPriority | GameUtils/Logging/Logger.cs:64-69 | time stamps on with the default format, at the given priority |
| Logging.Logger.constructor | GameUtils/Logging/Logger.cs:71-76 | time stamps on with the default format, at Low priority |
| Logging.Logger.SendToOutput | GameUtils/Logging/Logger.cs:101 | the output receives the line, and the settings are unchanged |
| Logging.Logger.PostMessage | GameUtils/Logging/Logger.cs:89-103 | throws exactly for a null message; sends nothing below the logger's priority; otherwise sends exactly the formatted line; the settings are unchanged |
| MathHelpers.Max | GameUtils/Math/MathHelper.cs:118-127 | the largest element, an element of the array, or int.MinValue for an empty one |
| MathHelpers.Min | GameUtils/Math/MathHelper.cs:140-149 | the smallest element, an element of the array, or int.MaxValue for an empty one |
| MathHelpers.Wrap | GameUtils/Math/MathHelper.cs:199 | unchecked two's complement arithmetic lands in the signed range |
| MathHelpers.WrapShift | GameUtils/Math/MathHelper.cs:199 | wrapping ignores whole multiples of the modulus |
| MathHelpers.WrapInRange | GameUtils/Math/MathHelper.cs:199 | a value already in range is left as it is |
| MathHelpers.WrapMul | GameUtils/Math/MathHelper.cs:199 | wrapping after each multiplication equals wrapping the exact product once |
| MathHelpers.Clamp | GameUtils/Math/MathHelper.cs:174-179 | the result is the value, min or max; with min <= max it lies in [min, max] and is the value exactly when the value does |
| MathHelpers.WrappedFactorial | GameUtils/Math/MathHelper.cs:195-209 | the running product with wrap-around equals the exact factorial, wrapped |
| MathHelpers.Factorial | GameUtils/Math/MathHelper.cs:195-201 | for a value below int.MaxValue, the exact factorial wrapped to 32 bits |
| MathHelpers.BigFactorial | GameUtils/Math/MathHelper.cs:203-209 | for a value below int.MaxValue, the exact factorial wrapped to 64 bits |
| MathHelpers.NextCounter | GameUtils/Math/MathHelper.cs:198 | the loop counter stays an int after i++, wrapping around |
| MathHelpers.FactorialLoopSpins | GameUtils/Math/MathHelper.cs:195-201 | with value int.MaxValue every int passes the test i <= value and i++ takes int.MaxValue to int.MinValue, so the loop never exits |
| MathHelpers.FactMonotone | GameUtils/Math/MathHelper.cs:198-199 | the exact factorial never decreases |
| MathHelpers.FactorialExact | GameUtils/Math/MathHelper.cs:195-201 | Factorial is exact up to 12 |
| MathHelpers.FactorialWrapsAt13 | GameUtils/Math/MathHelper.cs:195-201 | Factorial(13) wraps to 1932053504 rather than 6227020800 |
| MathHelpers.BigFactorialExact | GameUtils/Math/MathHelper.cs:203-209 | BigFactorial is exact up to 20 |

## Left out

- **Clipper and TriangleNet.** The polygon union and the constrained triangulation come from outside libraries. They are the `union` and `triangulate` parameters of `TriangulatedGlyphs.Services`. The model states only what the adapter code relies on.
- **The hole-seed search loop.** The loop has no termination argument in the source. It runs on the `fuel` of `Services`, and running out of fuel stands for the source looping forever.
- **IEEE arithmetic.** Coordinates are exact rationals. The `(float)` casts are the opaque `toSingle` parameter. Single values are carried as 32-bit patterns and only stored, copied and compared for equality.
- **Text encodings.** UTF-16BE decoding of names and UTF-8 encoding of the font name are opaque byte functions given as parameters. Names are carried as the bytes read.
- **Surrogate characters in the character map.** The writer's `Write(char)` refuses a lone surrogate and writes nothing. The reader's `ReadChar` decodes an unpaired low surrogate to U+FFFD, through the decoder's replacement fallback, and the model does the same. The decoder holds a high surrogate back to pair it with the next code unit; that pairing is not modelled.
- **Fonts.CharAt:** a high surrogate code unit (0xD800 to 0xDBFF) fails with InvalidChar, where the .NET decoder holds it back to pair with the next code unit.
- **Fonts.BinaryReader.ReadChar:** computes CharAt, so it refuses a high surrogate in the same way.
- **Fonts.ReadDictionary:** a map key that is a high surrogate fails with InvalidChar, through CharAt.
- **Fonts.ReadBody:** inherits the high-surrogate refusal from ReadDictionary.
- **Fonts.LoadFont:** inherits the high-surrogate refusal from ReadBody. The saved fonts of the round trip never hold a surrogate key, so WriteThenRead is unaffected.
- **BufferedLists.BufferedList.Sort:** List.Sort is a library call, given as the `sort` parameter. The model states that it keeps the items and leaves the queue alone, not the order it produces; the comparer and the order of equal items are the library's.
- **Files and streams.** FileInfo, FileStream and MemoryStream are replaced by a byte sequence as input or output.
- **Locks.** The `lock` statements of the buffered collections and MessageListener are dropped, so every model is sequential.
- **Collection events.** The ItemAdding, ItemRemoving and related events of the buffered collections are left out. The ChangesApplied payload is the return value of ApplyChanges.
- **Collection plumbing.** CopyTo, GetEnumerator and IsReadOnly of the buffered collections are thin delegations to the applied list and are not modelled.
- **BufferedLinkedLists.BufferedLinkedList.AddNode:** a node that already belongs to another LinkedList makes AddLast throw in the source. The model tracks only this list's nodes and faults only on a node already linked here.
- **BufferedLinkedLists.BufferedLinkedList.Remove:** a node of another list is modelled as any other unlinked node.
- **MathHelpers.Factorial:** does not model a value of int.MaxValue, for which the loop of the source never ends (see "Findings" and MathHelpers.FactorialLoopSpins).
- **MathHelpers.BigFactorial:** does not model a value of int.MaxValue, for the same reason.
- **MathHelpers.WrappedFactorial:** its loop counter is an unbounded integer, so it ends for every value. The int counter of the source, whose increment wraps, is MathHelpers.NextCounter.
- **FixedPoint.ReadFixed16:** the value is the exact rational mantissa + fraction/16383. The source computes it in .NET decimal, whose division rounds to 28 or 29 significant digits; 8192/16383 is 0.5000305194408838430079960935 there. Glyphs.Scales is unaffected: the differences it compares with 33/65536 are multiples of 1/16383 and stay more than 10^-5 away from that bound, far beyond the rounding.
- **FixedPoint.ReadFixed32:** the value is the exact rational integer part + fraction/65535, where the source's decimal division rounds to 28 or 29 significant digits.
- **MathHelpers.Max:** returns the int, not its conversion to the float return type of the source, because float rounding is not modelled.
- **MathHelpers.Min:** returns the int, not its conversion to the float return type of the source, for the same reason.
- **Float overloads of MathHelper.** Max and Min over float, MinMax, Clamp(float), DivRem and the rest are floating point and are not modelled.
- **Logging.LogMessagePriority:** the enumeration's declaration is not part of this model. A priority is an int ordered as its numeric value, and only Low is named.
- **Logging.Logger.PostMessage:** the current time, already formatted with TimestampFormat, is a parameter. DateTime.Now is not modelled.
- **Logging.Logger.SendToOutput:** this is abstract in the source. It is modelled as recording every line it receives.
- **Compound glyphs in the mesh.** The converter never flattens compound glyphs, so a compound glyph yields an empty mesh with its metrics kept, as in the source.
- **Rendering, physics integration, input, audio, networking and UI** are outside the modelled core.

## Findings

| source | as written | input that shows it | evidently intended | confidence | as-written member | corrected member |
|---|---|---|---|---|---|---|
| FontConverter/TriangulatedGlyph.cs:74-103 | a triangle that qualifies against several others is split once per match and its index is queued once per match, so the later RemoveAt calls delete the triangles after it | five or more curve triangles where triangle 0 intersects, and has a larger area than, two of the triangles 2 .. n-2, and no other pair qualifies | split each triangle at most once per pass and remove exactly the split triangles | not executed | Splitting.TwiceSplitDropsNext | Splitting.PassOnceExact |
| FontConverter/TriangulatedGlyph.cs:120-126 | an edge crossing the point's row is counted only when both ends lie strictly on one side of the point's column, so an edge with an endpoint exactly on the column is skipped | the triangle (0,1), (2,-1), (-2,-1) with the point (0,0): the edge from (0,1) to (2,-1) crosses the ray at x = 1, yet the winding number is 0 | count every edge that crosses the ray to the right of the point | not executed | Winding.ColumnEndpointMissed | Winding.RightCrossingMeetsRay |
| GameUtils/Math/MathHelper.cs:195-209 | the loop `for (int i = 2; i <= value; i++)` of Factorial and BigFactorial never exits when value is int.MaxValue: every int passes the test, and i++ wraps to int.MinValue | value = 2147483647 | the factorial wrapped to 32 or 64 bits, for every int value | not executed | MathHelpers.FactorialLoopSpins | MathHelpers.WrappedFactorial |
