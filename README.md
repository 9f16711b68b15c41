# LasToOctree in Dafny

LasToOctree has two parts. The first reads a LAS 1.3 lidar file. `LidarData.UploadFile`
reads the public header block and then the point data records that follow it. The second
builds an octree over the points. `Octree.Compose` puts a root node on the points'
bounding box. `OctreeNode.Divide` then splits every node that holds more than 1000 points
into eight children, each taking the parent's points that lie in its box. Two static
counters track the number of nodes created and the depth reached.

The project models both parts and proves properties of the model:

- `bytes.dfy` (module `Bytes`): little-endian integer reads (`BitConverter`), bit access
  (`BitArray`) and the unchecked `(int)` cast of a `ulong`.
- `lidar.dfy` (module `LasFile`): the point record decoder and its inverse encoder, the
  public header parser and its encoder, the record loop, and the class `LidarData` with
  its three methods.
- `points.dfy` (module `Points`): points with integer coordinates.
- `geometry.dfy` (module `Geometry`): the 8-corner arrays, `GetDivisionPoint`,
  `GetNodeCorners` (all eight switch cases, written as the source writes them),
  `GetNodePoints`, and the octant properties.
- `division.dfy` (module `Division`): `Divide` on values, as a recursive function over a
  `Node` tree. It threads the two counters in the order the source updates them. Lemmas
  state the tree's shape, its pre-order numbering, its depth counter, the sufficiency of
  fuel, and divergence.
- `compose.dfy` (module `Composition`): the bounding box and the root of `Compose`, plus
  the properties of a composed tree.
- `octree.dfy` (module `Octrees`): the heap form. `OctreeNode` objects have their fields
  assigned in place; an `Octree` object holds the root and the two counters (static
  properties in the source). Each method is proved against the value-level functions.

The model follows the code as written, including where it departs from the LAS 1.3
standard or behaves in ways a caller may not expect:

- X, Y and Z are read as unsigned 32-bit numbers.
- Classification is read from byte 13, which is the high byte of the intensity. Scan
  angle is read from byte 14, the flag byte, and user data from byte 15. The point source
  ID is read from bytes 16-17 and the GPS time from bytes 18-25. The stride is 28 bytes.
- The point filter is closed on both ends, so a point on a split plane goes to several
  children.
- No stop exists for a box too small to split, so `Divide` can recurse without end
  (`Division.StuckDiverges`).
- On a wrong signature `ExtractPublicHeader` prints a message and returns without an
  error. `UploadFile` then still runs the record loop with the counts it had.

In case 7 of `GetNodeCorners` (OcTree/obj/Debug/OctreeNode.cs:178), corner 0 takes its Z
from the parent's corner 0, which is the top of the parent's Z range. Every other
child in the lower Z half (3, 4 and 8) takes the middle there. The model keeps this as written. Child 7's own
filter box is still the intended octant (`Geometry.ChildCorners`), but its corner array no
longer has the root's layout, and the children computed from it are wrong: they may get
boxes outside child 7's box and drop points that lie in it. For the parent box [0, 8] on
every axis, child 2 of child 7 gets the Z range [4, 8] while child 7 spans [0, 4], and the
point (7, 3, 3) of child 7's box is kept by none of its eight children
(`Geometry.Child7LosesPoint`, `Division.Child7DropsPoint`). The lemmas that say no point
is lost (`Division.ChildPoints`, `Division.DivisionKeepsPoints`) therefore hold for one
division of a node in the root's layout (the root itself, and every child but 7 of a node in that layout), not for
the whole tree.

Non-termination is made explicit with a `fuel` bound on the recursion depth.
`DivideResult` returns `None` when the bound is reached. `Division.DivideFuel` shows that
the result does not depend on the fuel once it is enough.

## Model

| member | source | states |
|---|---|---|
| Geometry.CornersOf | OcTree/Octree.cs:34-43 | the root's corner array, read back through the filter's corner indices, gives back the box it was built from |
| Geometry.GetDivisionPoint | OcTree/obj/Debug/OctreeNode.cs:210-217 | the centre: corner 0's X plus half, truncated toward zero, of corner 1's X minus corner 0's; Y likewise from corners 3 and 4, Z from corners 2 and 1 |
| Geometry.Div2 | OcTree/obj/Debug/OctreeNode.cs:210-217 | C# `long` division by 2: half of a non-negative difference rounded down, of a negative one rounded up |
| Geometry.Div2Truncates | OcTree/obj/Debug/OctreeNode.cs:210-217 | C# `long` division by 2 rounds toward zero on both signs |
| Geometry.MidInRange | OcTree/obj/Debug/OctreeNode.cs:210-217 | the split coordinate lies in the range, and equals its top exactly when the range is a single value |
| Geometry.DivisionPointIsMid | OcTree/obj/Debug/OctreeNode.cs:210-217 | the division point is the middle of each range of the node's filter box, and lies in the box when the box is not empty |
| Geometry.CaseCorners | OcTree/obj/Debug/OctreeNode.cs:104-198 | the eight corners of child k, case by case as the switch lists them, child 7's corner 0 taking the parent's corner-0 Z included |
| Geometry.GetNodeCorners | OcTree/obj/Debug/OctreeNode.cs:98-203 | a corner array exists for child numbers 1 to 8 and for no other number (`null` otherwise) |
| Geometry.GetNodePoints | OcTree/obj/Debug/OctreeNode.cs:83-90 | the parent's points inside the closed box [c0.X, c1.X] x [c3.Y, c4.Y] x [c2.Z, c1.Z] of the corners c, in their original order |
| Geometry.FilterBox | OcTree/obj/Debug/OctreeNode.cs:83-90 | the box the filter tests: X from corner 0 to corner 1, Y from corner 3 to corner 4, Z from corner 2 to corner 1 |
| Geometry.GetNodePointsCount | OcTree/obj/Debug/OctreeNode.cs:83-90 | each point occurs in the child's list as often as in the parent's when it lies in the closed box, and never otherwise |
| Geometry.GetNodePointsAllInside | OcTree/obj/Debug/OctreeNode.cs:83-90 | when every point lies in the box, the filter keeps the whole list in order |
| Geometry.WellFormedDeterminedByBox | OcTree/Octree.cs:34-43 | two corner arrays in the root's layout with the same box are equal |
| Geometry.ChildCorners | OcTree/obj/Debug/OctreeNode.cs:98-203 | for a parent in the root's layout, child k's box is the k-th octant; the child keeps the layout exactly when it is not child 7 or the parent's Z range is a single value |
| Geometry.Child7LosesPoint | OcTree/obj/Debug/OctreeNode.cs:176-186 | for the parent box [0, 8] on every axis, child 7's box is [4, 8] x [0, 4] x [0, 4], its child 2 gets the Z range [4, 8] outside it, and the point (7, 3, 3) of its box lies in none of its children's boxes |
| Geometry.OctantsCover | OcTree/obj/Debug/OctreeNode.cs:85-88 | every point of an ordered box lies in at least one of the eight octants |
| Geometry.CenterInEveryOctant | OcTree/obj/Debug/OctreeNode.cs:85-88 | the filter is closed, so the division point lies in all eight octants |
| Geometry.OctantInside | OcTree/obj/Debug/OctreeNode.cs:85-88 | each octant of an ordered box is ordered and lies inside the box |
| Division.Bump | OcTree/obj/Debug/OctreeNode.cs:60-64 | NumberOfNodes grows by one; DepthOfTree becomes the larger of its old value and the child's depth |
| Division.NewChild | OcTree/obj/Debug/OctreeNode.cs:65-72 | child k, numbered as given: one level deeper than the parent, the parent's number as its parent, GetNodeCorners' array k and the parent's points filtered by it, no centre and no children |
| Division.DivideResult | OcTree/obj/Debug/OctreeNode.cs:47-75 | Divide: a node with at most 1000 points comes back unchanged with the counters; otherwise its centre is set, its children emptied and the loop run; `None` once the fuel runs out |
| Division.ChildrenResult | OcTree/obj/Debug/OctreeNode.cs:57-74 | the loop from child k to 8: bump the counters, create the child, divide it, append it, go on with the counters it left |
| Division.DivideShape | OcTree/obj/Debug/OctreeNode.cs:47-75 | a finished Divide keeps the node's own fields: a node with at most 1000 points gets no centre and no children; any other gets its division point and eight children, each the parent's points filtered by that child's corners, each subdivided in turn |
| Division.ChildrenShape | OcTree/obj/Debug/OctreeNode.cs:57-74 | the loop over children 1 to 8 appends, for each, the child the initialiser creates, subdivided |
| Division.DivideNumbering | OcTree/obj/Debug/OctreeNode.cs:60-73 | the nodes created under a node are numbered c+1, c+2, ... in pre-order, where c is NumberOfNodes before the call; NumberOfNodes ends at c plus the number created |
| Division.ChildrenNumbering | OcTree/obj/Debug/OctreeNode.cs:57-74 | the loop continues the pre-order numbering across all eight subtrees |
| Division.DivideDepth | OcTree/obj/Debug/OctreeNode.cs:61-64 | after Divide, DepthOfTree is the larger of its old value and the depth of the deepest node created |
| Division.ChildrenDepth | OcTree/obj/Debug/OctreeNode.cs:57-74 | the loop keeps DepthOfTree as the maximum depth over the subtrees built so far |
| Division.DivideFuel | OcTree/obj/Debug/OctreeNode.cs:47-75 | a Divide that finishes within some fuel gives the same tree and counters with any more fuel |
| Division.ChildrenFuel | OcTree/obj/Debug/OctreeNode.cs:57-74 | the same for the loop over the children |
| Division.StuckDiverges | OcTree/obj/Debug/OctreeNode.cs:47-75 | a node in the root's layout with more than 1000 points, all inside its box, whose box is at most 1 long on each axis never finishes dividing, whatever the fuel |
| Division.StuckChild | OcTree/obj/Debug/OctreeNode.cs:116-126 | child 2 of such a node has the same corners and the same points, and is stuck again |
| Division.ChildPoints | OcTree/obj/Debug/OctreeNode.cs:65-72 | in a divided node in the root's layout, child k holds exactly the parent's points in octant k, with their multiplicities |
| Division.DivisionKeepsPoints | OcTree/obj/Debug/OctreeNode.cs:57-74 | every point of a divided node in the root's layout that lies in its box is kept by at least one child |
| Division.KeptPoint | OcTree/obj/Debug/OctreeNode.cs:85-89 | a point is in GetNodePoints' result exactly when it is in the parent's list and inside the closed box of the corners |
| Division.Child7DropsPoint | OcTree/obj/Debug/OctreeNode.cs:176-186 | in a divided node with the box [0, 8] on every axis, the point (7, 3, 3) goes to child 7, and once child 7 is divided none of its children keeps it |
| Composition.MinCoord | OcTree/Octree.cs:25-32 | the smallest coordinate of the list on one axis, the last element of the list sorted in descending order |
| Composition.MaxCoord | OcTree/Octree.cs:25-32 | the largest coordinate of the list on one axis, the first element of that sorted list |
| Composition.MinCoordIsLeast | OcTree/Octree.cs:25-32 | the minimum taken is at most every coordinate and is one of them |
| Composition.MaxCoordIsGreatest | OcTree/Octree.cs:25-32 | the maximum taken is at least every coordinate and is one of them |
| Composition.BoundingBoxIsTight | OcTree/Octree.cs:25-32 | the bounding box is ordered and holds every point, and each of its six faces touches a point |
| Composition.BoundingBox | OcTree/Octree.cs:25-32 | the box from minX, minY, minZ to maxX, maxY, maxZ |
| Composition.RootNode | OcTree/Octree.cs:20-45 | the root: number 1, depth 1, parent 0, the corners of the bounding box, every input point |
| Composition.ComposeResult | OcTree/Octree.cs:47-49 | Divide on the root with DepthOfTree and NumberOfNodes both set to 1 |
| Composition.RootBox | OcTree/Octree.cs:34-45 | the root's corners are in the layout later divisions expect, and their box is the bounding box, which holds all the points |
| Composition.ComposeProperties | OcTree/Octree.cs:47-49 | a finished Compose gives a subdivided tree whose root keeps its fields; its nodes are numbered 1, 2, ... in pre-order, NumberOfNodes is the node count and DepthOfTree the greatest depth |
| Composition.ComposeDiverges | OcTree/Octree.cs:47-49 | more than 1000 points whose coordinates differ by at most 1 on each axis can never be composed |
| Composition.ComposeKeepsPoints | OcTree/Octree.cs:47-49 | the root's first division keeps every input point in some child |
| Octrees.OctreeNode.Init | OcTree/obj/Debug/OctreeNode.cs:65-72 | a new node has the given number, depth, parent, corners and points, no centre and no children |
| Octrees.OctreeNode.Divide | OcTree/obj/Debug/OctreeNode.cs:47-75 | in place, the node and the counters become what the value-level Divide gives, when it finishes within the fuel |
| Octrees.OctreeNode.DivideChildren | OcTree/obj/Debug/OctreeNode.cs:57-74 | the loop over children 1 to 8 leaves the node's tree and the counters as the value-level loop does |
| Octrees.OctreeNode.SetBox | OcTree/Octree.cs:34-45 | only the corners and the points of the root change |
| Octrees.OctreeNode.StartDivision | OcTree/obj/Debug/OctreeNode.cs:55-56 | the centre becomes the division point and the child list becomes empty |
| Octrees.OctreeNode.NewChildNode | OcTree/obj/Debug/OctreeNode.cs:59-72 | the counters are bumped, and a new node is made with the new count as its number, the child's corners and the filtered points |
| Octrees.OctreeNode.AddChild | OcTree/obj/Debug/OctreeNode.cs:59-73 | one loop iteration appends the new child, divided, and leaves the counters as its division does |
| Octrees.Octree.Compose | OcTree/Octree.cs:18-50 | an empty list leaves a bare root and the counters untouched; otherwise the root tree and the counters are what the value-level Compose gives |
| Octrees.Octree.constructor | OcTree/Octree.cs:8-12 | the default state: no ParentNode and both counters 0 |
| Bytes.U16 | LASfile/LidarData.cs:52-60 | `BitConverter.ToUInt16`: two bytes read as an unsigned little-endian number |
| Bytes.LE | LASfile/LidarData.cs:83-120 | the unsigned little-endian value of w bytes from a position, the first byte the least significant |
| Bytes.U32 | LASfile/LidarData.cs:49-51 | `BitConverter.ToUInt32`: four bytes read as an unsigned little-endian number |
| Bytes.U64 | LASfile/LidarData.cs:120 | `BitConverter.ToUInt64`: eight bytes read as an unsigned little-endian number |
| Bytes.Bits | LASfile/LidarData.cs:46 | `new BitArray(new byte[] { b })`: the eight bits of a byte, least significant first |
| Bytes.ToInt32 | LASfile/LidarData.cs:46-61 | the unchecked `(int)` of a `ulong`: its low 32 bits read as two's complement |
| Bytes.LEBound | LASfile/LidarData.cs:49-52 | a w-byte little-endian read is below 256^w |
| Bytes.LEOfDigits | LASfile/LidarData.cs:49-52 | reading back the little-endian bytes of a number that fits gives the number |
| Bytes.DigitOfLE | LASfile/LidarData.cs:49-52 | byte j of a read number is the byte at position j |
| Bytes.FromBitsOfBits | LASfile/LidarData.cs:46-56 | a byte is the number made from its eight bits |
| Bytes.BitOfFromBits | LASfile/LidarData.cs:46-56 | bit i of the number made from a bit list is element i of the list |
| Bytes.BitsOfFromBits | LASfile/LidarData.cs:46-56 | the bits of the number made from a bit list are that list |
| Bytes.ToInt32Range | LASfile/LidarData.cs:46-61 | the `(int)` cast keeps a position below 2^31 and makes one in [2^31, 2^32) negative |
| LasFile.DecodeRecord | LASfile/LidarData.cs:46-62 | the record initialiser: X, Y, Z from bytes 0-11, intensity from 12-13, the four flag fields from the bits of byte 14, classification, scan angle and user data from bytes 13, 14 and 15, point source ID from 16-17, GPS word from 18-25 |
| LasFile.RecordRoundTrip | LASfile/LidarData.cs:47-62 | decoding the bytes of a representable record at any position gives the record back |
| LasFile.EncodeDecodeRecord | LASfile/LidarData.cs:47-62 | decoding an encoded record gives the record back |
| LasFile.DecodeEncodeRecord | LASfile/LidarData.cs:46-62 | every decoded record is representable, and encoding it gives back the 26 bytes read |
| LasFile.DecodedRepresentable | LASfile/LidarData.cs:46-62 | every decoded record has fields of the source's widths and the overlapping reads agree |
| LasFile.DecodedFlags | LASfile/LidarData.cs:46-56 | the four flag fields are the bits of byte 14 in order |
| LasFile.FlagsRoundTrip | LASfile/LidarData.cs:53-56 | the flag byte of a record decodes to its return number, number of returns and the two flags |
| LasFile.CoordinatesRoundTrip | LASfile/LidarData.cs:49-51 | X, Y and Z read back |
| LasFile.WordsRoundTrip | LASfile/LidarData.cs:52-61 | intensity, point source ID and GPS time read back |
| LasFile.OverlappingReads | LASfile/LidarData.cs:52-58 | as written, classification is always the high byte of the intensity and scan angle always the flag byte |
| LasFile.ParseHeader | LASfile/LidarData.cs:73-120 | a buffer shorter than 4 bytes fails; one without "LASF" is rejected; one shorter than 235 bytes fails; otherwise the integer fields at their offsets |
| LasFile.IsLas | LASfile/LidarData.cs:77-82 | the first four bytes exist and spell "LASF" |
| LasFile.PointsByReturn | LASfile/LidarData.cs:103-107 | the five legacy counts by return, 32-bit little-endian from byte 111 at a stride of 4 |
| LasFile.OffsetAfterHeader | LASfile/LidarData.cs:77-97 | OffsetDataPoints after the header: bytes 96-99 when the signature holds and the buffer reaches them, the previous value otherwise |
| LasFile.CountAfterHeader | LASfile/LidarData.cs:77-102 | NumberOfPointRecords after the header: bytes 107-110 when the signature holds and the buffer reaches them, the previous value otherwise |
| LasFile.HeaderRoundTrip | LASfile/LidarData.cs:83-120 | a buffer that carries a header's fields at the positions ParseHeader keeps parses to that header, whatever its string and double bytes hold |
| LasFile.ParsedHeaderHeld | LASfile/LidarData.cs:83-120 | conversely, a buffer that parses to a header has fields of the read widths and holds that header at every position ParseHeader keeps |
| LasFile.HeaderFieldsLow | LASfile/LidarData.cs:77-90 | signature, file source ID, global encoding, project IDs and version read back |
| LasFile.HeaderFieldsMiddle | LASfile/LidarData.cs:93-102 | creation date, header size, offset, VLR count, format, record length and record count read back |
| LasFile.HeaderFieldsHigh | LASfile/LidarData.cs:103-120 | the five counts by return and the waveform start read back |
| LasFile.ByReturnField | LASfile/LidarData.cs:103-107 | count k by return reads back |
| LasFile.ReadRun | LASfile/LidarData.cs:43-63 | the first n records of the run: record k decoded at the `(int)` cast of offset + 28k, in file order |
| LasFile.Readable | LASfile/LidarData.cs:46-61 | every read of the record at a ulong position, made at the `(int)` cast of it plus 0 to 25, stays in the buffer |
| LasFile.RecordPos | LASfile/LidarData.cs:43-63 | record k of the run sits 28k bytes after the offset |
| LasFile.ReadRunAt | LASfile/LidarData.cs:43-63 | record k of the run is the one decoded at the cast of offset + 28k |
| LasFile.ExtractedFromUnique | LASfile/LidarData.cs:39-67 | the records and the outcome of the record loop are determined by the buffer, offset and count |
| LasFile.AllRecordsReadable | LASfile/LidarData.cs:44-63 | from a 32-bit offset, all records can be read exactly when the last one ends in the buffer, and each is then read at its own position |
| LasFile.ReadablePrefixFits | LASfile/LidarData.cs:46-63 | when records 0..k can be read, record k's position is below 2^31 and the cast keeps it |
| LasFile.InPlaceReadable | LASfile/LidarData.cs:46-63 | a run whose last record ends in the buffer can be read record by record |
| LasFile.RunOfRecords | LASfile/LidarData.cs:43-63 | the first n records read from a buffer holding a run of records are the first n of them |
| LasFile.RunCompleted | LASfile/LidarData.cs:43-63 | a buffer holding N records from the offset gives exactly those records when N are asked for |
| LasFile.FileRecord | LASfile/LidarData.cs:46-63 | record k of a built buffer sits at its own position and decodes to record k |
| LasFile.FileRoundTrip | LASfile/LidarData.cs:30-32 | a buffer built from a header and N records parses to that header, and its record run gives back exactly those records |
| LasFile.BufferRoundTrip | LASfile/LidarData.cs:30-32 | any buffer carrying a header and N records from its offset parses to that header and gives back exactly those records |
| LasFile.LidarData.constructor | LASfile/LidarData.cs:16-18 | both counts start at 0 and the record list empty |
| LasFile.LidarData.ExtractPublicHeader | LASfile/LidarData.cs:73-133 | the outcome is the parsed header, or a wrong signature, or a too-short buffer; the offset and the count are set exactly when their bytes were reached; the records are unchanged |
| LasFile.LidarData.ExtractDataPoints | LASfile/LidarData.cs:39-67 | the record list is the run decoded from the offset, in order: all of them, or up to the first read past the end; the counts are unchanged |
| LasFile.LidarData.UploadFile | LASfile/LidarData.cs:24-33 | reports the header outcome ParseHeader gives; a too-short header stops the upload with the records unchanged; otherwise the records are the run for the counts as the header left them |
| LasFile.UploadNotLas | LASfile/LidarData.cs:16-44 | a new decoder given a buffer without the signature reports a wrong signature and completes with no records |
| LasFile.UploadHeld | LASfile/LidarData.cs:24-33 | uploading any buffer carrying a header and N records from its offset reads that header and completes with exactly those records |
| LasFile.UploadEncoded | LASfile/LidarData.cs:24-33 | uploading a buffer built from a header and N records reads that header and completes with exactly those records |

## Left out

- File reading (`FileStream`, `FileInfo` and `BinaryReader.ReadBytes` in UploadFile): the model starts from the file's contents as a byte sequence.
- lastooctree/Program.cs: it only wires the two parts together and is not part of this model.
- Console output in ExtractPublicHeader and ExtractDataPoints: it has no effect on state.
- The twelve header doubles (scale factors, offsets, extents): floating point is not modelled. They are read only for printing, so they appear only as bytes that must be present.
- GPS time: it is kept as the raw 64-bit word that `BitConverter.ToDouble` reinterprets, because floating point is not modelled.
- The UTF-8 string fields of the header (project ID 4, system identifier, generating software): they are decoded and never used; only the presence of their bytes in the buffer matters (`LasFile.ParseHeader` needs 235 bytes, and `OffsetAfterHeader` needs 100).
- The `BigInteger` waveform start: it is kept as the `ulong` it is read as.
- The commented-out variable-length-record parser of LidarData.cs: it is not executed code.
- `BitConverter` is fixed to little-endian, the byte order of LAS and of the platforms the program targets.
- Exceptions (`IndexOutOfRange`/`ArgumentException` from a short buffer, `InvalidOperationException` from `Last()` on an empty list): the model turns them into outcome values (`HeaderTruncated`, `ReadPastEnd`, `EmptyInput`).
- OcTreePointDataRecord and PointDataRecord (two record types in the source that do not match): both are modelled as one point type with X, Y and Z, the only fields the octree reads.
- Division.Bump: the counters are unbounded; the 32-bit `int` wrap-around of NumberOfNodes after 2^31 nodes is not modelled.
- Geometry.GetDivisionPoint: the `long` subtraction and addition cannot overflow for coordinates read as `uint`, so 64-bit wrap-around is not modelled.
- Octrees.OctreeNode.Divide: when the fuel runs out it promises only that the tree is valid, not what the partly built tree holds.
- Octrees.Octree.Compose: on `OutOfFuel` it says nothing about the partly built tree or the counters, as for Divide.
- The `ulong` cursor and loop counter of ExtractDataPoints cannot wrap: the offset and the count are both below 2^32, so every position is below 2^64.
