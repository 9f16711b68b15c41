/**
 * Box geometry of the octree (OcTree/obj/Debug/OctreeNode.cs and the root layout of
 * OcTree/Octree.cs): the 8-corner arrays, the division point, the corner arrays of the
 * eight children and the inclusive point filter.
 */
module Geometry {
  import opened Points

  /** A C# `Point3D[8]` corner array. */
  type Corners = c: seq<Point3D> | |c| == 8 witness seq(8, _ => Point3D(0, 0, 0))

  /** The closed interval [lo, hi] on one axis. */
  datatype Range = Range(lo: int, hi: int)

  datatype Box = Box(xs: Range, ys: Range, zs: Range)

  function Extent(b: Box, a: Axis): Range {
    match a
    case X => b.xs
    case Y => b.ys
    case Z => b.zs
  }

  predicate InRange(v: int, r: Range) {
    r.lo <= v <= r.hi
  }

  predicate InBox(p: Point3D, b: Box) {
    InRange(p.x, b.xs) && InRange(p.y, b.ys) && InRange(p.z, b.zs)
  }

  predicate Ordered(b: Box) {
    b.xs.lo <= b.xs.hi && b.ys.lo <= b.ys.hi && b.zs.lo <= b.zs.hi
  }

  /**
   * The corner layout that Compose gives the root (Octree.cs:34-43): corners 0-3 sit on
   * the low Y face, 4-7 on the high Y face; 0, 1, 4, 5 on the high Z face.
   */
  function CornersOf(b: Box): (c: Corners)
    ensures FilterBox(c) == b
  {
    [ Point3D(b.xs.lo, b.ys.lo, b.zs.hi),
      Point3D(b.xs.hi, b.ys.lo, b.zs.hi),
      Point3D(b.xs.hi, b.ys.lo, b.zs.lo),
      Point3D(b.xs.lo, b.ys.lo, b.zs.lo),
      Point3D(b.xs.lo, b.ys.hi, b.zs.hi),
      Point3D(b.xs.hi, b.ys.hi, b.zs.hi),
      Point3D(b.xs.hi, b.ys.hi, b.zs.lo),
      Point3D(b.xs.lo, b.ys.hi, b.zs.lo) ]
  }

  /**
   * The ranges that GetNodePoints reads from a corner array: X from corner 0 to corner 1,
   * Y from corner 3 to corner 4, Z from corner 2 to corner 1.
   */
  function FilterBox(c: Corners): Box {
    Box(Range(c[0].x, c[1].x), Range(c[3].y, c[4].y), Range(c[2].z, c[1].z))
  }

  /** A corner array laid out as Compose lays out the root's. */
  predicate WellFormed(c: Corners) {
    c == CornersOf(FilterBox(c))
  }

  /** C# integer division of a `long` by 2, which truncates toward zero. */
  function Div2(d: int): int {
    if d >= 0 then d / 2 else -((-d) / 2)
  }

  /** Div2 rounds toward zero: down for a non-negative operand, up for a negative one. */
  lemma Div2Truncates(d: int)
    ensures 0 <= d ==> 0 <= 2 * Div2(d) <= d && d <= 2 * Div2(d) + 1
    ensures d <= 0 ==> d <= 2 * Div2(d) <= 0 && 2 * Div2(d) - 1 <= d
  {
  }

  /** The split coordinate `lo + (hi - lo) / 2` used throughout OctreeNode.cs. */
  function Mid(r: Range): int {
    r.lo + Div2(r.hi - r.lo)
  }

  /** The split coordinate lies in the range, and equals its top only for a one-value range. */
  lemma MidInRange(r: Range)
    ensures r.lo <= r.hi ==> r.lo <= Mid(r) <= r.hi
    ensures Mid(r) == r.hi <==> r.lo == r.hi
  {
    Div2Truncates(r.hi - r.lo);
  }

  /** GetDivisionPoint (OctreeNode.cs:210-217): the centre of a node. */
  function GetDivisionPoint(c: Corners): Point3D {
    Point3D(c[0].x + Div2(c[1].x - c[0].x),
            c[3].y + Div2(c[4].y - c[3].y),
            c[2].z + Div2(c[1].z - c[2].z))
  }

  /**
   * The division point splits each range of the filter box at its middle, and lies in
   * the box when the box is not empty.
   */
  lemma DivisionPointIsMid(c: Corners)
    ensures GetDivisionPoint(c) == Point3D(Mid(FilterBox(c).xs), Mid(FilterBox(c).ys), Mid(FilterBox(c).zs))
    ensures Ordered(FilterBox(c)) ==> InBox(GetDivisionPoint(c), FilterBox(c))
  {
    var b := FilterBox(c);
    MidInRange(b.xs);
    MidInRange(b.ys);
    MidInRange(b.zs);
  }

  /**
   * GetNodeCorners (OctreeNode.cs:98-203): the corner array of child `childNo` of a parent
   * with corner array `p` whose NodeCenter is `center`; `None` (C# `null`) for a number
   * outside 1..8. The eight arrays are CaseCorners.
   */
  function GetNodeCorners(p: Corners, center: Point3D, childNo: int): (r: Option<Corners>)
    ensures r.Some? <==> 1 <= childNo <= 8
  {
    if 1 <= childNo <= 8 then
      var corners := seq(8, i requires 0 <= i < 8 => CaseCorners(p, center, childNo)[i]);
      assert |corners| == 8;
      Some(corners)
    else None
  }

  /**
   * The switch cases of OctreeNode.cs:104-198, written out case by case as the source does,
   * including child 7's corner 0, which takes Z from the parent's corner 0.
   */
  function CaseCorners(p: Corners, center: Point3D, childNo: int): (r: seq<Point3D>)
    requires 1 <= childNo <= 8
    ensures |r| == 8
  {
    var mx := p[0].x + Div2(p[1].x - p[0].x);
    var my := p[0].y + Div2(p[4].y - p[0].y);
    var mz := p[7].z + Div2(p[4].z - p[7].z);
    var mz2 := p[7].z + Div2(p[0].z - p[3].z);
    if childNo == 1 then [
      Point3D(p[0].x, my, p[0].z),
      Point3D(mx, my, p[0].z),
      center,
      Point3D(p[0].x, my, mz),
      Point3D(p[4].x, p[4].y, p[4].z),
      Point3D(mx, p[4].y, p[4].z),
      Point3D(mx, p[4].y, mz),
      Point3D(p[0].x, p[4].y, mz)]
    else if childNo == 2 then [
      Point3D(mx, my, p[0].z),
      Point3D(p[1].x, my, p[0].z),
      Point3D(p[1].x, my, mz2),
      center,
      Point3D(mx, p[4].y, p[4].z),
      Point3D(p[1].x, p[4].y, p[4].z),
      Point3D(p[1].x, p[4].y, mz),
      Point3D(mx, p[4].y, mz)]
    else if childNo == 3 then [
      center,
      Point3D(p[1].x, my, mz),
      Point3D(p[1].x, my, p[7].z),
      Point3D(mx, my, p[7].z),
      Point3D(mx, p[4].y, mz),
      Point3D(p[1].x, p[4].y, mz),
      Point3D(p[1].x, p[4].y, p[7].z),
      Point3D(mx, p[4].y, p[7].z)]
    else if childNo == 4 then [
      Point3D(p[0].x, my, mz),
      center,
      Point3D(mx, my, p[7].z),
      Point3D(p[0].x, my, p[7].z),
      Point3D(p[0].x, p[4].y, mz),
      Point3D(mx, p[4].y, mz),
      Point3D(mx, p[4].y, p[7].z),
      Point3D(p[0].x, p[4].y, p[7].z)]
    else if childNo == 5 then [
      Point3D(p[0].x, p[0].y, p[0].z),
      Point3D(mx, p[0].y, p[0].z),
      Point3D(mx, p[0].y, mz),
      Point3D(p[0].x, p[0].y, mz),
      Point3D(p[0].x, my, p[0].z),
      Point3D(mx, my, p[0].z),
      center,
      Point3D(p[0].x, my, mz2)]
    else if childNo == 6 then [
      Point3D(mx, p[0].y, p[0].z),
      Point3D(p[2].x, p[2].y, p[0].z),
      Point3D(p[2].x, p[2].y, mz),
      Point3D(mx, p[2].y, mz),
      Point3D(mx, my, p[0].z),
      Point3D(p[2].x, my, p[0].z),
      Point3D(p[2].x, my, mz),
      center]
    else if childNo == 7 then [
      Point3D(mx, p[0].y, p[0].z),
      Point3D(p[2].x, p[2].y, mz),
      Point3D(p[2].x, p[2].y, p[2].z),
      Point3D(mx, p[2].y, p[2].z),
      center,
      Point3D(p[1].x, my, mz),
      Point3D(p[1].x, my, p[2].z),
      Point3D(mx, my, p[2].z)]
    else [
      Point3D(p[0].x, p[0].y, mz),
      Point3D(mx, p[0].y, mz),
      Point3D(mx, p[2].y, p[2].z),
      Point3D(p[3].x, p[3].y, p[3].z),
      Point3D(p[0].x, my, mz2),
      center,
      Point3D(mx, my, p[7].z),
      Point3D(p[0].x, my, p[7].z)]
  }

  /** Whether child `childNo` takes the upper half [mid, hi] of `axis` (else [lo, mid]). */
  predicate UpperHalf(childNo: int, a: Axis) {
    match a
    case X => childNo in {2, 3, 6, 7}
    case Y => childNo in {1, 2, 3, 4}
    case Z => childNo in {1, 2, 5, 6}
  }

  function Half(r: Range, upper: bool): Range {
    if upper then Range(Mid(r), r.hi) else Range(r.lo, Mid(r))
  }

  /** The octant of `b` that child `childNo` is meant to cover. */
  function ChildBox(b: Box, childNo: int): Box {
    Box(Half(b.xs, UpperHalf(childNo, X)), Half(b.ys, UpperHalf(childNo, Y)), Half(b.zs, UpperHalf(childNo, Z)))
  }

  /** The filter of GetNodePoints: the closed box read from the corner array. */
  predicate InsideCorners(p: Point3D, c: Corners) {
    InBox(p, FilterBox(c))
  }

  /**
   * GetNodePoints (OctreeNode.cs:83-90): the points of the parent that lie in the closed
   * box of `corners`, in their original order. The parent's list is a value and is not
   * changed. GetNodePointsCount says which points it keeps.
   */
  function GetNodePoints(points: seq<Point3D>, corners: Corners): seq<Point3D> {
    if |points| == 0 then []
    else
      assert points == [points[0]] + points[1..];
      (if InsideCorners(points[0], corners) then [points[0]] else []) + GetNodePoints(points[1..], corners)
  }

  /**
   * Each point occurs in GetNodePoints' result as often as in the parent's list when it
   * lies in the closed box of `corners`, and not at all otherwise.
   */
  lemma {:induction false} GetNodePointsCount(points: seq<Point3D>, corners: Corners, p: Point3D)
    ensures multiset(GetNodePoints(points, corners))[p] ==
      if InBox(p, FilterBox(corners)) then multiset(points)[p] else 0
  {
    if |points| > 0 {
      assert points == [points[0]] + points[1..];
      GetNodePointsCount(points[1..], corners, p);
    }
  }

  /** When every point lies in the box, GetNodePoints keeps the whole list, in order. */
  lemma {:induction false} GetNodePointsAllInside(points: seq<Point3D>, corners: Corners)
    requires forall k :: 0 <= k < |points| ==> InBox(points[k], FilterBox(corners))
    ensures GetNodePoints(points, corners) == points
  {
    if |points| > 0 {
      assert points == [points[0]] + points[1..];
      GetNodePointsAllInside(points[1..], corners);
    }
  }

  // ----- Properties of the corner arrays -----

  /** The filter box determines a well-formed corner array. */
  lemma WellFormedDeterminedByBox(c: Corners, d: Corners)
    requires WellFormed(c) && WellFormed(d) && FilterBox(c) == FilterBox(d)
    ensures c == d
  {
  }

  /**
   * For a well-formed parent, child `childNo`'s filter ranges are [lo, mid] or [mid, hi]
   * on each axis, as ChildBox says; the child's corner array is well-formed again exactly
   * when the child is not 7, or the parent's Z range is a single value.
   */
  lemma ChildCorners(c: Corners, childNo: int)
    requires WellFormed(c) && 1 <= childNo <= 8
    ensures var cc := GetNodeCorners(c, GetDivisionPoint(c), childNo).value;
      FilterBox(cc) == ChildBox(FilterBox(c), childNo) &&
      (WellFormed(cc) <==> childNo != 7 || FilterBox(c).zs.lo == FilterBox(c).zs.hi)
  {
    var b := FilterBox(c);
    var cc := GetNodeCorners(c, GetDivisionPoint(c), childNo).value;
    assert cc == CaseCorners(c, GetDivisionPoint(c), childNo);
    assert c == CornersOf(b);
    DivisionPointIsMid(c);
    MidInRange(b.zs);
    if childNo == 7 {
      assert cc[0].z == b.zs.hi;
      assert CornersOf(FilterBox(cc))[0].z == Mid(b.zs);
    }
  }

  /** The corner array, in the root's layout, of the box [0, 8] on every axis. */
  const Cube8: Corners := CornersOf(Box(Range(0, 8), Range(0, 8), Range(0, 8)))

  /**
   * Child 7's corner 0 (OctreeNode.cs:178) spoils the divisions below it. For the parent
   * box [0, 8]^3, child 7's own box is the octant [4, 8] x [0, 4] x [0, 4], but its child 2
   * is given the Z range [4, 8], outside that box, and the point (7, 3, 3) of child 7's box
   * lies in the box of none of its eight children.
   */
  lemma Child7LosesPoint()
    ensures var c7 := GetNodeCorners(Cube8, GetDivisionPoint(Cube8), 7).value;
      FilterBox(c7) == Box(Range(4, 8), Range(0, 4), Range(0, 4)) &&
      FilterBox(GetNodeCorners(c7, GetDivisionPoint(c7), 2).value).zs == Range(4, 8) &&
      InsideCorners(Point3D(7, 3, 3), c7) &&
      forall k :: 1 <= k <= 8 ==> !InsideCorners(Point3D(7, 3, 3), GetNodeCorners(c7, GetDivisionPoint(c7), k).value)
  {
    var c7 := GetNodeCorners(Cube8, GetDivisionPoint(Cube8), 7).value;
    assert c7 == CaseCorners(Cube8, Point3D(4, 4, 4), 7);
    assert c7 == [Point3D(4, 0, 8), Point3D(8, 0, 4), Point3D(8, 0, 0), Point3D(4, 0, 0),
                  Point3D(4, 4, 4), Point3D(8, 4, 4), Point3D(8, 4, 0), Point3D(4, 4, 0)];
    var center := GetDivisionPoint(c7);
    assert center == Point3D(6, 2, 2);
    assert GetNodeCorners(c7, center, 2).value == CaseCorners(c7, center, 2);
    forall k | 1 <= k <= 8
      ensures !InsideCorners(Point3D(7, 3, 3), GetNodeCorners(c7, center, k).value)
    {
      assert GetNodeCorners(c7, center, k).value == CaseCorners(c7, center, k);
    }
  }

  /** Every point of an ordered box lies in at least one of the eight octants. */
  lemma OctantsCover(b: Box, p: Point3D)
    requires Ordered(b) && InBox(p, b)
    ensures exists childNo :: 1 <= childNo <= 8 && InBox(p, ChildBox(b, childNo))
  {
    MidInRange(b.xs);
    MidInRange(b.ys);
    MidInRange(b.zs);
    var upX, upY, upZ := p.x >= Mid(b.xs), p.y >= Mid(b.ys), p.z >= Mid(b.zs);
    var childNo :=
      if upY then (if upZ then (if upX then 2 else 1) else (if upX then 3 else 4))
      else (if upZ then (if upX then 6 else 5) else (if upX then 7 else 8));
    assert InBox(p, ChildBox(b, childNo));
  }

  /**
   * The ranges are closed on both ends, so octants overlap on the split planes: the
   * division point itself lies in all eight of them.
   */
  lemma CenterInEveryOctant(b: Box, childNo: int)
    requires Ordered(b) && 1 <= childNo <= 8
    ensures InBox(Point3D(Mid(b.xs), Mid(b.ys), Mid(b.zs)), ChildBox(b, childNo))
  {
    MidInRange(b.xs);
    MidInRange(b.ys);
    MidInRange(b.zs);
  }

  /** Each octant of an ordered box is an ordered box inside it. */
  lemma OctantInside(b: Box, childNo: int, p: Point3D)
    requires Ordered(b)
    ensures Ordered(ChildBox(b, childNo))
    ensures InBox(p, ChildBox(b, childNo)) ==> InBox(p, b)
  {
    MidInRange(b.xs);
    MidInRange(b.ys);
    MidInRange(b.zs);
  }
}
