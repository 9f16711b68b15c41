/**
 * Octree.Compose (OcTree/Octree.cs:18-50) stated on values: the bounding box of the
 * input, the root node laid out in it, and the properties of the tree that Divide grows
 * from that root.
 */
module Composition {
  import opened Points
  import opened Geometry
  import opened Division

  /**
   * The smallest coordinate on `a`: the last element of the list sorted in descending
   * order of that coordinate (Octree.cs:25,28,31).
   */
  function MinCoord(points: seq<Point3D>, a: Axis): int
    requires |points| > 0
  {
    if |points| == 1 then Coord(points[0], a)
    else
      var rest := MinCoord(points[1..], a);
      if Coord(points[0], a) <= rest then Coord(points[0], a) else rest
  }

  /** The largest coordinate on `a`: the first element of that list (Octree.cs:26,29,32). */
  function MaxCoord(points: seq<Point3D>, a: Axis): int
    requires |points| > 0
  {
    if |points| == 1 then Coord(points[0], a)
    else
      var rest := MaxCoord(points[1..], a);
      if Coord(points[0], a) >= rest then Coord(points[0], a) else rest
  }

  /** MinCoord is a lower bound of the coordinates and is one of them. */
  lemma {:induction false} MinCoordIsLeast(points: seq<Point3D>, a: Axis)
    requires |points| > 0
    ensures forall k :: 0 <= k < |points| ==> MinCoord(points, a) <= Coord(points[k], a)
    ensures exists k :: 0 <= k < |points| && MinCoord(points, a) == Coord(points[k], a)
  {
    if |points| > 1 {
      MinCoordIsLeast(points[1..], a);
      forall k | 1 <= k < |points| ensures points[k] == points[1..][k - 1] { }
      if MinCoord(points, a) != Coord(points[0], a) {
        var j :| 0 <= j < |points[1..]| && MinCoord(points[1..], a) == Coord(points[1..][j], a);
        assert points[1..][j] == points[j + 1];
        assert MinCoord(points, a) == Coord(points[j + 1], a);
        return;
      }
    }
    assert MinCoord(points, a) == Coord(points[0], a);
  }

  /** MaxCoord is an upper bound of the coordinates and is one of them. */
  lemma {:induction false} MaxCoordIsGreatest(points: seq<Point3D>, a: Axis)
    requires |points| > 0
    ensures forall k :: 0 <= k < |points| ==> Coord(points[k], a) <= MaxCoord(points, a)
    ensures exists k :: 0 <= k < |points| && MaxCoord(points, a) == Coord(points[k], a)
  {
    if |points| > 1 {
      MaxCoordIsGreatest(points[1..], a);
      forall k | 1 <= k < |points| ensures points[k] == points[1..][k - 1] { }
      if MaxCoord(points, a) != Coord(points[0], a) {
        var j :| 0 <= j < |points[1..]| && MaxCoord(points[1..], a) == Coord(points[1..][j], a);
        assert points[1..][j] == points[j + 1];
        assert MaxCoord(points, a) == Coord(points[j + 1], a);
        return;
      }
    }
    assert MaxCoord(points, a) == Coord(points[0], a);
  }

  /** The box spanned by the smallest and largest coordinates on each axis. */
  function BoundingBox(points: seq<Point3D>): Box
    requires |points| > 0
  {
    Box(Range(MinCoord(points, X), MaxCoord(points, X)),
        Range(MinCoord(points, Y), MaxCoord(points, Y)),
        Range(MinCoord(points, Z), MaxCoord(points, Z)))
  }

  /**
   * The bounding box holds every point, is ordered, and is the smallest such box: each
   * of its six faces touches a point.
   */
  lemma BoundingBoxIsTight(points: seq<Point3D>)
    requires |points| > 0
    ensures Ordered(BoundingBox(points))
    ensures forall k :: 0 <= k < |points| ==> InBox(points[k], BoundingBox(points))
    ensures forall a: Axis :: exists k :: 0 <= k < |points| && Coord(points[k], a) == Extent(BoundingBox(points), a).lo
    ensures forall a: Axis :: exists k :: 0 <= k < |points| && Coord(points[k], a) == Extent(BoundingBox(points), a).hi
  {
    forall a: Axis
      ensures (exists k :: 0 <= k < |points| && Coord(points[k], a) == Extent(BoundingBox(points), a).lo) &&
              (exists k :: 0 <= k < |points| && Coord(points[k], a) == Extent(BoundingBox(points), a).hi) &&
              MinCoord(points, a) <= MaxCoord(points, a) &&
              (forall k :: 0 <= k < |points| ==> MinCoord(points, a) <= Coord(points[k], a) <= MaxCoord(points, a))
    {
      MinCoordIsLeast(points, a);
      MaxCoordIsGreatest(points, a);
    }
    assert forall k :: 0 <= k < |points| ==>
      MinCoord(points, X) <= Coord(points[k], X) <= MaxCoord(points, X) &&
      MinCoord(points, Y) <= Coord(points[k], Y) <= MaxCoord(points, Y) &&
      MinCoord(points, Z) <= Coord(points[k], Z) <= MaxCoord(points, Z);
    assert MinCoord(points, X) <= MaxCoord(points, X);
    assert MinCoord(points, Y) <= MaxCoord(points, Y);
    assert MinCoord(points, Z) <= MaxCoord(points, Z);
  }

  /**
   * The root that Compose sets up (Octree.cs:20-45): number 1, depth 1, parent 0, the
   * corners of the bounding box and every input point.
   */
  function RootNode(points: seq<Point3D>): Node
    requires |points| > 0
  {
    Node(1, 1, 0, points, CornersOf(BoundingBox(points)), None, [])
  }

  /** Compose: Divide on the root with both counters first set to 1 (Octree.cs:47-49). */
  function ComposeResult(points: seq<Point3D>, fuel: nat): Option<Build>
    requires |points| > 0
  {
    DivideResult(RootNode(points), Counters(1, 1), fuel)
  }

  /**
   * The root's corner array is laid out as every later division expects, and its box is
   * the bounding box, which holds all the points.
   */
  lemma RootBox(points: seq<Point3D>)
    requires |points| > 0
    ensures WellFormed(RootNode(points).corners)
    ensures FilterBox(RootNode(points).corners) == BoundingBox(points)
    ensures Ordered(BoundingBox(points))
    ensures forall k :: 0 <= k < |points| ==> InBox(points[k], FilterBox(RootNode(points).corners))
  {
    BoundingBoxIsTight(points);
  }

  /**
   * A finished Compose leaves a subdivided tree whose root keeps the root's fields, whose
   * nodes are numbered 1, 2, 3, ... in pre-order, with NumberOfNodes the number of nodes
   * and DepthOfTree the depth of the deepest node.
   */
  lemma ComposeProperties(points: seq<Point3D>, fuel: nat)
    requires |points| > 0 && ComposeResult(points, fuel).Some?
    ensures var b := ComposeResult(points, fuel).value; var s := Flatten(b.node);
      SameFields(b.node, RootNode(points)) && Subdivided(b.node) &&
      |s| == b.counters.numberOfNodes &&
      (forall k :: 0 <= k < |s| ==> s[k].no == k + 1) &&
      DepthsAtMost(s, b.counters.depthOfTree) && DepthAttained(s, b.counters.depthOfTree)
  {
    var n := RootNode(points);
    var c := Counters(1, 1);
    DivideShape(n, c, fuel);
    DivideNumbering(n, c, fuel);
    DivideDepth(n, c, fuel);
    var b := ComposeResult(points, fuel).value;
    var s := Flatten(b.node);
    assert s[0].depth == 1;
  }

  /**
   * More than 1000 points whose coordinates differ by at most 1 on every axis can never
   * be composed: Divide recurses without end.
   */
  lemma ComposeDiverges(points: seq<Point3D>, fuel: nat)
    requires |points| > MAX_POINTS
    requires forall a: Axis :: MaxCoord(points, a) - MinCoord(points, a) <= 1
    ensures ComposeResult(points, fuel) == None
  {
    RootBox(points);
    assert MaxCoord(points, X) - MinCoord(points, X) <= 1;
    assert MaxCoord(points, Y) - MinCoord(points, Y) <= 1;
    assert MaxCoord(points, Z) - MinCoord(points, Z) <= 1;
    assert Stuck(RootNode(points));
    StuckDiverges(RootNode(points), Counters(1, 1), fuel);
  }

  /**
   * The first division of a composed tree keeps every input point: each lies in the box
   * of at least one of the root's children.
   */
  lemma ComposeKeepsPoints(points: seq<Point3D>, fuel: nat, q: Point3D)
    requires |points| > MAX_POINTS && ComposeResult(points, fuel).Some? && q in points
    ensures var t := ComposeResult(points, fuel).value.node;
      |t.children| == 8 && exists k :: 0 <= k < 8 && q in t.children[k].points
  {
    var n := RootNode(points);
    RootBox(points);
    DivideShape(n, Counters(1, 1), fuel);
    var t := ComposeResult(points, fuel).value.node;
    assert SameFields(t, n);
    var i :| 0 <= i < |points| && points[i] == q;
    DivisionKeepsPoints(t, q);
  }
}
