/**
 * The recursive subdivision of OctreeNode.Divide (OcTree/obj/Debug/OctreeNode.cs:47-75),
 * stated on values: a node is a `Node` tree and the two process-wide counters of
 * Octree.cs:10,12 are a `Counters` value threaded through the recursion in the order the
 * source updates them. The source gives no termination guarantee, so the recursion carries
 * a fuel bound and answers `None` when the bound is reached.
 */
module Division {
  import opened Points
  import opened Geometry

  /** A node with more points than this is split into eight children (OctreeNode.cs:50). */
  const MAX_POINTS := 1000

  /**
   * An OctreeNode as a value: NodeNo, NodeDepth, NodeParent, NodePoints, NodeCorners,
   * NodeCenter (`None` while unset) and ChildNodes (`[]` while unset).
   */
  datatype Node = Node(no: int, depth: int, parent: int, points: seq<Point3D>,
                       corners: Corners, center: Option<Point3D>, children: seq<Node>)

  /** Octree.NumberOfNodes and Octree.DepthOfTree. */
  datatype Counters = Counters(numberOfNodes: int, depthOfTree: int)

  /** A divided node together with the counters after the division. */
  datatype Build = Build(node: Node, counters: Counters)

  /** The counter updates made just before child creation (OctreeNode.cs:60-64). */
  function Bump(c: Counters, childDepth: int): (r: Counters)
    ensures r.numberOfNodes == c.numberOfNodes + 1
    ensures r.depthOfTree >= c.depthOfTree && r.depthOfTree >= childDepth
    ensures r.depthOfTree == c.depthOfTree || r.depthOfTree == childDepth
  {
    Counters(c.numberOfNodes + 1, if c.depthOfTree < childDepth then childDepth else c.depthOfTree)
  }

  /** The child that OctreeNode.cs:65-72 creates as child `childNo`, numbered `no`. */
  function NewChild(parent: Node, childNo: int, no: int): Node
    requires parent.center.Some? && 1 <= childNo <= 8
  {
    var corners := GetNodeCorners(parent.corners, parent.center.value, childNo).value;
    Node(no, parent.depth + 1, parent.no, GetNodePoints(parent.points, corners), corners, None, [])
  }

  /**
   * Divide applied to `n` with counters `c`: `None` when the recursion needs more than
   * `fuel` nested levels.
   */
  function DivideResult(n: Node, c: Counters, fuel: nat): Option<Build>
    decreases fuel, 1
  {
    if |n.points| <= MAX_POINTS then Some(Build(n, c))
    else if fuel == 0 then None
    else ChildrenResult(n.(center := Some(GetDivisionPoint(n.corners)), children := []), 1, c, fuel)
  }

  /** Iterations `childNo`..8 of the loop of OctreeNode.cs:57-74, children so far in `parent`. */
  function ChildrenResult(parent: Node, childNo: int, c: Counters, fuel: nat): Option<Build>
    requires 1 <= childNo <= 9 && parent.center.Some? && fuel >= 1
    decreases fuel, 0, 9 - childNo
  {
    if childNo == 9 then Some(Build(parent, c))
    else
      var c1 := Bump(c, parent.depth + 1);
      match DivideResult(NewChild(parent, childNo, c1.numberOfNodes), c1, fuel - 1)
      case None => None
      case Some(b) => ChildrenResult(parent.(children := parent.children + [b.node]), childNo + 1, b.counters, fuel)
  }

  /**
   * One unfolding of ChildrenResult, in the form the loop of OctreeNode.DivideChildren
   * uses as its step.
   */
  lemma ChildrenStep(parent: Node, childNo: int, c: Counters, fuel: nat)
    requires 1 <= childNo <= 8 && parent.center.Some? && fuel >= 1
    ensures var c1 := Bump(c, parent.depth + 1);
      var r := DivideResult(NewChild(parent, childNo, c1.numberOfNodes), c1, fuel - 1);
      ChildrenResult(parent, childNo, c, fuel) ==
        if r.None? then None
        else ChildrenResult(parent.(children := parent.children + [r.value.node]), childNo + 1, r.value.counters, fuel)
  {
  }

  // ----- Observations on trees -----

  /** The nodes of a tree in pre-order (a node, then its children's subtrees in order). */
  function Flatten(t: Node): (s: seq<Node>)
    ensures |s| >= 1 && s[0] == t
    decreases t, 1
  {
    [t] + FlattenAll(t.children)
  }

  function FlattenAll(ts: seq<Node>): seq<Node>
    decreases ts, 0
  {
    if |ts| == 0 then [] else FlattenAll(ts[..|ts| - 1]) + Flatten(ts[|ts| - 1])
  }

  /** The fields of a node other than its centre and children. */
  predicate SameFields(a: Node, b: Node) {
    a.no == b.no && a.depth == b.depth && a.parent == b.parent &&
    a.points == b.points && a.corners == b.corners
  }

  /** `child` is what Divide makes as child `childNo` of `parent`, up to its number. */
  predicate ChildOf(parent: Node, childNo: int, child: Node)
    requires parent.center.Some? && 1 <= childNo <= 8
  {
    var corners := GetNodeCorners(parent.corners, parent.center.value, childNo).value;
    child.depth == parent.depth + 1 && child.parent == parent.no &&
    child.corners == corners && child.points == GetNodePoints(parent.points, corners)
  }

  /**
   * The shape Divide leaves behind: a node with at most MAX_POINTS points has no centre
   * and no children; any other node has its division point as centre and exactly eight
   * children, child k being GetNodeCorners' array k with the parent's points filtered
   * by it, each subdivided in turn.
   */
  predicate Subdivided(t: Node)
    decreases t
  {
    if |t.points| <= MAX_POINTS then t.center == None && t.children == []
    else
      t.center == Some(GetDivisionPoint(t.corners)) && |t.children| == 8 &&
      forall k :: 0 <= k < 8 ==> ChildOf(t, k + 1, t.children[k]) && Subdivided(t.children[k])
  }

  // ----- Shape -----

  lemma {:induction false} DivideShape(n: Node, c: Counters, fuel: nat)
    requires n.center == None && n.children == []
    requires DivideResult(n, c, fuel).Some?
    ensures SameFields(DivideResult(n, c, fuel).value.node, n)
    ensures Subdivided(DivideResult(n, c, fuel).value.node)
    decreases fuel, 1
  {
    if |n.points| > MAX_POINTS {
      ChildrenShape(n.(center := Some(GetDivisionPoint(n.corners)), children := []), 1, c, fuel);
    }
  }

  lemma {:induction false} ChildrenShape(parent: Node, childNo: int, c: Counters, fuel: nat)
    requires 1 <= childNo <= 9 && parent.center.Some? && fuel >= 1
    requires |parent.children| == childNo - 1
    requires forall k :: 0 <= k < childNo - 1 ==>
      ChildOf(parent, k + 1, parent.children[k]) && Subdivided(parent.children[k])
    requires ChildrenResult(parent, childNo, c, fuel).Some?
    ensures var t := ChildrenResult(parent, childNo, c, fuel).value.node;
      t == parent.(children := t.children) && |t.children| == 8 &&
      forall k :: 0 <= k < 8 ==> ChildOf(t, k + 1, t.children[k]) && Subdivided(t.children[k])
    decreases fuel, 0, 9 - childNo
  {
    if childNo < 9 {
      var c1 := Bump(c, parent.depth + 1);
      var child := NewChild(parent, childNo, c1.numberOfNodes);
      DivideShape(child, c1, fuel - 1);
      var b := DivideResult(child, c1, fuel - 1).value;
      var next := parent.(children := parent.children + [b.node]);
      assert forall k :: 0 <= k < childNo ==> next.children[k] == if k < childNo - 1 then parent.children[k] else b.node;
      ChildrenShape(next, childNo + 1, b.counters, fuel);
    }
  }

  // ----- Numbering -----

  /**
   * Pre-order numbering: a finished Divide of a fresh node numbered `n.no` gives the
   * nodes below it the numbers c+1, c+2, ... in pre-order, where c is NumberOfNodes
   * before the call, and leaves NumberOfNodes at c plus the number of nodes created.
   */
  lemma {:induction false} DivideNumbering(n: Node, c: Counters, fuel: nat)
    requires n.children == []
    requires DivideResult(n, c, fuel).Some?
    ensures var b := DivideResult(n, c, fuel).value; var s := Flatten(b.node);
      s[0].no == n.no &&
      |s| == 1 + b.counters.numberOfNodes - c.numberOfNodes &&
      forall k :: 1 <= k < |s| ==> s[k].no == c.numberOfNodes + k
    decreases fuel, 1
  {
    if |n.points| > MAX_POINTS {
      var p := n.(center := Some(GetDivisionPoint(n.corners)), children := []);
      ChildrenNumbering(p, 1, c, fuel, c.numberOfNodes);
    }
  }

  lemma {:induction false} ChildrenNumbering(parent: Node, childNo: int, c: Counters, fuel: nat, base: int)
    requires 1 <= childNo <= 9 && parent.center.Some? && fuel >= 1
    requires var s := FlattenAll(parent.children);
      c.numberOfNodes == base + |s| && forall k :: 0 <= k < |s| ==> s[k].no == base + 1 + k
    requires ChildrenResult(parent, childNo, c, fuel).Some?
    ensures var b := ChildrenResult(parent, childNo, c, fuel).value; var s := FlattenAll(b.node.children);
      b.node.no == parent.no &&
      b.counters.numberOfNodes == base + |s| && forall k :: 0 <= k < |s| ==> s[k].no == base + 1 + k
    decreases fuel, 0, 9 - childNo
  {
    if childNo < 9 {
      var c1 := Bump(c, parent.depth + 1);
      var child := NewChild(parent, childNo, c1.numberOfNodes);
      DivideNumbering(child, c1, fuel - 1);
      var b := DivideResult(child, c1, fuel - 1).value;
      var next := parent.(children := parent.children + [b.node]);
      assert next.children[..|next.children| - 1] == parent.children;
      assert FlattenAll(next.children) == FlattenAll(parent.children) + Flatten(b.node);
      ChildrenNumbering(next, childNo + 1, b.counters, fuel, base);
    }
  }

  // ----- Depth -----

  /** `d` bounds the depth of every node of `s`. */
  predicate DepthsAtMost(s: seq<Node>, d: int) {
    forall k :: 0 <= k < |s| ==> s[k].depth <= d
  }

  /** Some node of `s` has depth `d`. */
  predicate DepthAttained(s: seq<Node>, d: int) {
    exists k :: 0 <= k < |s| && s[k].depth == d
  }

  lemma DepthsWeaken(s: seq<Node>, d: int, e: int)
    requires DepthsAtMost(s, d) && d <= e
    ensures DepthsAtMost(s, e)
  {
  }

  lemma DepthsConcat(s0: seq<Node>, s1: seq<Node>, d: int)
    ensures DepthsAtMost(s0, d) && DepthsAtMost(s1, d) ==> DepthsAtMost(s0 + s1, d)
    ensures DepthAttained(s0, d) || DepthAttained(s1, d) ==> DepthAttained(s0 + s1, d)
  {
    if DepthAttained(s1, d) {
      var k :| 0 <= k < |s1| && s1[k].depth == d;
      assert (s0 + s1)[|s0| + k] == s1[k];
    }
    if DepthAttained(s0, d) {
      var k :| 0 <= k < |s0| && s0[k].depth == d;
      assert (s0 + s1)[k] == s0[k];
    }
  }

  /**
   * The depth facts of the children so far and of a new child's subtree, whose root sits
   * at the depth d1 was raised to, carry over to them together.
   */
  lemma DepthsJoin(s0: seq<Node>, s1: seq<Node>, base: int, d0: int, d1: int, d: int)
    requires d0 >= base && DepthsAtMost(s0, d0) && (d0 == base || DepthAttained(s0, d0))
    requires d1 >= d0 && (d1 == d0 || (|s1| > 0 && s1[0].depth == d1))
    requires d >= d1 && DepthsAtMost(s1, d) && (d == d1 || DepthAttained(s1, d))
    ensures d >= base && DepthsAtMost(s0 + s1, d) && (d == base || DepthAttained(s0 + s1, d))
  {
    DepthsWeaken(s0, d0, d);
    DepthsConcat(s0, s1, d);
    if d == d1 && d1 != d0 {
      assert DepthAttained(s1, d);
    }
  }

  /** A root no deeper than `base` keeps the depth facts of the nodes below it. */
  lemma DepthsCons(t: Node, rest: seq<Node>, base: int, d: int)
    requires t.depth <= base <= d && DepthsAtMost(rest, d) && (d == base || DepthAttained(rest, d))
    ensures DepthsAtMost([t] + rest, d) && (d == base || DepthAttained([t] + rest, d))
  {
    DepthsConcat([t], rest, d);
  }

  /**
   * DepthOfTree after a finished Divide is the larger of its value before and the depth
   * of the deepest node of the subtree.
   */
  lemma {:induction false} DivideDepth(n: Node, c: Counters, fuel: nat)
    requires n.children == [] && c.depthOfTree >= n.depth
    requires DivideResult(n, c, fuel).Some?
    ensures var b := DivideResult(n, c, fuel).value; var s := Flatten(b.node);
      b.node.depth == n.depth && b.counters.depthOfTree >= c.depthOfTree &&
      DepthsAtMost(s, b.counters.depthOfTree) &&
      (b.counters.depthOfTree == c.depthOfTree || DepthAttained(s, b.counters.depthOfTree))
    decreases fuel, 1
  {
    if |n.points| > MAX_POINTS {
      var p := n.(center := Some(GetDivisionPoint(n.corners)), children := []);
      ChildrenDepth(p, 1, c, fuel, c.depthOfTree);
      var b := DivideResult(n, c, fuel).value;
      DepthsCons(b.node, FlattenAll(b.node.children), c.depthOfTree, b.counters.depthOfTree);
    }
  }

  lemma {:induction false} ChildrenDepth(parent: Node, childNo: int, c: Counters, fuel: nat, base: int)
    requires 1 <= childNo <= 9 && parent.center.Some? && fuel >= 1
    requires base >= parent.depth
    requires var s := FlattenAll(parent.children);
      c.depthOfTree >= base && DepthsAtMost(s, c.depthOfTree) &&
      (c.depthOfTree == base || DepthAttained(s, c.depthOfTree))
    requires ChildrenResult(parent, childNo, c, fuel).Some?
    ensures var b := ChildrenResult(parent, childNo, c, fuel).value; var s := FlattenAll(b.node.children);
      b.node.depth == parent.depth &&
      b.counters.depthOfTree >= base && DepthsAtMost(s, b.counters.depthOfTree) &&
      (b.counters.depthOfTree == base || DepthAttained(s, b.counters.depthOfTree))
    decreases fuel, 0, 9 - childNo
  {
    if childNo < 9 {
      var c1 := Bump(c, parent.depth + 1);
      var child := NewChild(parent, childNo, c1.numberOfNodes);
      DivideDepth(child, c1, fuel - 1);
      var b := DivideResult(child, c1, fuel - 1).value;
      var next := parent.(children := parent.children + [b.node]);
      assert next.children[..|next.children| - 1] == parent.children;
      var s0, s1 := FlattenAll(parent.children), Flatten(b.node);
      assert FlattenAll(next.children) == s0 + s1;
      DepthsJoin(s0, s1, base, c.depthOfTree, c1.depthOfTree, b.counters.depthOfTree);
      ChildrenDepth(next, childNo + 1, b.counters, fuel, base);
    }
  }

  // ----- Fuel -----

  /** Once Divide finishes within some fuel, more fuel gives the same result. */
  lemma {:induction false} DivideFuel(n: Node, c: Counters, fuel: nat, more: nat)
    requires fuel <= more && DivideResult(n, c, fuel).Some?
    ensures DivideResult(n, c, more) == DivideResult(n, c, fuel)
    decreases fuel, 1
  {
    if |n.points| > MAX_POINTS {
      ChildrenFuel(n.(center := Some(GetDivisionPoint(n.corners)), children := []), 1, c, fuel, more);
    }
  }

  lemma {:induction false} ChildrenFuel(parent: Node, childNo: int, c: Counters, fuel: nat, more: nat)
    requires 1 <= childNo <= 9 && parent.center.Some? && 1 <= fuel <= more
    requires ChildrenResult(parent, childNo, c, fuel).Some?
    ensures ChildrenResult(parent, childNo, c, more) == ChildrenResult(parent, childNo, c, fuel)
    decreases fuel, 0, 9 - childNo
  {
    if childNo < 9 {
      var c1 := Bump(c, parent.depth + 1);
      var child := NewChild(parent, childNo, c1.numberOfNodes);
      DivideFuel(child, c1, fuel - 1, more - 1);
      var b := DivideResult(child, c1, fuel - 1).value;
      ChildrenFuel(parent.(children := parent.children + [b.node]), childNo + 1, b.counters, fuel, more);
    }
  }

  // ----- Non-termination -----

  /**
   * A node Divide cannot finish: more than MAX_POINTS points, a corner array laid out as
   * the root's, every point inside its box and each side of the box at most 1 long.
   */
  predicate Stuck(n: Node) {
    var b := FilterBox(n.corners);
    |n.points| > MAX_POINTS && WellFormed(n.corners) &&
    0 <= b.xs.hi - b.xs.lo <= 1 && 0 <= b.ys.hi - b.ys.lo <= 1 && 0 <= b.zs.hi - b.zs.lo <= 1 &&
    forall k :: 0 <= k < |n.points| ==> InBox(n.points[k], b)
  }

  /**
   * On a stuck node the division point is the low corner of the box, so child 2 (upper
   * half on every axis) gets the whole box and every point again: Divide recurses
   * without end, whatever the counters and however much fuel is given.
   */
  lemma {:induction false} StuckDiverges(n: Node, c: Counters, fuel: nat)
    requires Stuck(n)
    ensures DivideResult(n, c, fuel) == None
    decreases fuel
  {
    if fuel > 0 {
      var p := n.(center := Some(GetDivisionPoint(n.corners)), children := []);
      var c1 := Bump(c, p.depth + 1);
      var child1 := NewChild(p, 1, c1.numberOfNodes);
      match DivideResult(child1, c1, fuel - 1)
      case None =>
      case Some(b1) =>
        var next := p.(children := [b1.node]);
        assert p.children + [b1.node] == next.children;
        var c2 := Bump(b1.counters, next.depth + 1);
        var child2 := NewChild(next, 2, c2.numberOfNodes);
        StuckChild(n, next, c2.numberOfNodes);
        StuckDiverges(child2, c2, fuel - 1);
        assert ChildrenResult(next, 2, b1.counters, fuel) == None;
        assert ChildrenResult(p, 1, c, fuel) == ChildrenResult(next, 2, b1.counters, fuel);
    }
  }

  /** Child 2 of a stuck node is stuck again, with the same corners and points. */
  lemma StuckChild(n: Node, parent: Node, no: int)
    requires Stuck(n) && parent.center == Some(GetDivisionPoint(n.corners))
    requires parent.corners == n.corners && parent.points == n.points
    ensures NewChild(parent, 2, no).corners == n.corners
    ensures NewChild(parent, 2, no).points == n.points
    ensures Stuck(NewChild(parent, 2, no))
  {
    var b := FilterBox(n.corners);
    var cc := GetNodeCorners(n.corners, GetDivisionPoint(n.corners), 2).value;
    ChildCorners(n.corners, 2);
    Div2Truncates(b.xs.hi - b.xs.lo);
    Div2Truncates(b.ys.hi - b.ys.lo);
    Div2Truncates(b.zs.hi - b.zs.lo);
    assert ChildBox(b, 2) == b;
    WellFormedDeterminedByBox(cc, n.corners);
    GetNodePointsAllInside(n.points, cc);
  }

  // ----- Points of a division -----

  /**
   * In a divided node whose corners are laid out as the root's, each child's points are
   * exactly the parent's points inside that child's octant, as often as in the parent.
   */
  lemma ChildPoints(t: Node, k: int, q: Point3D)
    requires Subdivided(t) && |t.points| > MAX_POINTS && WellFormed(t.corners) && 0 <= k < 8
    ensures multiset(t.children[k].points)[q] ==
      if InBox(q, ChildBox(FilterBox(t.corners), k + 1)) then multiset(t.points)[q] else 0
  {
    assert ChildOf(t, k + 1, t.children[k]);
    var cc := GetNodeCorners(t.corners, t.center.value, k + 1).value;
    ChildCorners(t.corners, k + 1);
    GetNodePointsCount(t.points, cc, q);
  }

  /** A point is kept by GetNodePoints exactly when it is in the list and inside the corners. */
  lemma KeptPoint(points: seq<Point3D>, corners: Corners, q: Point3D)
    ensures q in GetNodePoints(points, corners) <==> q in points && InsideCorners(q, corners)
  {
    GetNodePointsCount(points, corners, q);
    assert q in GetNodePoints(points, corners) <==> multiset(GetNodePoints(points, corners))[q] > 0;
    assert q in points <==> multiset(points)[q] > 0;
  }

  /**
   * As written, Divide can lose points two levels down: in a divided node with the box
   * [0, 8]^3, the point (7, 3, 3) goes to child 7, and when child 7 is divided none of its
   * eight children keeps it (Geometry.Child7LosesPoint).
   */
  lemma Child7DropsPoint(t: Node)
    requires Subdivided(t) && |t.points| > MAX_POINTS && t.corners == Cube8
    requires Point3D(7, 3, 3) in t.points && |t.children[6].points| > MAX_POINTS
    ensures Point3D(7, 3, 3) in t.children[6].points && |t.children[6].children| == 8
    ensures forall k :: 0 <= k < 8 ==> Point3D(7, 3, 3) !in t.children[6].children[k].points
  {
    var q := Point3D(7, 3, 3);
    assert ChildOf(t, 7, t.children[6]) && Subdivided(t.children[6]);
    var c7 := t.children[6];
    Child7LosesPoint();
    KeptPoint(t.points, c7.corners, q);
    forall k | 0 <= k < 8
      ensures q !in c7.children[k].points
    {
      assert ChildOf(c7, k + 1, c7.children[k]);
      KeptPoint(c7.points, c7.children[k].corners, q);
    }
  }

  /**
   * No point is lost by one division: every point of a divided node that lies in the
   * node's box is kept by at least one of its eight children.
   */
  lemma DivisionKeepsPoints(t: Node, q: Point3D)
    requires Subdivided(t) && |t.points| > MAX_POINTS && WellFormed(t.corners)
    requires Ordered(FilterBox(t.corners)) && q in t.points && InBox(q, FilterBox(t.corners))
    ensures exists k :: 0 <= k < 8 && q in t.children[k].points
  {
    OctantsCover(FilterBox(t.corners), q);
    var childNo :| 1 <= childNo <= 8 && InBox(q, ChildBox(FilterBox(t.corners), childNo));
    ChildPoints(t, childNo - 1, q);
    assert q in t.children[childNo - 1].points;
  }
}
