/**
 * The octree builder of OcTree/Octree.cs and OctreeNode.Divide (OcTree/obj/Debug/OctreeNode.cs)
 * on the heap: an `OctreeNode` object per node whose fields Divide assigns in place, and an
 * `Octree` object holding the root and the two counters that the source keeps in static
 * properties. Every node carries a ghost `model`, the `Division.Node` value it stands for,
 * so that the methods are proved against the value-level definitions of module Division.
 */
module Octrees {
  import opened Points
  import opened Geometry
  import opened Division
  import opened Composition

  /** A corner array for a node whose corners have not been assigned yet (C# `null`). */
  const NoCorners: Corners := seq(8, _ => Point3D(0, 0, 0))

  class OctreeNode {
    var nodeNo: int
    var nodeDepth: int
    var nodePoints: seq<Point3D>
    var nodeParent: int
    var nodeCenter: Option<Point3D>
    var childNodes: seq<OctreeNode>
    var nodeCorners: Corners

    /** The tree rooted here, as a value. */
    ghost var model: Node
    /** The nodes of that tree. */
    ghost var repr: set<OctreeNode>

    /**
     * The fields agree with `model`, and each child is a valid tree of its own, not
     * containing this node, whose model is the matching child of `model`.
     */
    ghost predicate Valid()
      reads this, repr
      decreases repr
    {
      this in repr && Fields() &&
      (forall i :: 0 <= i < |childNodes| ==>
        childNodes[i] in repr && childNodes[i].repr <= repr && this !in childNodes[i].repr &&
        childNodes[i].Valid() && childNodes[i].model == model.children[i])
    }

    /** The fields of this node agree with `model`, children aside. */
    ghost predicate Fields()
      reads this
    {
      model.no == nodeNo && model.depth == nodeDepth && model.parent == nodeParent &&
      model.points == nodePoints && model.corners == nodeCorners && model.center == nodeCenter &&
      |model.children| == |childNodes|
    }

    /**
     * A node with the given fields and neither centre nor children: the object initialiser
     * of OctreeNode.cs:65-72, and the root of Octree.cs:20-23 before its box is set.
     */
    constructor Init(no: int, depth: int, parent: int, corners: Corners, points: seq<Point3D>)
      ensures Valid() && fresh(repr) && repr == {this}
      ensures model == Node(no, depth, parent, points, corners, None, [])
    {
      nodeNo, nodeDepth, nodeParent := no, depth, parent;
      nodePoints, nodeCorners, nodeCenter, childNodes := points, corners, None, [];
      model := Node(no, depth, parent, points, corners, None, []);
      repr := {this};
    }

    /**
     * Divide (OctreeNode.cs:47-75) applied to this node: a node with at most MAX_POINTS
     * points is left as it is; otherwise its centre is set, its children are replaced by
     * eight new nodes, and each is created, counted and divided in turn. `finished` is
     * false when the recursion needed more than `fuel` nested levels; when it is true,
     * the new tree and the counters are what DivideResult says.
     */
    method Divide(tree: Octree, fuel: nat) returns (finished: bool)
      requires Valid()
      modifies this, tree`numberOfNodes, tree`depthOfTree
      ensures Valid() && fresh(repr - old(repr))
      ensures var r := DivideResult(old(model), Counters(old(tree.numberOfNodes), old(tree.depthOfTree)), fuel);
        finished == r.Some? &&
        (finished ==>
          model == r.value.node &&
          tree.numberOfNodes == r.value.counters.numberOfNodes && tree.depthOfTree == r.value.counters.depthOfTree)
      decreases fuel, 2
    {
      if |nodePoints| <= MAX_POINTS {
        return true;
      }
      if fuel == 0 {
        return false;
      }
      StartDivision();
      finished := DivideChildren(tree, fuel);
    }

    /**
     * The loop of OctreeNode.cs:57-74 on a node whose centre is set and whose child list
     * is empty: children 1 to 8 are created and divided in turn, stopping as soon as one
     * of them runs out of fuel.
     */
    method DivideChildren(tree: Octree, fuel: nat) returns (finished: bool)
      requires Valid() && repr == {this} && childNodes == [] && nodeCenter.Some? && fuel >= 1
      modifies this, tree`numberOfNodes, tree`depthOfTree
      ensures Valid() && fresh(repr - old(repr))
      ensures var r := ChildrenResult(old(model), 1, Counters(old(tree.numberOfNodes), old(tree.depthOfTree)), fuel);
        finished == r.Some? &&
        (finished ==>
          model == r.value.node &&
          tree.numberOfNodes == r.value.counters.numberOfNodes && tree.depthOfTree == r.value.counters.depthOfTree)
      decreases fuel, 1
    {
      ghost var c0, m0 := Counters(tree.numberOfNodes, tree.depthOfTree), model;
      var i := 1;
      while i <= 8
        invariant 1 <= i <= 9 && |childNodes| == i - 1
        invariant Valid() && fresh(repr - old(repr))
        invariant model == m0.(children := model.children)
        invariant ChildrenResult(model, i, Counters(tree.numberOfNodes, tree.depthOfTree), fuel) ==
          ChildrenResult(m0, 1, c0, fuel)
      {
        ghost var c := Counters(tree.numberOfNodes, tree.depthOfTree);
        ChildrenStep(model, i, c, fuel);
        var ok := AddChild(tree, i, fuel);
        if !ok {
          return false;
        }
        i := i + 1;
      }
      return true;
    }

    /** Octree.cs:34-45: the corners and the points of a node not yet divided. */
    method SetBox(corners: Corners, points: seq<Point3D>)
      requires Valid() && repr == {this}
      modifies this
      ensures Valid() && repr == {this}
      ensures model == old(model).(corners := corners, points := points)
    {
      nodeCorners, nodePoints := corners, points;
      model := model.(corners := corners, points := points);
    }

    /** OctreeNode.cs:55-56: the centre is set and the children are replaced by an empty list. */
    method StartDivision()
      requires Valid()
      modifies this
      ensures Valid() && repr == {this}
      ensures model == old(model).(center := Some(GetDivisionPoint(old(nodeCorners))), children := [])
    {
      nodeCenter := Some(GetDivisionPoint(nodeCorners));
      childNodes := [];
      model, repr := model.(center := nodeCenter, children := []), {this};
    }

    /**
     * The start of an iteration of the loop of OctreeNode.cs:57-74: the corners of child
     * `childNo`, the counter updates of lines 60-64 and the new, undivided child node.
     */
    method NewChildNode(tree: Octree, childNo: int) returns (child: OctreeNode)
      requires Fields() && 1 <= childNo <= 8 && nodeCenter.Some?
      modifies tree`numberOfNodes, tree`depthOfTree
      ensures Counters(tree.numberOfNodes, tree.depthOfTree) ==
        Bump(Counters(old(tree.numberOfNodes), old(tree.depthOfTree)), nodeDepth + 1)
      ensures fresh(child) && child.Valid() && fresh(child.repr) && child.repr == {child}
      ensures child.model == NewChild(model, childNo, tree.numberOfNodes)
    {
      var corners := GetNodeCorners(nodeCorners, nodeCenter.value, childNo).value;
      tree.numberOfNodes := tree.numberOfNodes + 1;
      if tree.depthOfTree < nodeDepth + 1 {
        tree.depthOfTree := nodeDepth + 1;
      }
      child := new OctreeNode.Init(tree.numberOfNodes, nodeDepth + 1, nodeNo, corners,
                                   GetNodePoints(nodePoints, corners));
    }

    /**
     * One iteration of the loop of OctreeNode.cs:57-74: a new child node, appended to
     * ChildNodes and divided in turn.
     */
    method AddChild(tree: Octree, childNo: int, fuel: nat) returns (ok: bool)
      requires Valid() && 1 <= childNo <= 8 && |childNodes| == childNo - 1
      requires nodeCenter.Some? && fuel >= 1
      modifies this, tree`numberOfNodes, tree`depthOfTree
      ensures Valid() && fresh(repr - old(repr))
      ensures var c1 := Bump(Counters(old(tree.numberOfNodes), old(tree.depthOfTree)), old(model).depth + 1);
        var r := DivideResult(NewChild(old(model), childNo, c1.numberOfNodes), c1, fuel - 1);
        ok == r.Some? &&
        (ok ==> model == old(model).(children := old(model).children + [r.value.node]) &&
                Counters(tree.numberOfNodes, tree.depthOfTree) == r.value.counters)
      decreases fuel, 0
    {
      ghost var m0, done, before := model, childNodes, repr;
      var child := NewChildNode(tree, childNo);
      ghost var c1 := Counters(tree.numberOfNodes, tree.depthOfTree);
      assert c1 == Bump(Counters(old(tree.numberOfNodes), old(tree.depthOfTree)), m0.depth + 1);
      ghost var r := DivideResult(child.model, c1, fuel - 1);
      childNodes := childNodes + [child];
      ok := child.Divide(tree, fuel - 1);
      assert ok == r.Some? && (ok ==> child.model == r.value.node);
      assert model == m0 && childNodes == done + [child] && repr == before;
      model, repr := model.(children := model.children + [child.model]), repr + child.repr;
      Appended(this, child);
    }
  }

  /** A valid tree none of whose nodes changed is still valid. */
  twostate lemma StillValid(n: OctreeNode)
    requires old(n.Valid()) && unchanged(old(n.repr))
    ensures n.Valid()
  {
  }

  /**
   * Appending a valid subtree made of new nodes to the children of a valid node, whose
   * other nodes are unchanged, keeps it valid.
   */
  twostate lemma Appended(node: OctreeNode, new child: OctreeNode)
    requires old(node.Valid()) && unchanged(old(node.repr) - {node})
    requires node.childNodes == old(node.childNodes) + [child]
    requires node.model == old(node.model).(children := old(node.model.children) + [child.model])
    requires node.repr == old(node.repr) + child.repr
    requires node.Fields() && child.Valid() && fresh(child.repr)
    ensures node.Valid()
  {
    var n := |old(node.childNodes)|;
    forall k | 0 <= k < n
      ensures node.childNodes[k].repr == old(node.childNodes[k].repr) <= old(node.repr)
      ensures node.childNodes[k].model == old(node.childNodes[k].model)
      ensures node.childNodes[k].Valid()
    {
      assert old(node.childNodes[k].Valid());
      StillValid(node.childNodes[k]);
    }
  }

  datatype ComposeStatus =
    | Composed     // Divide finished
    | EmptyInput   // the LINQ Last()/First() calls of Octree.cs:25-32 throw on an empty list
    | OutOfFuel    // Divide needed more nested levels than the fuel allowed

  class Octree {
    var parentNode: OctreeNode?
    /** Octree.NumberOfNodes and Octree.DepthOfTree (Octree.cs:10,12). */
    var numberOfNodes: int
    var depthOfTree: int

    constructor ()
      ensures parentNode == null && numberOfNodes == 0 && depthOfTree == 0
    {
      parentNode, numberOfNodes, depthOfTree := null, 0, 0;
    }

    /**
     * Compose (Octree.cs:18-50): a new root numbered 1 at depth 1 with parent 0 becomes
     * ParentNode; for an empty list the minimum and maximum cannot be taken and nothing
     * else happens. Otherwise the root gets the corners of the bounding box and all the
     * points, both counters are set to 1 and the root is divided; the tree and the
     * counters are then what ComposeResult says.
     */
    method Compose(points: seq<Point3D>, fuel: nat) returns (status: ComposeStatus)
      modifies this
      ensures parentNode != null && fresh(parentNode.repr) && parentNode.Valid()
      ensures |points| == 0 ==>
        status == EmptyInput && parentNode.model == Node(1, 1, 0, [], NoCorners, None, []) &&
        numberOfNodes == old(numberOfNodes) && depthOfTree == old(depthOfTree)
      ensures |points| > 0 ==>
        var r := ComposeResult(points, fuel);
        (status == Composed <==> r.Some?) && (status == OutOfFuel <==> r.None?) &&
        (r.Some? ==> parentNode.model == r.value.node &&
                     numberOfNodes == r.value.counters.numberOfNodes && depthOfTree == r.value.counters.depthOfTree)
    {
      var root := new OctreeNode.Init(1, 1, 0, NoCorners, []);
      parentNode := root;
      if |points| == 0 {
        return EmptyInput;
      }
      root.SetBox(CornersOf(BoundingBox(points)), points);
      depthOfTree, numberOfNodes := 1, 1;
      var finished := root.Divide(this, fuel);
      status := if finished then Composed else OutOfFuel;
    }
  }
}
