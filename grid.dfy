/**
 * The `FractalGrid` of g_star.py: coordinate validation, the imperative
 * walks over the tree (`_find_leaf`, `_merge_repeatedly`, the inner `decay`
 * and `gather`), and the grid object whose state is its root and its
 * configuration.
 */
module Grid {
  import opened Wrappers
  import opened Cell
  import opened Tree
  import opened Rebalance
  import opened Decay

  /** The one caller-facing error: a coordinate outside [0, 1). */
  datatype CoordError = InvalidCoordinate

  /** `validate_coord`: a coordinate is accepted, unchanged, exactly when 0 <= x < 1. */
  function ValidateCoord(x: real): (r: Result<real, CoordError>)
    ensures r.Success? <==> 0.0 <= x < 1.0
    ensures r.Success? ==> r.value == x
    ensures r.Failure? ==> r.error == InvalidCoordinate
  {
    if 0.0 <= x < 1.0 then Success(x) else Failure(InvalidCoordinate)
  }

  /** The rectangle covers the whole range that `validate_coord` admits. */
  predicate CoversUnitSquare(b: Bounds)
  {
    b.xMin <= 0.0 && b.yMin <= 0.0 && 1.0 <= b.xMax && 1.0 <= b.yMax
  }

  /**
   * `_find_leaf`: descend from `node`, at each internal cell scanning the
   * children in quadrant order for one that contains the point; stop at a
   * leaf, or at a cell where the scan finds none. The answer is the path of
   * quadrant indices to the cell where the descent stopped.
   */
  method FindLeaf(node: Node, x: real, y: real) returns (path: seq<nat>)
    ensures path == LeafPath(node, x, y)
  {
    var current := node;
    path := [];
    while !current.IsLeaf()
      invariant path + LeafPath(current, x, y) == LeafPath(node, x, y)
      decreases current
    {
      var children := current.children;
      var found := false;
      var k := 0;
      for i := 0 to |children|
        invariant !found
        invariant FirstContaining(children[..i], x, y).None?
      {
        FirstContainingExtend(children, i, x, y);
        if children[i].Contains(x, y) {
          k := i;
          found := true;
          break;
        }
      }
      if !found {
        assert children[..|children|] == children;
        LeafPathStops(current, x, y);
        break;
      }
      LeafPathStep(current, k, x, y);
      assert path + LeafPath(current, x, y) == (path + [k]) + LeafPath(children[k], x, y);
      current := children[k];
      path := path + [k];
    }
  }

  /**
   * One step of the descent: when child i is the first child containing the
   * point, the descent continues from child i.
   */
  lemma LeafPathStep(n: Node, i: nat, x: real, y: real)
    requires i < |n.children| && FirstContaining(n.children, x, y) == Some(i)
    ensures LeafPath(n, x, y) == [i] + LeafPath(n.children[i], x, y)
  {
  }

  /** The scan of the children, one more child at a time. */
  lemma FirstContainingExtend(cs: seq<Node>, i: nat, x: real, y: real)
    requires i < |cs| && FirstContaining(cs[..i], x, y).None?
    ensures cs[i].Contains(x, y) ==> FirstContaining(cs, x, y) == Some(i)
    ensures !cs[i].Contains(x, y) ==> FirstContaining(cs[..i + 1], x, y).None?
  {
    assert forall j :: 0 <= j < i ==> cs[..i][j] == cs[j];
    assert forall j :: 0 <= j < i + 1 ==> cs[..i + 1][j] == cs[j];
  }

  /** The fallback of the descent: when no child contains the point, it stops where it is. */
  lemma LeafPathStops(n: Node, x: real, y: real)
    requires FirstContaining(n.children, x, y).None?
    ensures LeafPath(n, x, y) == []
  {
  }

  /**
   * `_merge_repeatedly`: sweep each child in quadrant order, then merge the
   * cell when the guard holds of it.
   */
  method MergeRepeatedly(node: Node, mergeThreshold: real) returns (r: Node)
    ensures r == MergeSweep(node, mergeThreshold)
  {
    if node.IsLeaf() {
      return node;
    }
    var kids := node.children;
    for i := 0 to |kids|
      invariant |kids| == |node.children|
      invariant forall j :: 0 <= j < i ==> kids[j] == MergeSweep(node.children[j], mergeThreshold)
      invariant forall j :: i <= j < |kids| ==> kids[j] == node.children[j]
    {
      var swept := MergeRepeatedly(kids[i], mergeThreshold);
      kids := kids[i := swept];
    }
    assert kids == MergeSweepSeq(node.children, mergeThreshold);
    r := node.(children := kids);
    if CanMerge(r, mergeThreshold) {
      r := Merge(r);
    }
  }

  /** The inner `decay` of `decay_load`: decay a leaf's load, or recurse into each child. */
  method DecayTree(node: Node, factor: real) returns (r: Node)
    ensures r == Decayed(node, factor)
  {
    if node.IsLeaf() {
      var load := node.load * factor;
      if load < ClampBelow {
        load := 0.0;
      }
      return node.(load := load);
    }
    var kids := node.children;
    for i := 0 to |kids|
      invariant |kids| == |node.children|
      invariant forall j :: 0 <= j < i ==> kids[j] == Decayed(node.children[j], factor)
      invariant forall j :: i <= j < |kids| ==> kids[j] == node.children[j]
    {
      var c := DecayTree(kids[i], factor);
      kids := kids[i := c];
    }
    assert kids == DecayedSeq(node.children, factor);
    r := node.(children := kids);
  }

  /** The inner `gather` of `get_leaves`: the leaves, children concatenated in quadrant order. */
  method Gather(node: Node) returns (result: seq<Node>)
    ensures result == Leaves(node)
  {
    if node.IsLeaf() {
      return [node];
    }
    var children := node.children;
    result := [];
    for i := 0 to |children|
      invariant result + LeavesSeq(children[i..]) == LeavesSeq(children)
    {
      var sub := Gather(children[i]);
      assert children[i..][1..] == children[i + 1..];
      result := result + sub;
    }
    assert children[|children|..] == [];
  }

  /**
   * The grid: the root cell and the configuration. The root keeps the
   * configured rectangle and level 0, and the tree under it stays well
   * formed with respect to the depth cap.
   */
  class FractalGrid {
    var root: Node
    const bounds: Bounds
    const maxLevel: int
    var splitThreshold: real
    var mergeThreshold: real
    var decayFactor: real
    var decayInterval: real

    ghost predicate Valid()
      reads this
    {
      && root.bounds == bounds
      && root.level == 0
      && CoversUnitSquare(bounds)
      && WellFormed(root, maxLevel)
    }

    /** A grid whose root is one empty leaf over the configured rectangle. */
    constructor (xMin: real := 0.0, yMin: real := 0.0, xMax: real := 1.0, yMax: real := 1.0,
                 maxLevel: int := 6, splitThreshold: real := 5.0, mergeThreshold: real := 2.0,
                 decayFactor: real := 0.9, decayInterval: real := 1.0)
      requires CoversUnitSquare(Bounds(xMin, yMin, xMax, yMax))
      ensures Valid()
      ensures root == NewLeaf(Bounds(xMin, yMin, xMax, yMax), 0)
      ensures this.maxLevel == maxLevel && this.splitThreshold == splitThreshold
      ensures this.mergeThreshold == mergeThreshold
      ensures this.decayFactor == decayFactor && this.decayInterval == decayInterval
    {
      bounds := Bounds(xMin, yMin, xMax, yMax);
      root := NewLeaf(Bounds(xMin, yMin, xMax, yMax), 0);
      this.maxLevel := maxLevel;
      this.splitThreshold := splitThreshold;
      this.mergeThreshold := mergeThreshold;
      this.decayFactor := decayFactor;
      this.decayInterval := decayInterval;
    }

    /**
     * `get`: validate both coordinates, then record one unit of load on the
     * leaf containing the point and return that leaf's new load. Nothing
     * else in the tree changes.
     */
    method Get(x: real, y: real) returns (r: Result<real, CoordError>)
      requires Valid()
      modifies this`root
      ensures Valid()
      ensures !(0.0 <= x < 1.0 && 0.0 <= y < 1.0) ==> r == Failure(InvalidCoordinate) && root == old(root)
      ensures 0.0 <= x < 1.0 && 0.0 <= y < 1.0 ==>
                var p := LeafPath(old(root), x, y);
                && root == Record(old(root), p)
                && NodeAt(root, p).IsLeaf() && NodeAt(root, p).Contains(x, y)
                && r == Success(NodeAt(root, p).load)
                && NodeAt(root, p).load == NodeAt(old(root), p).load + 1.0
                && TotalLoad(root) == TotalLoad(old(root)) + 1.0
    {
      var vx := ValidateCoord(x);
      if vx.Failure? {
        return Failure(vx.error);
      }
      var vy := ValidateCoord(y);
      if vy.Failure? {
        return Failure(vy.error);
      }
      var path := FindLeaf(root, vx.value, vy.value);
      LeafPathReachesLeaf(root, maxLevel, x, y);
      RecordWellFormed(root, maxLevel, path);
      root := Record(root, path);
      r := Success(NodeAt(root, path).load);
    }

    /**
     * `set`: validate both coordinates, record one unit of load on the leaf
     * containing the point, then apply the split rule to that leaf.
     */
    method Set(x: real, y: real) returns (r: Outcome<CoordError>)
      requires Valid()
      modifies this`root
      ensures Valid()
      ensures !(0.0 <= x < 1.0 && 0.0 <= y < 1.0) ==> r == Fail(InvalidCoordinate) && root == old(root)
      ensures 0.0 <= x < 1.0 && 0.0 <= y < 1.0 ==>
                && r == Pass
                && root == SetStep(old(root), x, y, splitThreshold, maxLevel)
                && TotalLoad(root) == TotalLoad(old(root)) + 1.0
    {
      var vx := ValidateCoord(x);
      if vx.Failure? {
        return Fail(vx.error);
      }
      var vy := ValidateCoord(y);
      if vy.Failure? {
        return Fail(vy.error);
      }
      var path := FindLeaf(root, vx.value, vy.value);
      LeafPathReachesLeaf(root, maxLevel, x, y);
      RecordWellFormed(root, maxLevel, path);
      root := Record(root, path);
      Rebalance(path);
      r := Pass;
    }

    /**
     * `_rebalance` on the cell at `path`: subdivide it when it is a leaf whose
     * load exceeds the split threshold and whose level is below the cap.
     */
    method Rebalance(path: seq<nat>)
      requires Valid() && ValidPath(root, path)
      modifies this`root
      ensures Valid()
      ensures root == SplitIfHot(old(root), path, splitThreshold, maxLevel)
    {
      var node := NodeAt(root, path);
      if node.load > splitThreshold && node.level < maxLevel && node.IsLeaf() {
        SubdivideWellFormed(root, maxLevel, path);
        root := ReplaceAt(root, path, Subdivide(node));
      }
    }

    /** `periodic_rebalance`: one bottom-up merge sweep from the root. */
    method PeriodicRebalance()
      requires Valid()
      modifies this`root
      ensures Valid()
      ensures root == MergeSweep(old(root), mergeThreshold)
      ensures Settled(root, mergeThreshold) && TotalLoad(root) == TotalLoad(old(root))
    {
      MergeSweepWellFormed(root, maxLevel, mergeThreshold);
      root := MergeRepeatedly(root, mergeThreshold);
    }

    /** `decay_load`: decay every leaf's load by the given factor, clamping tiny loads to zero. */
    method DecayLoad(factor: real)
      requires Valid()
      modifies this`root
      ensures Valid()
      ensures root == Decayed(old(root), factor)
      ensures SameShape(root, old(root))
    {
      DecayedWellFormed(root, maxLevel, factor);
      root := DecayTree(root, factor);
    }

    /**
     * `get_leaves`: a snapshot of the leaves in quadrant pre-order. Every
     * point of the unit square lies in exactly one of them, and together they
     * hold the whole load of the tree.
     */
    method GetLeaves() returns (leaves: seq<Node>)
      requires Valid()
      ensures leaves == Leaves(root)
      ensures forall x, y :: 0.0 <= x < 1.0 && 0.0 <= y < 1.0 ==> CountContaining(leaves, x, y) == 1
      ensures LoadSum(leaves) == TotalLoad(root)
    {
      leaves := Gather(root);
      forall x, y | 0.0 <= x < 1.0 && 0.0 <= y < 1.0
        ensures CountContaining(leaves, x, y) == 1
      {
        LeavesTile(root, maxLevel, x, y);
      }
      TotalLoadIsLeafSum(root);
    }
  }

  /**
   * A client of the grid with the default configuration (split threshold 5,
   * merge threshold 2, depth cap 6): coordinates outside [0, 1) are refused,
   * and the sixth unit recorded at the centre splits the root into four
   * leaves of load 1.5 each.
   */
  method SplitScenario()
  {
    var g := new FractalGrid();
    var r := g.Get(1.0, 0.5);
    assert r == Failure(InvalidCoordinate);
    r := g.Get(-0.1, 0.5);
    assert r == Failure(InvalidCoordinate);
    r := g.Get(0.0, 0.999999);
    assert r == Success(1.0);

    var grid := new FractalGrid();
    var unit := Bounds(0.0, 0.0, 1.0, 1.0);
    var o := grid.Set(0.5, 0.5);
    assert grid.root == Node(unit, 0, 1.0, []);
    o := grid.Set(0.5, 0.5);
    assert grid.root == Node(unit, 0, 2.0, []);
    o := grid.Set(0.5, 0.5);
    assert grid.root == Node(unit, 0, 3.0, []);
    o := grid.Set(0.5, 0.5);
    assert grid.root == Node(unit, 0, 4.0, []);
    o := grid.Set(0.5, 0.5);
    assert grid.root == Node(unit, 0, 5.0, []);
    o := grid.Set(0.5, 0.5);
    assert grid.root == Subdivide(Node(unit, 0, 6.0, []));
    assert grid.root.load == 0.0 && |grid.root.children| == 4;
    assert forall q :: 0 <= q < 4 ==> grid.root.children[q].load == 1.5;
  }
}
