/**
 * One cell of the quadtree (the `Node` class of g_star.py): its rectangle,
 * the cell-local queries `is_leaf` and `contains`, and the two shape changes
 * `subdivide` and `merge` together with the `can_merge` guard.
 */
module Cell {

  /** An axis-aligned rectangle [xMin, xMax) x [yMin, yMax), half-open on the upper sides. */
  datatype Bounds = Bounds(xMin: real, yMin: real, xMax: real, yMax: real) {

    /** The rectangle has a positive width and height. */
    predicate Proper() {
      xMin < xMax && yMin < yMax
    }

    /**
     * Half-open membership test: the lower and left edges belong to the
     * rectangle, the upper and right edges do not, and only a proper
     * rectangle contains anything.
     */
    predicate Contains(x: real, y: real)
      ensures Contains(x, y) ==> Proper()
      ensures Contains(x, y) ==> x != xMax && y != yMax
      ensures x == xMin && y == yMin && Proper() ==> Contains(x, y)
    {
      xMin <= x < xMax && yMin <= y < yMax
    }

    function MidX(): real { (xMin + xMax) / 2.0 }

    function MidY(): real { (yMin + yMax) / 2.0 }
  }

  /**
   * A quadtree cell. It is a leaf exactly when `children` is empty; an internal
   * cell has its four children in quadrant order (see `Quadrant`). The `load`
   * counter is meaningful on leaves only.
   */
  datatype Node = Node(bounds: Bounds, level: nat, load: real, children: seq<Node>) {

    /** A leaf is a cell without children. */
    predicate IsLeaf()
      ensures IsLeaf() <==> |children| == 0
    {
      children == []
    }

    /** The cell contains a point exactly when its rectangle does (half-open). */
    predicate Contains(x: real, y: real)
      ensures Contains(x, y) ==> bounds.Proper()
      ensures Contains(x, y) ==> x != bounds.xMax && y != bounds.yMax
      ensures x == bounds.xMin && y == bounds.yMin && bounds.Proper() ==> Contains(x, y)
    {
      bounds.Contains(x, y)
    }
  }

  /** A freshly constructed cell: a leaf without load. */
  function NewLeaf(b: Bounds, level: nat): (r: Node)
    ensures r.IsLeaf() && r.bounds == b && r.level == level && r.load == 0.0
  {
    Node(b, level, 0.0, [])
  }

  /**
   * Quadrant q of b, cut at the midpoint: 0 = lower-left, 1 = lower-right,
   * 2 = upper-left, 3 = upper-right.
   */
  function Quadrant(b: Bounds, q: nat): (r: Bounds)
    requires q < 4
    ensures b.Proper() ==> r.Proper()
    ensures r.xMax - r.xMin == (b.xMax - b.xMin) / 2.0
    ensures r.yMax - r.yMin == (b.yMax - b.yMin) / 2.0
    ensures forall x, y :: r.Contains(x, y) ==> b.Contains(x, y)
  {
    var midX, midY := b.MidX(), b.MidY();
    if q == 0 then Bounds(b.xMin, b.yMin, midX, midY)
    else if q == 1 then Bounds(midX, b.yMin, b.xMax, midY)
    else if q == 2 then Bounds(b.xMin, midY, midX, b.yMax)
    else Bounds(midX, midY, b.xMax, b.yMax)
  }

  /**
   * The quadrant of b that a point falls into. For a point of b it is the one
   * and only quadrant that contains the point: the four quadrants tile b with
   * neither gap nor overlap.
   */
  function QuadrantOf(b: Bounds, x: real, y: real): (r: nat)
    ensures r < 4
    ensures b.Contains(x, y) ==> forall q :: 0 <= q < 4 ==> (Quadrant(b, q).Contains(x, y) <==> q == r)
  {
    (if x < b.MidX() then 0 else 1) + (if y < b.MidY() then 0 else 2)
  }

  /** The sum of the loads of a sequence of cells, first to last. */
  function LoadSum(cs: seq<Node>): real
  {
    if cs == [] then 0.0 else cs[0].load + LoadSum(cs[1..])
  }

  /** The load sum of four cells, spelled out. */
  lemma LoadSumOfFour(cs: seq<Node>)
    requires |cs| == 4
    ensures LoadSum(cs) == cs[0].load + cs[1].load + cs[2].load + cs[3].load
  {
    assert LoadSum(cs[3..]) == cs[3].load + LoadSum([]);
    assert LoadSum(cs[2..]) == cs[2].load + LoadSum(cs[3..]);
    assert LoadSum(cs[1..]) == cs[1].load + LoadSum(cs[2..]);
  }

  lemma {:induction false} LoadSumNonNegative(cs: seq<Node>)
    requires forall i :: 0 <= i < |cs| ==> cs[i].load >= 0.0
    ensures LoadSum(cs) >= 0.0
  {
    if cs != [] {
      LoadSumNonNegative(cs[1..]);
    }
  }

  /**
   * Splits a cell into four leaves, one per quadrant, one level deeper, each
   * carrying a quarter of the cell's load; the cell itself keeps no load.
   * No load is lost: the children's loads add up to the load before the split.
   */
  function Subdivide(n: Node): (r: Node)
    ensures r.bounds == n.bounds && r.level == n.level && r.load == 0.0
    ensures |r.children| == 4
    ensures forall q :: 0 <= q < 4 ==>
              && r.children[q].IsLeaf()
              && r.children[q].bounds == Quadrant(n.bounds, q)
              && r.children[q].level == n.level + 1
              && r.children[q].load == n.load / 4.0
    ensures LoadSum(r.children) == n.load
  {
    var share := n.load / 4.0;
    var child := (q: nat) requires q < 4 => Node(Quadrant(n.bounds, q), n.level + 1, share, []);
    var cs := [child(0), child(1), child(2), child(3)];
    LoadSumOfFour(cs);
    Node(n.bounds, n.level, 0.0, cs)
  }

  /** Every child of n is a leaf. */
  predicate ChildrenAreLeaves(n: Node) {
    forall i :: 0 <= i < |n.children| ==> n.children[i].IsLeaf()
  }

  /**
   * The merge guard: false on a leaf, false as soon as one child is internal
   * (a merge never collapses more than one level), and otherwise true exactly
   * when the children's loads add up to strictly less than the threshold.
   */
  function CanMerge(n: Node, mergeThreshold: real): (r: bool)
    ensures n.IsLeaf() ==> !r
    ensures (exists i :: 0 <= i < |n.children| && !n.children[i].IsLeaf()) ==> !r
    ensures !n.IsLeaf() && ChildrenAreLeaves(n) ==> (r <==> LoadSum(n.children) < mergeThreshold)
  {
    if n.IsLeaf() then false
    else
      var total := LoadSum(n.children);
      if exists i :: 0 <= i < |n.children| && !n.children[i].IsLeaf() then false
      else total < mergeThreshold
  }

  /**
   * Collapses an internal cell into a leaf that carries the sum of its
   * children's loads; bounds and level stay.
   */
  function Merge(n: Node): (r: Node)
    requires !n.IsLeaf()
    ensures r.IsLeaf() && r.bounds == n.bounds && r.level == n.level
    ensures r.load == LoadSum(n.children)
  {
    Node(n.bounds, n.level, LoadSum(n.children), [])
  }

  /** Merging right after a split gives back the leaf that was split. */
  lemma MergeUndoesSubdivide(n: Node)
    requires n.IsLeaf()
    ensures Merge(Subdivide(n)) == n
  {
  }
}
