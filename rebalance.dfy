/**
 * The two structural policies of the grid: recording a unit of load and the
 * split-on-write rule of `_rebalance` (the write path of `set`), and the
 * bottom-up merge sweep of `_merge_repeatedly` (`periodic_rebalance`).
 */
module Rebalance {
  import opened Cell
  import opened Tree

  /**
   * The tree after one unit of load has been recorded on the cell at p: that
   * cell's load grows by one and nothing else changes.
   */
  function Record(n: Node, p: seq<nat>): (r: Node)
    requires ValidPath(n, p)
    ensures ValidPath(r, p) && SameShape(r, n)
    ensures NodeAt(r, p).load == NodeAt(n, p).load + 1.0
    ensures NodeAt(n, p).IsLeaf() ==> TotalLoad(r) == TotalLoad(n) + 1.0
  {
    var c := NodeAt(n, p);
    var m := c.(load := c.load + 1.0);
    SameShapeReflexive(c);
    ReplaceAtSameShape(n, p, m);
    ReplaceAtTotalLoad(n, p, m);
    ReplaceAt(n, p, m)
  }

  /**
   * Recording load on one leaf leaves every other leaf exactly as it was:
   * `get` and `set` change nothing but the leaf they found.
   */
  lemma RecordChangesOnlyThatLeaf(n: Node, p: seq<nat>, q: seq<nat>)
    requires ValidPath(n, p) && NodeAt(n, p).IsLeaf()
    requires ValidPath(n, q) && NodeAt(n, q).IsLeaf() && q != p
    ensures ValidPath(Record(n, p), q) && NodeAt(Record(n, p), q) == NodeAt(n, q)
  {
    var c := NodeAt(n, p);
    LeafPathsDiverge(n, p, q);
    ReplaceAtElsewhere(n, p, c.(load := c.load + 1.0), q);
  }

  /** Recording load on a leaf of a well-formed tree keeps it well formed. */
  lemma RecordWellFormed(n: Node, maxLevel: int, p: seq<nat>)
    requires WellFormed(n, maxLevel) && ValidPath(n, p) && NodeAt(n, p).IsLeaf()
    ensures WellFormed(Record(n, p), maxLevel)
  {
    var c := NodeAt(n, p);
    NodeAtWellFormed(n, maxLevel, p);
    ReplaceAtWellFormed(n, maxLevel, p, c.(load := c.load + 1.0));
  }

  /**
   * The split guard of `_rebalance`: load above the threshold, level below
   * the cap, and a leaf. The level test is what keeps the depth cap: a cell
   * that passes it has children at most at the cap.
   */
  predicate ShouldSplit(c: Node, splitThreshold: real, maxLevel: int)
    ensures ShouldSplit(c, splitThreshold, maxLevel) ==>
              forall q :: 0 <= q < 4 ==> Subdivide(c).children[q].level <= maxLevel
    ensures ShouldSplit(c, splitThreshold, maxLevel) ==>
              forall q :: 0 <= q < 4 ==> Subdivide(c).children[q].load > splitThreshold / 4.0
  {
    c.load > splitThreshold && c.level < maxLevel && c.IsLeaf()
  }

  /**
   * `_rebalance` on the cell at p. The tree changes only when the guard
   * holds, and then only by subdividing that cell; no load is created or
   * lost, and a well-formed tree stays well formed, so no cell ever goes
   * deeper than the cap.
   */
  function SplitIfHot(n: Node, p: seq<nat>, splitThreshold: real, maxLevel: int): (r: Node)
    requires ValidPath(n, p)
    ensures r == n || (ShouldSplit(NodeAt(n, p), splitThreshold, maxLevel)
                       && r == ReplaceAt(n, p, Subdivide(NodeAt(n, p))))
    ensures ShouldSplit(NodeAt(n, p), splitThreshold, maxLevel) ==> !NodeAt(r, p).IsLeaf()
    ensures TotalLoad(r) == TotalLoad(n)
    ensures WellFormed(n, maxLevel) ==> WellFormed(r, maxLevel)
  {
    var c := NodeAt(n, p);
    if ShouldSplit(c, splitThreshold, maxLevel) then
      SubdivideTotalLoad(c);
      ReplaceAtTotalLoad(n, p, Subdivide(c));
      assert WellFormed(n, maxLevel) ==> WellFormed(ReplaceAt(n, p, Subdivide(c)), maxLevel) by {
        if WellFormed(n, maxLevel) {
          SubdivideWellFormed(n, maxLevel, p);
        }
      }
      ReplaceAt(n, p, Subdivide(c))
    else
      n
  }

  /** A split leaf's four children carry exactly the leaf's load. */
  lemma SubdivideTotalLoad(c: Node)
    ensures TotalLoad(Subdivide(c)) == c.load
  {
    var s := Subdivide(c);
    TotalLoadSeqOfLeaves(s.children);
  }

  /** Splitting a leaf below the cap, inside a well-formed tree, keeps the tree well formed. */
  lemma SubdivideWellFormed(n: Node, maxLevel: int, p: seq<nat>)
    requires WellFormed(n, maxLevel) && ValidPath(n, p)
    requires NodeAt(n, p).IsLeaf() && NodeAt(n, p).level < maxLevel
    ensures WellFormed(ReplaceAt(n, p, Subdivide(NodeAt(n, p))), maxLevel)
  {
    NodeAtWellFormed(n, maxLevel, p);
    ReplaceAtWellFormed(n, maxLevel, p, Subdivide(NodeAt(n, p)));
  }

  /**
   * One `set(x, y)` once the coordinates are valid: find the leaf, record a
   * unit of load on it, then apply the split rule to it.
   */
  function SetStep(n: Node, x: real, y: real, splitThreshold: real, maxLevel: int): (r: Node)
    ensures r.bounds == n.bounds && r.level == n.level
    ensures NodeAt(n, LeafPath(n, x, y)).IsLeaf() ==> TotalLoad(r) == TotalLoad(n) + 1.0
  {
    var p := LeafPath(n, x, y);
    var m := Record(n, p);
    var r := SplitIfHot(m, p, splitThreshold, maxLevel);
    assert r.bounds == m.bounds && r.level == m.level by {
      if p == [] {
        assert r == m || r == Subdivide(NodeAt(m, p));
      }
    }
    r
  }

  /**
   * On a well-formed tree containing the point, `set` keeps the tree well
   * formed and adds exactly one unit to its total load.
   */
  lemma {:induction false} SetStepPreserves(n: Node, maxLevel: int, splitThreshold: real, x: real, y: real)
    requires WellFormed(n, maxLevel) && n.Contains(x, y)
    ensures WellFormed(SetStep(n, x, y, splitThreshold, maxLevel), maxLevel)
    ensures TotalLoad(SetStep(n, x, y, splitThreshold, maxLevel)) == TotalLoad(n) + 1.0
    ensures SetStep(n, x, y, splitThreshold, maxLevel).bounds == n.bounds
    ensures SetStep(n, x, y, splitThreshold, maxLevel).level == n.level
  {
    var p := LeafPath(n, x, y);
    LeafPathReachesLeaf(n, maxLevel, x, y);
    RecordWellFormed(n, maxLevel, p);
  }

  /** No cell of the tree satisfies the merge guard. */
  predicate Settled(n: Node, mergeThreshold: real)
  {
    && !CanMerge(n, mergeThreshold)
    && forall i :: 0 <= i < |n.children| ==> Settled(n.children[i], mergeThreshold)
  }

  /**
   * `_merge_repeatedly`: sweep the children first, then merge the cell if the
   * guard holds of the swept cell. Because children are settled before their
   * parent is tested, merges cascade upwards within one sweep and the result
   * is settled; the total load is unchanged.
   */
  function MergeSweep(n: Node, mergeThreshold: real): (r: Node)
    ensures r.bounds == n.bounds && r.level == n.level
    ensures TotalLoad(r) == TotalLoad(n)
    ensures Settled(r, mergeThreshold)
  {
    if n.IsLeaf() then n
    else
      var kids := MergeSweepSeq(n.children, mergeThreshold);
      var swept := n.(children := kids);
      TotalLoadSeqPointwise(kids, n.children);
      if CanMerge(swept, mergeThreshold) then
        TotalLoadSeqOfLeaves(kids);
        Merge(swept)
      else
        swept
  }

  function MergeSweepSeq(cs: seq<Node>, mergeThreshold: real): (r: seq<Node>)
    ensures |r| == |cs|
    ensures forall i :: 0 <= i < |cs| ==> r[i] == MergeSweep(cs[i], mergeThreshold)
  {
    if cs == [] then [] else [MergeSweep(cs[0], mergeThreshold)] + MergeSweepSeq(cs[1..], mergeThreshold)
  }

  /** The merge sweep keeps a well-formed tree well formed. */
  lemma {:induction false} MergeSweepWellFormed(n: Node, maxLevel: int, mergeThreshold: real)
    requires WellFormed(n, maxLevel)
    ensures WellFormed(MergeSweep(n, mergeThreshold), maxLevel)
  {
    if !n.IsLeaf() {
      var kids := MergeSweepSeq(n.children, mergeThreshold);
      forall q | 0 <= q < 4 {
        MergeSweepWellFormed(n.children[q], maxLevel, mergeThreshold);
      }
      var swept := n.(children := kids);
      if CanMerge(swept, mergeThreshold) {
        LoadSumNonNegative(kids);
      }
    }
  }

  /** A sweep leaves a tree that is already settled as it is. */
  lemma {:induction false} MergeSweepOfSettled(n: Node, mergeThreshold: real)
    requires Settled(n, mergeThreshold)
    ensures MergeSweep(n, mergeThreshold) == n
  {
    if !n.IsLeaf() {
      var kids := MergeSweepSeq(n.children, mergeThreshold);
      forall i | 0 <= i < |n.children| {
        MergeSweepOfSettled(n.children[i], mergeThreshold);
      }
      assert kids == n.children;
    }
  }

  /** Sweeping twice is sweeping once. */
  lemma MergeSweepIdempotent(n: Node, mergeThreshold: real)
    ensures MergeSweep(MergeSweep(n, mergeThreshold), mergeThreshold) == MergeSweep(n, mergeThreshold)
  {
    MergeSweepOfSettled(MergeSweep(n, mergeThreshold), mergeThreshold);
  }

  /**
   * An internal cell whose children are all leaves with loads summing below
   * the threshold is collapsed by the sweep into one leaf carrying that sum.
   */
  lemma MergeSweepCollapsesLightQuad(n: Node, mergeThreshold: real)
    requires !n.IsLeaf() && ChildrenAreLeaves(n)
    requires LoadSum(n.children) < mergeThreshold
    ensures MergeSweep(n, mergeThreshold) == Merge(n)
    ensures MergeSweep(n, mergeThreshold).load == LoadSum(n.children)
  {
    var kids := MergeSweepSeq(n.children, mergeThreshold);
    assert kids == n.children;
    assert n.(children := kids) == n;
  }

  /**
   * The sweep merges only where the guard lets it: an internal cell whose
   * total load reaches the threshold is still internal after the sweep, with
   * the same number of children.
   */
  lemma MergeSweepKeepsHeavy(n: Node, mergeThreshold: real)
    requires !n.IsLeaf() && TotalLoad(n) >= mergeThreshold
    ensures !MergeSweep(n, mergeThreshold).IsLeaf()
    ensures MergeSweep(n, mergeThreshold).children == MergeSweepSeq(n.children, mergeThreshold)
  {
    var kids := MergeSweepSeq(n.children, mergeThreshold);
    var swept := n.(children := kids);
    TotalLoadSeqPointwise(kids, n.children);
    if CanMerge(swept, mergeThreshold) {
      TotalLoadSeqOfLeaves(kids);
    }
  }

  /**
   * The same for every cell of a well-formed tree: a cell that is internal
   * and holds at least the threshold is still there, and still internal,
   * after the sweep. Its ancestors hold at least as much load, so none of
   * them is merged either.
   */
  lemma {:induction false} MergeSweepKeepsHeavyCells(n: Node, maxLevel: int, mergeThreshold: real, p: seq<nat>)
    requires WellFormed(n, maxLevel) && ValidPath(n, p)
    requires !NodeAt(n, p).IsLeaf() && TotalLoad(NodeAt(n, p)) >= mergeThreshold
    ensures ValidPath(MergeSweep(n, mergeThreshold), p)
    ensures !NodeAt(MergeSweep(n, mergeThreshold), p).IsLeaf()
    decreases p
  {
    NodeAtTotalLoad(n, maxLevel, p);
    MergeSweepKeepsHeavy(n, mergeThreshold);
    if p != [] {
      MergeSweepKeepsHeavyCells(n.children[p[0]], maxLevel, mergeThreshold, p[1..]);
    }
  }
}
