/**
 * Whole-tree notions over `Cell.Node`: the shape invariant of a well-formed
 * quadtree, the total load, the leaves in pre-order (what `get_leaves`
 * gathers), paths from the root to a cell, and the point descent of
 * `_find_leaf` as a function.
 */
module Tree {
  import opened Wrappers
  import opened Cell

  /**
   * The shape invariant: every rectangle is proper, loads are non-negative,
   * and an internal cell has no load of its own, sits below the depth cap,
   * and has exactly four children that are its quadrants, one level deeper.
   */
  predicate WellFormed(n: Node, maxLevel: int)
  {
    && n.bounds.Proper()
    && n.load >= 0.0
    && (!n.IsLeaf() ==>
          && |n.children| == 4
          && n.load == 0.0
          && n.level < maxLevel
          && forall q :: 0 <= q < 4 ==>
               && n.children[q].bounds == Quadrant(n.bounds, q)
               && n.children[q].level == n.level + 1
               && WellFormed(n.children[q], maxLevel))
  }

  /** Two trees with the same cells (bounds, levels, children), loads aside. */
  predicate SameShape(a: Node, b: Node)
  {
    && a.bounds == b.bounds
    && a.level == b.level
    && |a.children| == |b.children|
    && forall i :: 0 <= i < |a.children| ==> SameShape(a.children[i], b.children[i])
  }

  lemma {:induction false} SameShapeReflexive(n: Node)
    ensures SameShape(n, n)
  {
    forall i | 0 <= i < |n.children| {
      SameShapeReflexive(n.children[i]);
    }
  }

  /** The load held by the leaves of a tree. */
  function TotalLoad(n: Node): real
  {
    if n.IsLeaf() then n.load else TotalLoadSeq(n.children)
  }

  function TotalLoadSeq(cs: seq<Node>): real
  {
    if cs == [] then 0.0 else TotalLoad(cs[0]) + TotalLoadSeq(cs[1..])
  }

  /** Replacing one subtree of a sequence changes its total by the difference. */
  lemma {:induction false} TotalLoadSeqUpdate(cs: seq<Node>, k: nat, c: Node)
    requires k < |cs|
    ensures TotalLoadSeq(cs[k := c]) == TotalLoadSeq(cs) - TotalLoad(cs[k]) + TotalLoad(c)
  {
    if k == 0 {
      assert cs[k := c][1..] == cs[1..];
    } else {
      assert cs[k := c][1..] == cs[1..][k - 1 := c];
      TotalLoadSeqUpdate(cs[1..], k - 1, c);
    }
  }

  /** Two sequences of subtrees with equal totals, position by position, have equal totals. */
  lemma {:induction false} TotalLoadSeqPointwise(a: seq<Node>, b: seq<Node>)
    requires |a| == |b|
    requires forall i :: 0 <= i < |a| ==> TotalLoad(a[i]) == TotalLoad(b[i])
    ensures TotalLoadSeq(a) == TotalLoadSeq(b)
  {
    if a != [] {
      TotalLoadSeqPointwise(a[1..], b[1..]);
    }
  }

  /** Over leaves, the total is the plain sum of their loads. */
  lemma {:induction false} TotalLoadSeqOfLeaves(cs: seq<Node>)
    requires forall i :: 0 <= i < |cs| ==> cs[i].IsLeaf()
    ensures TotalLoadSeq(cs) == LoadSum(cs)
  {
    if cs != [] {
      TotalLoadSeqOfLeaves(cs[1..]);
    }
  }

  /** The leaves of a tree, left to right in quadrant order (pre-order). */
  function Leaves(n: Node): (r: seq<Node>)
    ensures forall j :: 0 <= j < |r| ==> r[j].IsLeaf()
  {
    if n.IsLeaf() then [n] else LeavesSeq(n.children)
  }

  function LeavesSeq(cs: seq<Node>): (r: seq<Node>)
    ensures forall j :: 0 <= j < |r| ==> r[j].IsLeaf()
  {
    if cs == [] then [] else Leaves(cs[0]) + LeavesSeq(cs[1..])
  }

  lemma {:induction false} LoadSumConcat(a: seq<Node>, b: seq<Node>)
    ensures LoadSum(a + b) == LoadSum(a) + LoadSum(b)
  {
    if a != [] {
      assert (a + b)[1..] == a[1..] + b;
      LoadSumConcat(a[1..], b);
    } else {
      assert a + b == b;
    }
  }

  /** The total load of a tree is the sum of the loads of the leaves it lists. */
  lemma {:induction false} TotalLoadIsLeafSum(n: Node)
    ensures TotalLoad(n) == LoadSum(Leaves(n))
  {
    if !n.IsLeaf() {
      TotalLoadSeqIsLeafSum(n.children);
    }
  }

  lemma {:induction false} TotalLoadSeqIsLeafSum(cs: seq<Node>)
    ensures TotalLoadSeq(cs) == LoadSum(LeavesSeq(cs))
  {
    if cs != [] {
      TotalLoadIsLeafSum(cs[0]);
      TotalLoadSeqIsLeafSum(cs[1..]);
      LoadSumConcat(Leaves(cs[0]), LeavesSeq(cs[1..]));
    }
  }

  /** How many cells of s contain the point (x, y). */
  function CountContaining(s: seq<Node>, x: real, y: real): nat
  {
    if s == [] then 0 else (if s[0].Contains(x, y) then 1 else 0) + CountContaining(s[1..], x, y)
  }

  lemma {:induction false} CountContainingConcat(a: seq<Node>, b: seq<Node>, x: real, y: real)
    ensures CountContaining(a + b, x, y) == CountContaining(a, x, y) + CountContaining(b, x, y)
  {
    if a != [] {
      assert (a + b)[1..] == a[1..] + b;
      CountContainingConcat(a[1..], b, x, y);
    } else {
      assert a + b == b;
    }
  }

  lemma CountOfFour(cs: seq<Node>, x: real, y: real)
    requires |cs| == 4
    ensures CountContaining(cs, x, y) ==
              (if cs[0].Contains(x, y) then 1 else 0) + (if cs[1].Contains(x, y) then 1 else 0)
              + (if cs[2].Contains(x, y) then 1 else 0) + (if cs[3].Contains(x, y) then 1 else 0)
  {
    assert CountContaining(cs[3..], x, y) == (if cs[3].Contains(x, y) then 1 else 0) + CountContaining([], x, y);
    assert CountContaining(cs[2..], x, y) == (if cs[2].Contains(x, y) then 1 else 0) + CountContaining(cs[3..], x, y);
    assert CountContaining(cs[1..], x, y) == (if cs[1].Contains(x, y) then 1 else 0) + CountContaining(cs[2..], x, y);
  }

  /**
   * The partition invariant: the leaves of a well-formed tree tile its
   * rectangle. A point of the rectangle lies in exactly one leaf, and a
   * point outside it lies in none.
   */
  lemma {:induction false} LeavesTile(n: Node, maxLevel: int, x: real, y: real)
    requires WellFormed(n, maxLevel)
    ensures CountContaining(Leaves(n), x, y) == if n.Contains(x, y) then 1 else 0
  {
    if !n.IsLeaf() {
      var cs := n.children;
      LeavesSeqCount(cs, maxLevel, x, y);
      CountOfFour(cs, x, y);
      var b := n.bounds;
      if b.Contains(x, y) {
        var k := QuadrantOf(b, x, y);
        assert forall q :: 0 <= q < 4 ==> (cs[q].Contains(x, y) <==> q == k);
      } else {
        assert forall q :: 0 <= q < 4 ==> !cs[q].Contains(x, y);
      }
    }
  }

  /** Counting the leaves of a forest is counting its top cells, when each top cell is tiled. */
  lemma {:induction false} LeavesSeqCount(cs: seq<Node>, maxLevel: int, x: real, y: real)
    requires forall i :: 0 <= i < |cs| ==> WellFormed(cs[i], maxLevel)
    ensures CountContaining(LeavesSeq(cs), x, y) == CountContaining(cs, x, y)
  {
    if cs != [] {
      LeavesTile(cs[0], maxLevel, x, y);
      LeavesSeqCount(cs[1..], maxLevel, x, y);
      CountContainingConcat(Leaves(cs[0]), LeavesSeq(cs[1..]), x, y);
    }
  }

  /** A path from a cell: the quadrant index taken at each step down. */
  predicate ValidPath(n: Node, p: seq<nat>)
    decreases p
  {
    p == [] || (p[0] < |n.children| && ValidPath(n.children[p[0]], p[1..]))
  }

  /** The cell a valid path leads to. */
  function NodeAt(n: Node, p: seq<nat>): Node
    requires ValidPath(n, p)
    decreases p
  {
    if p == [] then n else NodeAt(n.children[p[0]], p[1..])
  }

  /**
   * The tree with the cell at the end of p replaced by m and every other
   * cell as it was.
   */
  function ReplaceAt(n: Node, p: seq<nat>, m: Node): (r: Node)
    requires ValidPath(n, p)
    ensures ValidPath(r, p) && NodeAt(r, p) == m
    ensures p != [] ==> r.bounds == n.bounds && r.level == n.level && r.load == n.load
    ensures p != [] ==> |r.children| == |n.children|
    ensures p != [] ==> forall i :: 0 <= i < |n.children| && i != p[0] ==> r.children[i] == n.children[i]
    decreases p
  {
    if p == [] then m
    else
      var k := p[0];
      n.(children := n.children[k := ReplaceAt(n.children[k], p[1..], m)])
  }

  /** Neither path is a prefix of the other: they part ways at some step. */
  predicate Diverge(p: seq<nat>, q: seq<nat>)
  {
    exists i :: 0 <= i < |p| && i < |q| && p[i] != q[i]
  }

  /** Two different paths that both end at leaves part ways somewhere. */
  lemma {:induction false} LeafPathsDiverge(n: Node, p: seq<nat>, q: seq<nat>)
    requires ValidPath(n, p) && ValidPath(n, q) && p != q
    requires NodeAt(n, p).IsLeaf() && NodeAt(n, q).IsLeaf()
    ensures Diverge(p, q)
    decreases p
  {
    if p == [] || q == [] {
      assert false;
    } else if p[0] != q[0] {
      assert p[0] != q[0];
    } else {
      assert p[1..] != q[1..];
      LeafPathsDiverge(n.children[p[0]], p[1..], q[1..]);
      var i :| 0 <= i < |p[1..]| && i < |q[1..]| && p[1..][i] != q[1..][i];
      assert p[i + 1] != q[i + 1];
    }
  }

  /** Replacing the cell at p leaves every cell off that path as it was. */
  lemma {:induction false} ReplaceAtElsewhere(n: Node, p: seq<nat>, m: Node, q: seq<nat>)
    requires ValidPath(n, p) && ValidPath(n, q) && Diverge(p, q)
    ensures ValidPath(ReplaceAt(n, p, m), q) && NodeAt(ReplaceAt(n, p, m), q) == NodeAt(n, q)
    decreases p
  {
    if p[0] == q[0] {
      var i :| 0 <= i < |p| && i < |q| && p[i] != q[i];
      assert i > 0 && p[1..][i - 1] != q[1..][i - 1];
      ReplaceAtElsewhere(n.children[p[0]], p[1..], m, q[1..]);
    }
  }

  /**
   * Every cell reached by a path of a well-formed tree is well formed, sits
   * |p| levels deeper, and, below the top, never deeper than the cap.
   */
  lemma {:induction false} NodeAtWellFormed(n: Node, maxLevel: int, p: seq<nat>)
    requires WellFormed(n, maxLevel) && ValidPath(n, p)
    ensures WellFormed(NodeAt(n, p), maxLevel)
    ensures NodeAt(n, p).level == n.level + |p|
    ensures p != [] ==> NodeAt(n, p).level <= maxLevel
    decreases p
  {
    if p != [] {
      NodeAtWellFormed(n.children[p[0]], maxLevel, p[1..]);
    }
  }

  /**
   * Putting a well-formed cell with the same rectangle and level in place of
   * a cell of a well-formed tree gives a well-formed tree.
   */
  lemma {:induction false} ReplaceAtWellFormed(n: Node, maxLevel: int, p: seq<nat>, m: Node)
    requires WellFormed(n, maxLevel) && ValidPath(n, p)
    requires m.bounds == NodeAt(n, p).bounds && m.level == NodeAt(n, p).level
    requires WellFormed(m, maxLevel)
    ensures WellFormed(ReplaceAt(n, p, m), maxLevel)
    decreases p
  {
    if p != [] {
      ReplaceAtWellFormed(n.children[p[0]], maxLevel, p[1..], m);
    }
  }

  /** Replacing a cell changes the total load by exactly the difference of the two subtrees. */
  lemma {:induction false} ReplaceAtTotalLoad(n: Node, p: seq<nat>, m: Node)
    requires ValidPath(n, p)
    ensures TotalLoad(ReplaceAt(n, p, m)) == TotalLoad(n) - TotalLoad(NodeAt(n, p)) + TotalLoad(m)
    decreases p
  {
    if p != [] {
      var k := p[0];
      ReplaceAtTotalLoad(n.children[k], p[1..], m);
      TotalLoadSeqUpdate(n.children, k, ReplaceAt(n.children[k], p[1..], m));
    }
  }

  /** Replacing a cell by one of the same shape keeps the shape of the whole tree. */
  lemma {:induction false} ReplaceAtSameShape(n: Node, p: seq<nat>, m: Node)
    requires ValidPath(n, p) && SameShape(m, NodeAt(n, p))
    ensures SameShape(ReplaceAt(n, p, m), n)
    decreases p
  {
    if p != [] {
      var k := p[0];
      ReplaceAtSameShape(n.children[k], p[1..], m);
      forall i | 0 <= i < |n.children| && i != k {
        SameShapeReflexive(n.children[i]);
      }
    }
  }

  /** The first of the cells that contains the point, scanning in quadrant order. */
  function FirstContaining(cs: seq<Node>, x: real, y: real): (r: Option<nat>)
    ensures r.Some? ==> r.value < |cs| && cs[r.value].Contains(x, y)
    ensures r.Some? ==> forall j :: 0 <= j < r.value ==> !cs[j].Contains(x, y)
    ensures r.None? ==> forall j :: 0 <= j < |cs| ==> !cs[j].Contains(x, y)
  {
    if cs == [] then None
    else if cs[0].Contains(x, y) then Some(0)
    else match FirstContaining(cs[1..], x, y)
      case None => None
      case Some(k) => Some(k + 1)
  }

  /**
   * The descent of `_find_leaf`: from an internal cell go to the first child
   * that contains the point; stop at a leaf, or (the fallback) at an
   * internal cell none of whose children contains the point.
   */
  function LeafPath(n: Node, x: real, y: real): (p: seq<nat>)
    ensures ValidPath(n, p)
  {
    if n.IsLeaf() then []
    else match FirstContaining(n.children, x, y)
      case None => []
      case Some(i) => [i] + LeafPath(n.children[i], x, y)
  }

  /**
   * On any tree, the descent stops either at a leaf or at a cell none of
   * whose children contains the point (the fallback).
   */
  lemma {:induction false} LeafPathStopsAtLeafOrFallback(n: Node, x: real, y: real)
    ensures var c := NodeAt(n, LeafPath(n, x, y));
            c.IsLeaf() || forall i :: 0 <= i < |c.children| ==> !c.children[i].Contains(x, y)
  {
    if !n.IsLeaf() {
      var fc := FirstContaining(n.children, x, y);
      if fc.Some? {
        var i := fc.value;
        LeafPathStopsAtLeafOrFallback(n.children[i], x, y);
        var rest := LeafPath(n.children[i], x, y);
        assert LeafPath(n, x, y) == [i] + rest;
        assert ([i] + rest)[1..] == rest;
      }
    }
  }

  /**
   * On a well-formed tree whose rectangle contains the point, the descent
   * always ends at a leaf that contains the point: the fallback never fires.
   * By `LeavesTile` that leaf is the only one containing the point.
   */
  lemma {:induction false} LeafPathReachesLeaf(n: Node, maxLevel: int, x: real, y: real)
    requires WellFormed(n, maxLevel) && n.Contains(x, y)
    ensures NodeAt(n, LeafPath(n, x, y)).IsLeaf()
    ensures NodeAt(n, LeafPath(n, x, y)).Contains(x, y)
  {
    if !n.IsLeaf() {
      var k := QuadrantOf(n.bounds, x, y);
      assert n.children[k].Contains(x, y);
      var i := FirstContaining(n.children, x, y).value;
      LeafPathReachesLeaf(n.children[i], maxLevel, x, y);
      var rest := LeafPath(n.children[i], x, y);
      assert LeafPath(n, x, y) == [i] + rest;
      assert ([i] + rest)[1..] == rest;
    }
  }

  /** In a well-formed tree no load is negative, so no total is either. */
  lemma {:induction false} TotalLoadNonNegative(n: Node, maxLevel: int)
    requires WellFormed(n, maxLevel)
    ensures TotalLoad(n) >= 0.0
  {
    if !n.IsLeaf() {
      TotalLoadSeqNonNegative(n.children, maxLevel);
    }
  }

  lemma {:induction false} TotalLoadSeqNonNegative(cs: seq<Node>, maxLevel: int)
    requires forall i :: 0 <= i < |cs| ==> WellFormed(cs[i], maxLevel)
    ensures TotalLoadSeq(cs) >= 0.0
  {
    if cs != [] {
      TotalLoadNonNegative(cs[0], maxLevel);
      TotalLoadSeqNonNegative(cs[1..], maxLevel);
    }
  }

  /** Among well-formed siblings, one never holds more load than all of them together. */
  lemma {:induction false} TotalLoadSeqElement(cs: seq<Node>, maxLevel: int, k: nat)
    requires k < |cs|
    requires forall i :: 0 <= i < |cs| ==> WellFormed(cs[i], maxLevel)
    ensures TotalLoad(cs[k]) <= TotalLoadSeq(cs)
  {
    TotalLoadSeqNonNegative(cs[1..], maxLevel);
    if k > 0 {
      TotalLoadNonNegative(cs[0], maxLevel);
      TotalLoadSeqElement(cs[1..], maxLevel, k - 1);
    }
  }

  /** A cell of a well-formed tree holds no more load than the whole tree. */
  lemma {:induction false} NodeAtTotalLoad(n: Node, maxLevel: int, p: seq<nat>)
    requires WellFormed(n, maxLevel) && ValidPath(n, p)
    ensures TotalLoad(NodeAt(n, p)) <= TotalLoad(n)
    decreases p
  {
    if p != [] {
      TotalLoadSeqElement(n.children, maxLevel, p[0]);
      NodeAtTotalLoad(n.children[p[0]], maxLevel, p[1..]);
    }
  }
}
