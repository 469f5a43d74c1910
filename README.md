# Adaptive quadtree load grid (g_star.py), modelled in Dafny

`g_star.py` keeps a quadtree over the unit square that counts "load" at
points. A write (`get` or `set`) adds one unit of load to the leaf that
contains the point. `set` then splits that leaf into four quadrants when its
load is above `split_threshold` and its level is below `max_level`.
A periodic sweep (`periodic_rebalance`) merges every internal cell whose
four children are leaves with a total load below `merge_threshold`. The
sweep works bottom-up, so merges cascade towards the root. A decay sweep
(`decay_load`) multiplies every leaf's load by a factor and clears loads
below 1e-6. `get_leaves` lists the leaves.

The model has six modules, one file each:

- `wrappers.dfy` (`Wrappers`): `Option`, `Result` and `Outcome`. The source's
  `ValueError` becomes a `Failure`/`Fail` value.
- `cell.dfy` (`Cell`): the `Node` class of the source as a datatype
  `Node(bounds, level, load, children)`. A node is a leaf exactly when
  `children` is empty (the source's `children is None`). The file also holds
  the half-open `contains` test, the midpoint quadrants, and `subdivide`,
  `can_merge` and `merge`.
- `tree.dfy` (`Tree`): the shape invariant `WellFormed`, the total load, the
  leaves in pre-order, paths of quadrant indices from the root, and the
  descent of `_find_leaf` as the function `LeafPath`. The descent keeps the
  source's fallback: it stops at an internal cell when no child contains the
  point.
- `rebalance.dfy` (`Rebalance`): recording one unit of load, the split rule
  of `_rebalance`, one `set` step, and the bottom-up merge sweep of
  `_merge_repeatedly`.
- `decay.dfy` (`Decay`): the per-leaf decay with its clamp, written with the
  exact constant 1/1000000, and the decay sweep.
- `grid.dfy` (`Grid`): `validate_coord`, the imperative walks and the class
  `FractalGrid`. The walks are `FindLeaf` (the `while` loop with the inner
  child scan and its `found` flag), `MergeRepeatedly`, `DecayTree` and
  `Gather`. Each walk is a method with loops, proved equal to the function
  it implements. The class holds the root and the configuration. Its
  methods reassign `root`, and each keeps the invariant `Valid()`: the root
  has the configured rectangle and level 0, that rectangle covers [0, 1)²,
  and the tree is well formed. `SplitScenario` is a client of the class.
  It shows, from the method contracts alone, that coordinates 1.0 and -0.1
  are refused and 0.0 / 0.999999 accepted, and that the sixth unit at
  (0.5, 0.5) splits the root into four leaves of load 1.5.

Bounds, loads and factors are `real`, so the midpoint split is exact.
The configuration fields (`splitThreshold`, `mergeThreshold`, `decayFactor`,
`decayInterval`) are public mutable fields, as in the source. Both thresholds
are `real`: the constructor keeps whatever number it is given and the
guards compare the load against it, so a split threshold of 2.5 splits at
load 3. The integer values the sliders assign are a special case. `Valid()`
does not depend on any configuration field, so assigning one keeps every
invariant. `maxLevel` and
the root rectangle are constants: the source never changes them.

`validate_coord` (g_star.py:9-12) admits [0, 1) whatever rectangle the grid
was built over; the model follows the code.

## Model

| member | source | states |
|---|---|---|
| Grid.ValidateCoord | g_star.py:9-12 | a coordinate is accepted, unchanged, exactly when 0 <= x < 1; otherwise the result is the InvalidCoordinate error |
| Cell.Bounds.Contains | g_star.py:32-33 | the membership test is half-open: the lower-left corner of a proper rectangle is inside, no point on the upper or right edge is, and only a proper rectangle contains anything |
| Cell.Node.Contains | g_star.py:32-33 | a cell contains a point exactly as its rectangle does, with the same half-open edges |
| Cell.Node.IsLeaf | g_star.py:29-30 | a cell is a leaf exactly when it has no children (the source's `children is None`) |
| Cell.NewLeaf | g_star.py:18-27 | a new cell is a leaf with load 0 at the given rectangle and level |
| Cell.Quadrant | g_star.py:37-43 | each midpoint quadrant lies inside its parent, is proper when the parent is, and has half its width and height |
| Cell.QuadrantOf | g_star.py:32-43 | the four quadrants tile the parent: a point of the parent is contained by exactly one quadrant (the half-open test decides ties at the midpoint) |
| Cell.Subdivide | g_star.py:35-48 | four leaf children at level + 1 in order LL, LR, UL, UR, each with a quarter of the load; the parent keeps bounds and level and has load 0; child loads sum to the load before the split |
| Cell.CanMerge | g_star.py:52-59 | false on a leaf, false whenever some child is internal, otherwise true exactly when the child loads sum to strictly less than merge_threshold |
| Cell.Merge | g_star.py:61-67 | the cell becomes a leaf with the same bounds and level whose load is the sum of the former children's loads |
| Cell.MergeUndoesSubdivide | g_star.py:35-67 | merging a just-split leaf gives back exactly that leaf (no load created or lost) |
| Tree.Leaves | g_star.py:145-151 | every element of the pre-order gather is a leaf |
| Tree.LeavesTile | g_star.py:143-152 | partition invariant: in a well-formed tree, a point of the root lies in exactly one leaf and a point outside the root lies in none |
| Tree.TotalLoadIsLeafSum | g_star.py:143-152 | the total load of a tree is the sum of the loads of the leaves that gather lists |
| Tree.NodeAtWellFormed | g_star.py:114-117 | every cell of a well-formed tree is well formed, sits one level deeper per step, and below the root never exceeds max_level |
| Tree.FirstContaining | g_star.py:89-93 | the scan over the children finds the first child that contains the point, or reports that none does |
| Tree.LeafPath | g_star.py:84-96 | the descent only follows existing children |
| Tree.LeafPathStopsAtLeafOrFallback | g_star.py:87-95 | the descent ends at a leaf or, by the fallback, at a cell none of whose children contains the point |
| Tree.LeafPathReachesLeaf | g_star.py:84-96 | on a well-formed tree whose root contains the point, the descent ends at a leaf that contains the point, so the fallback is unreachable |
| Grid.FindLeaf | g_star.py:84-96 | the while loop with its child scan and found flag computes exactly the descent, fallback included |
| Rebalance.Record | g_star.py:103 | recording adds exactly 1 to the found cell's load, keeps the tree's shape, and on a leaf raises the total load by exactly 1 |
| Rebalance.RecordChangesOnlyThatLeaf | g_star.py:98-104 | every other leaf is left exactly as it was |
| Rebalance.RecordWellFormed | g_star.py:110-111 | recording on a leaf keeps the tree well formed |
| Rebalance.SplitIfHot | g_star.py:114-117 | the tree changes only when the found cell is a leaf with load > split_threshold and level < max_level, and then only by subdividing it; total load is unchanged; well-formedness (hence the depth cap) is kept |
| Rebalance.ShouldSplit | g_star.py:115-116 | a cell passing the split guard yields four children no deeper than max_level, each with a load above a quarter of split_threshold |
| Rebalance.SubdivideTotalLoad | g_star.py:45-48 | the four children of a split cell hold exactly that cell's load |
| Rebalance.SubdivideWellFormed | g_star.py:114-117 | splitting a leaf below the cap keeps the tree well formed |
| Rebalance.SetStep | g_star.py:106-112 | one set (record on the found cell, then the split rule there) keeps the root's bounds and level, and adds exactly 1 to the total load whenever the found cell is a leaf |
| Rebalance.SetStepPreserves | g_star.py:106-112 | one set keeps the tree well formed, keeps the root's bounds and level, and adds exactly 1 to the total load |
| Rebalance.MergeSweep | g_star.py:123-128 | the post-order sweep keeps bounds, level and total load, and no cell of its result satisfies can_merge (merges cascade within one sweep); with MergeSweepKeepsHeavy and MergeSweepKeepsHeavyCells, no cell is merged unless its load is below merge_threshold |
| Rebalance.MergeSweepKeepsHeavy | g_star.py:126-128 | the sweep merges only where the guard allows: an internal cell whose total load reaches merge_threshold stays internal, with its children swept |
| Rebalance.MergeSweepKeepsHeavyCells | g_star.py:123-128 | in a well-formed tree, every internal cell whose total load reaches merge_threshold is still present and internal after the sweep (so are its ancestors, which hold at least as much load) |
| Rebalance.MergeSweepWellFormed | g_star.py:119-128 | the sweep keeps the tree well formed |
| Rebalance.MergeSweepOfSettled | g_star.py:123-128 | a tree in which no cell can merge is left unchanged by the sweep |
| Rebalance.MergeSweepIdempotent | g_star.py:119-128 | sweeping twice is sweeping once |
| Rebalance.MergeSweepCollapsesLightQuad | g_star.py:123-128 | a cell whose children are leaves with loads summing below the threshold is merged into a leaf carrying that sum |
| Grid.MergeRepeatedly | g_star.py:123-128 | the recursive walk with its loop over the children computes exactly the merge sweep |
| Decay.DecayedLoad | g_star.py:135-137 | the decayed load is never negative; it is 0 exactly when load * factor < 1e-6 and otherwise load * factor; for factor <= 1 it never exceeds the old load, and it drops strictly while positive when factor < 1 |
| Decay.Decayed | g_star.py:133-141 | the decay sweep leaves the tree's shape unchanged |
| Decay.DecayedWellFormed | g_star.py:130-141 | decay keeps the tree well formed for every factor |
| Decay.DecayedLeaves | g_star.py:130-141 | the leaves after decay are the same leaves in the same order, each with its load decayed |
| Decay.DecayTimesBound | g_star.py:135-137 | each decay that does not clear a load removes at least (1 - factor)/1000000 from it |
| Decay.DecayReachesZero | g_star.py:135-137 | with 0 <= factor < 1, repeated decay clears any load to exactly 0 after finitely many steps and it stays 0 |
| Grid.DecayTree | g_star.py:133-141 | the recursive walk with its loop over the children computes exactly the decay sweep |
| Grid.Gather | g_star.py:145-151 | the concatenating walk returns exactly the pre-order leaves |
| Grid.FractalGrid.constructor | g_star.py:74-82 | the grid starts as one empty leaf at level 0 over the configured rectangle, with the given configuration, and is valid |
| Grid.FractalGrid.Get | g_star.py:98-104 | invalid coordinates fail and change nothing; otherwise the leaf containing the point gains exactly 1, its new load is returned, total load rises by 1, and the grid stays valid |
| Grid.FractalGrid.Set | g_star.py:106-112 | invalid coordinates fail and change nothing; otherwise the new root is one set step (record, then split rule), total load rises by 1, and the grid stays valid |
| Grid.FractalGrid.Rebalance | g_star.py:114-117 | the root becomes the split rule applied at the given cell, and the grid stays valid |
| Grid.FractalGrid.PeriodicRebalance | g_star.py:119-121 | the root becomes its merge sweep: valid, settled, same total load |
| Grid.FractalGrid.DecayLoad | g_star.py:130-141 | the root becomes its decay sweep with the same shape, and the grid stays valid |
| Grid.FractalGrid.GetLeaves | g_star.py:143-152 | the snapshot is exactly the pre-order leaves; every point of [0, 1)² lies in exactly one of them; their loads sum to the tree's total load |

## Left out

- Concurrency: the re-entrant lock and every `with self.lock` (g_star.py:82, 85, 101, 109, 120, 132, 144). The model is sequential and each public operation is one atomic step.
- The background loops `LoadDecayThread`, `GlobalAdaptiveController` and `worker_loop` (g_star.py:154-198). They drive `decay_load(decay_factor)`, `periodic_rebalance` and `set` from timers and random points (g_star.py:166, 185, 197). The timers, stop and pause flags and random sampling are not modelled; a client makes the same calls through `DecayLoad`, `PeriodicRebalance` and `Set`.
- Rendering, sliders, the pause button and start-up (g_star.py:200-304). The split and merge slider callbacks assign the threshold and then call `periodic_rebalance` (g_star.py:250-260). A client does the same by assigning the public field and calling `PeriodicRebalance`. The decay sliders only assign their fields. The prints in all four callbacks are logging only.
- The `print` calls in `subdivide` and `merge` (logging only).
- The `parent` back-reference: it is written but never read.
- Floating point: bounds, loads and factors are reals, so midpoints and quarter loads are exact.
- The `_find_leaf` fallback (g_star.py:94-95) is kept in `LeafPath` and `FindLeaf`. `LeafPathReachesLeaf` proves that it never fires on a valid grid.
- `decay_interval` is stored but only sets the decay thread's sleep; it has no effect on the tree.
- Node identity: nodes are values, not shared objects. Subdivide and merge rebuild the path from the root to the changed cell instead of updating an object in place. `get_leaves` returns copies, where the source returns the live node objects. `_find_leaf` returns the path to the cell instead of a reference to it.
- Grid.FractalGrid.constructor: requires the configured rectangle to cover [0, 1)². The source accepts any rectangle, but `validate_coord` still admits all of [0, 1)². On a root that does not cover the point, the unit of load is charged to a cell that does not contain it. If the root is a leaf, the loop at g_star.py:87 is never entered and the root leaf takes the unit. If the root is internal, the fallback charges the internal cell where no child contains the point.
- Cell.Merge: requires an internal cell. On a leaf, the source fails with an attribute error (`None.values()`), and its only caller checks `can_merge` first.
- `maxLevel` is any integer, as in the source. The depth cap holds for every cell below the root. A negative cap leaves the root a leaf at level 0.
