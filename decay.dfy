/**
 * The decay sweep of `decay_load`: every leaf's load is multiplied by the
 * factor and a result below one millionth is clamped to zero.
 */
module Decay {
  import opened Cell
  import opened Tree

  /** Loads below this after decay are cleared: the 1e-6 of the source, exactly. */
  const ClampBelow: real := 1.0 / 1000000.0

  /**
   * One leaf's decayed load. It is never negative, whatever the factor; it is
   * either cleared or the product; and for a factor of at most one it never
   * exceeds the old load, falling strictly while the load is positive and
   * the factor below one.
   */
  function DecayedLoad(load: real, factor: real): (r: real)
    ensures r >= 0.0
    ensures r == 0.0 || r == load * factor
    ensures load * factor < ClampBelow <==> r == 0.0
    ensures load >= 0.0 && factor <= 1.0 ==> r <= load
    ensures load > 0.0 && factor < 1.0 ==> r < load
  {
    var l := load * factor;
    if l < ClampBelow then 0.0
    else
      assert load >= 0.0 && factor <= 1.0 ==> l <= load by {
        if load >= 0.0 && factor <= 1.0 {
          assert load - l == load * (1.0 - factor);
        }
      }
      assert load > 0.0 && factor < 1.0 ==> l < load by {
        if load > 0.0 && factor < 1.0 {
          assert load - l == load * (1.0 - factor);
        }
      }
      l
  }

  /** The decay sweep over a tree: leaves decay, internal cells only pass it on. */
  function Decayed(n: Node, factor: real): (r: Node)
    ensures SameShape(r, n)
  {
    if n.IsLeaf() then n.(load := DecayedLoad(n.load, factor))
    else n.(children := DecayedSeq(n.children, factor))
  }

  function DecayedSeq(cs: seq<Node>, factor: real): (r: seq<Node>)
    ensures |r| == |cs|
    ensures forall i :: 0 <= i < |cs| ==> r[i] == Decayed(cs[i], factor)
  {
    if cs == [] then [] else [Decayed(cs[0], factor)] + DecayedSeq(cs[1..], factor)
  }

  /** Decay keeps a well-formed tree well formed, for any factor. */
  lemma {:induction false} DecayedWellFormed(n: Node, maxLevel: int, factor: real)
    requires WellFormed(n, maxLevel)
    ensures WellFormed(Decayed(n, factor), maxLevel)
  {
    if !n.IsLeaf() {
      forall q | 0 <= q < 4 {
        DecayedWellFormed(n.children[q], maxLevel, factor);
      }
    }
  }

  /** A list of leaves with each load decayed. */
  function DecayEach(s: seq<Node>, factor: real): (r: seq<Node>)
    ensures |r| == |s|
  {
    seq(|s|, i requires 0 <= i < |s| => s[i].(load := DecayedLoad(s[i].load, factor)))
  }

  /**
   * Seen through `get_leaves`, a decay sweep decays each leaf in place: the
   * same leaves in the same order, with the same rectangles and levels, each
   * load replaced by its decayed value.
   */
  lemma {:induction false} DecayedLeaves(n: Node, factor: real)
    ensures Leaves(Decayed(n, factor)) == DecayEach(Leaves(n), factor)
  {
    if !n.IsLeaf() {
      DecayedSeqLeaves(n.children, factor);
    }
  }

  lemma {:induction false} DecayedSeqLeaves(cs: seq<Node>, factor: real)
    ensures LeavesSeq(DecayedSeq(cs, factor)) == DecayEach(LeavesSeq(cs), factor)
  {
    if cs != [] {
      var ds := DecayedSeq(cs, factor);
      assert ds[1..] == DecayedSeq(cs[1..], factor);
      DecayedLeaves(cs[0], factor);
      DecayedSeqLeaves(cs[1..], factor);
      assert DecayEach(Leaves(cs[0]) + LeavesSeq(cs[1..]), factor)
          == DecayEach(Leaves(cs[0]), factor) + DecayEach(LeavesSeq(cs[1..]), factor);
    }
  }

  /** A load after k decays by the same factor. */
  function DecayTimes(load: real, factor: real, k: nat): real
  {
    if k == 0 then load else DecayedLoad(DecayTimes(load, factor, k - 1), factor)
  }

  /**
   * Each decay that does not clear the load removes at least
   * (1 - factor) / 1000000 from it.
   */
  lemma {:induction false} DecayTimesBound(load: real, factor: real, k: nat)
    requires load >= 0.0 && 0.0 <= factor < 1.0
    ensures DecayTimes(load, factor, k) == 0.0
            || DecayTimes(load, factor, k) <= load - k as real * ((1.0 - factor) * ClampBelow)
  {
    if k > 0 {
      DecayTimesBound(load, factor, k - 1);
      var prev := DecayTimes(load, factor, k - 1);
      var next := DecayTimes(load, factor, k);
      if next != 0.0 {
        StepDown(prev, factor);
        StepsAdd(k, (1.0 - factor) * ClampBelow);
      }
    }
  }

  /** A decay that does not clear a load takes at least (1 - factor) / 1000000 off it. */
  lemma StepDown(prev: real, factor: real)
    requires 0.0 <= factor < 1.0 && DecayedLoad(prev, factor) != 0.0
    ensures prev != 0.0
    ensures DecayedLoad(prev, factor) <= prev - (1.0 - factor) * ClampBelow
  {
    var next := prev * factor;
    var g := 1.0 - factor;
    assert DecayedLoad(prev, factor) == next && next >= ClampBelow;
    assert prev >= ClampBelow by {
      if prev < ClampBelow {
        ScaleMonotone(ClampBelow, prev, factor);
        assert false;
      }
    }
    assert next == prev - prev * g;
    ScaleMonotone(prev, ClampBelow, g);
    assert ClampBelow * g == g * ClampBelow;
  }

  lemma StepsAdd(k: nat, step: real)
    requires k > 0
    ensures (k - 1) as real * step + step == k as real * step
  {
  }

  /**
   * With a factor below one, repeated decay clears any load to exactly zero
   * after finitely many steps, and it stays zero afterwards.
   */
  lemma DecayReachesZero(load: real, factor: real) returns (k: nat)
    requires load >= 0.0 && 0.0 <= factor < 1.0
    ensures DecayTimes(load, factor, k) == 0.0
    ensures forall j :: k <= j ==> DecayTimes(load, factor, j) == 0.0
  {
    var step := (1.0 - factor) * ClampBelow;
    assert step > 0.0;
    k := (load / step).Floor as nat + 1;
    DecayTimesBound(load, factor, k);
    assert (load / step) * step == load;
    ScaleMonotone(k as real, load / step, step);
    forall j | k <= j
      ensures DecayTimes(load, factor, j) == 0.0
    {
      DecayStaysZero(load, factor, k, j);
    }
  }

  lemma ScaleMonotone(a: real, b: real, c: real)
    requires a >= b && c >= 0.0
    ensures a * c >= b * c
    ensures a > b && c > 0.0 ==> a * c > b * c
  {
    assert a * c - b * c == (a - b) * c;
  }

  lemma {:induction false} DecayStaysZero(load: real, factor: real, k: nat, j: nat)
    requires k <= j && DecayTimes(load, factor, k) == 0.0
    ensures DecayTimes(load, factor, j) == 0.0
    decreases j - k
  {
    if k < j {
      DecayStaysZero(load, factor, k, j - 1);
    }
  }
}
