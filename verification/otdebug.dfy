/**
 The structural counters of `otNode::debug`: one walk over the tree that
 records the deepest leaf, the number of leaves and of internal nodes, and
 the largest leaf.
 */
module OtDebug {
  import opened Sums
  import opened OtTree

  /** `debugData`, all fields starting at zero. */
  datatype DebugData = DebugData(maxDepth: int, numLeafs: int, numInternalNodes: int, maxNumNodes: int)

  const Zero: DebugData := DebugData(0, 0, 0, 0)

  function Max(a: int, b: int): int
  {
    if a < b then b else a
  }

  // Reference counts, defined directly on the tree.

  function LeafCount(t: Tree): nat
    decreases t
  {
    match t
    case Leaf(_) => 1
    case Inner(_, ch) => LeafCountOf(ch)
  }

  function LeafCountOf(ch: seq<Tree>): nat
    decreases ch
  {
    if |ch| == 0 then 0 else LeafCountOf(ch[..|ch| - 1]) + LeafCount(ch[|ch| - 1])
  }

  function InnerCount(t: Tree): nat
    decreases t
  {
    match t
    case Leaf(_) => 0
    case Inner(_, ch) => 1 + InnerCountOf(ch)
  }

  function InnerCountOf(ch: seq<Tree>): nat
    decreases ch
  {
    if |ch| == 0 then 0 else InnerCountOf(ch[..|ch| - 1]) + InnerCount(ch[|ch| - 1])
  }

  /** The size of the largest leaf. */
  function MaxLeaf(t: Tree): nat
    decreases t
  {
    match t
    case Leaf(ns) => |ns|
    case Inner(_, ch) => MaxLeafOf(ch)
  }

  function MaxLeafOf(ch: seq<Tree>): nat
    decreases ch
  {
    if |ch| == 0 then 0 else Max(MaxLeafOf(ch[..|ch| - 1]), MaxLeaf(ch[|ch| - 1]))
  }

  /** Every internal node has exactly eight children. */
  predicate EightWay(t: Tree)
    decreases t
  {
    match t
    case Leaf(_) => true
    case Inner(_, ch) => |ch| == 8 && forall k | 0 <= k < 8 :: EightWay(ch[k])
  }

  /**
   `otNode::debug(d, depth)`: a leaf raises the depth and size maxima and
   counts itself; an internal node visits its children one level deeper and
   then counts itself.
   */
  function Debug(t: Tree, d: DebugData, depth: int): (r: DebugData)
    requires EightWay(t)
    ensures r.numLeafs == d.numLeafs + LeafCount(t)
    ensures r.numInternalNodes == d.numInternalNodes + InnerCount(t)
    ensures r.maxNumNodes == Max(d.maxNumNodes, MaxLeaf(t))
    ensures r.maxDepth == Max(d.maxDepth, depth + Height(t))
    decreases t, 1
  {
    match t
    case Leaf(ns) =>
      DebugData(Max(d.maxDepth, depth), d.numLeafs + 1, d.numInternalNodes, Max(d.maxNumNodes, |ns|))
    case Inner(_, ch) =>
      var e := DebugChildren(ch, d, depth);
      e.(numInternalNodes := e.numInternalNodes + 1)
  }

  /** The child loop of `debug`, children at `depth + 1`. */
  function DebugChildren(ch: seq<Tree>, d: DebugData, depth: int): (r: DebugData)
    requires forall k | 0 <= k < |ch| :: EightWay(ch[k])
    ensures r.numLeafs == d.numLeafs + LeafCountOf(ch)
    ensures r.numInternalNodes == d.numInternalNodes + InnerCountOf(ch)
    ensures |ch| > 0 ==> r.maxNumNodes == Max(d.maxNumNodes, MaxLeafOf(ch))
    ensures |ch| > 0 ==> r.maxDepth == Max(d.maxDepth, depth + 1 + MaxHeight(ch))
    ensures |ch| == 0 ==> r == d
    decreases ch, 0
  {
    if |ch| == 0 then d
    else
      var ch' := ch[..|ch| - 1];
      assert forall k | 0 <= k < |ch'| :: ch'[k] == ch[k];
      Debug(ch[|ch| - 1], DebugChildren(ch', d, depth), depth + 1)
  }

  /** A valid tree is eight-way. */
  lemma {:induction false} ValidIsEightWay(pts: seq<Body>, threshold: nat, t: Tree)
    requires Valid(pts, threshold, t)
    ensures EightWay(t)
    decreases t
  {
    match t
    case Leaf(_) =>
    case Inner(_, ch) =>
      forall k | 0 <= k < 8 ensures EightWay(ch[k]) {
        ValidIsEightWay(pts, threshold, ch[k]);
      }
  }

  /** Every split turns one leaf into eight, so an eight-way tree has seven
      more leaves per internal node, plus one. */
  lemma {:induction false} LeafInnerCount(t: Tree)
    requires EightWay(t)
    ensures LeafCount(t) == 7 * InnerCount(t) + 1
    decreases t
  {
    match t
    case Leaf(_) =>
    case Inner(_, ch) =>
      forall k | 0 <= k < 8 ensures LeafCount(ch[k]) == 7 * InnerCount(ch[k]) + 1 {
        LeafInnerCount(ch[k]);
      }
      LeafInnerCountOf(ch, 8);
      assert ch[..8] == ch;
  }

  lemma {:induction false} LeafInnerCountOf(ch: seq<Tree>, n: nat)
    requires n <= |ch|
    requires forall k | 0 <= k < n :: LeafCount(ch[k]) == 7 * InnerCount(ch[k]) + 1
    ensures LeafCountOf(ch[..n]) == 7 * InnerCountOf(ch[..n]) + n
    decreases n
  {
    if n > 0 {
      LeafInnerCountOf(ch, n - 1);
      assert ch[..n][..n - 1] == ch[..n - 1];
    }
  }

  /** In a valid tree every leaf, hence the largest, holds fewer than
      `threshold` bodies. */
  lemma {:induction false} MaxLeafBelowThreshold(pts: seq<Body>, threshold: nat, t: Tree)
    requires Valid(pts, threshold, t) && threshold > 0
    ensures MaxLeaf(t) < threshold
    decreases t
  {
    match t
    case Leaf(_) =>
    case Inner(_, ch) =>
      forall k | 0 <= k < 8 ensures MaxLeaf(ch[k]) < threshold {
        MaxLeafBelowThreshold(pts, threshold, ch[k]);
      }
      MaxLeafOfBelow(ch, 8, threshold);
      assert ch[..8] == ch;
  }

  lemma {:induction false} MaxLeafOfBelow(ch: seq<Tree>, n: nat, bound: nat)
    requires n <= |ch| && bound > 0
    requires forall k | 0 <= k < n :: MaxLeaf(ch[k]) < bound
    ensures MaxLeafOf(ch[..n]) < bound
    decreases n
  {
    if n > 0 {
      MaxLeafOfBelow(ch, n - 1, bound);
      assert ch[..n][..n - 1] == ch[..n - 1];
    }
  }

  /** The counters of a debug walk from the root of a valid tree. */
  lemma DebugOfValidTree(pts: seq<Body>, threshold: nat, t: Tree)
    requires Valid(pts, threshold, t) && threshold > 0
    ensures EightWay(t)
    ensures var r := Debug(t, Zero, 0);
      && r.numLeafs == 7 * r.numInternalNodes + 1
      && r.maxNumNodes < threshold
      && r.maxDepth == Height(t)
  {
    ValidIsEightWay(pts, threshold, t);
    LeafInnerCount(t);
    MaxLeafBelowThreshold(pts, threshold, t);
  }
}
