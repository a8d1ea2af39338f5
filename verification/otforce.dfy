/**
 `otNode::calcForce`: the Barnes-Hut traversal of a tree whose statistics
 have been computed. The pairwise kernel `otNode::force` and the square
 root inside `glm::distance` are parameters.
 */
module OtForce {
  import opened Geom
  import opened Sums
  import opened OtTree
  import opened OtStats

  /** `force(p1, m1, p2, m2)`: the pull on a body at `p1` of mass `m1` by a
      mass `m2` at `p2`. */
  type Kernel = (Vec, real, Vec, real) -> Vec

  /** The pull of body `j` on body `q`; nothing for `q` itself. */
  function Pull(pts: seq<Body>, kernel: Kernel, q: nat): nat -> Vec
    requires q < |pts|
  {
    (j: nat) => if j < |pts| && j != q then kernel(pts[q].pos, pts[q].weight, pts[j].pos, pts[j].weight) else Origin
  }

  /** The exact reference: the summed pull on `q` of every other indexed body. */
  function DirectForce(pts: seq<Body>, kernel: Kernel, s: seq<nat>, q: nat): Vec
    requires q < |pts|
  {
    VSum(Pull(pts, kernel, q), s)
  }

  /** The exact sum does not depend on the order of the bodies. */
  lemma DirectForceOrderFree(pts: seq<Body>, kernel: Kernel, a: seq<nat>, b: seq<nat>, q: nat)
    requires q < |pts| && multiset(a) == multiset(b)
    ensures DirectForce(pts, kernel, a, q) == DirectForce(pts, kernel, b, q)
  {
    VSumPerm(Pull(pts, kernel, q), a, b);
  }

  /** The leaf loop: the query body is skipped by identity, every other held
      body contributes one kernel term. */
  function LeafForce(pts: seq<Body>, kernel: Kernel, ns: seq<nat>, q: nat): (f: Vec)
    requires q < |pts| && InRange(pts, ns)
    ensures f == DirectForce(pts, kernel, ns, q)
    decreases |ns|
  {
    if |ns| == 0 then Origin
    else
      var ns', j := ns[..|ns| - 1], ns[|ns| - 1];
      assert j in ns;
      assert forall x | x in ns' :: x in ns;
      var f := LeafForce(pts, kernel, ns', q);
      if j == q then f else Add(f, kernel(pts[q].pos, pts[q].weight, pts[j].pos, pts[j].weight))
  }

  /** The test `distance / bboxSize > theta` of an internal node: when it
      holds, the node is treated as one body at its barycentre. */
  predicate FarEnough(pts: seq<Body>, root: real -> real, s: STree, q: nat, theta: real)
    requires q < |pts|
  {
    s.SInner? && RatioAbove(Dist3d(root, pts[q].pos, s.st.bary), s.st.bboxSize, theta)
  }

  /** No node of `s` is treated as a single body. */
  predicate NeverFar(pts: seq<Body>, root: real -> real, s: STree, q: nat, theta: real)
    requires q < |pts|
    decreases s
  {
    && !FarEnough(pts, root, s, q, theta)
    && (s.SInner? ==> forall k | 0 <= k < |s.children| :: NeverFar(pts, root, s.children[k], q, theta))
  }

  /**
   `otNode::calcForce`. At a leaf it is the exact sum over the other held
   bodies; when no node on the way is far enough it is the exact sum over the
   whole subtree.
   */
  function CalcForce(pts: seq<Body>, kernel: Kernel, root: real -> real, s: STree, q: nat, theta: real): (f: Vec)
    requires q < |pts| && AllSummarised(pts, s)
    ensures s.SLeaf? ==> f == DirectForce(pts, kernel, s.nodes, q)
    ensures NeverFar(pts, root, s, q, theta) ==> f == DirectForce(pts, kernel, Bodies(s), q)
    decreases s, 1
  {
    match s
    case SLeaf(ns, _) => LeafForce(pts, kernel, ns, q)
    case SInner(_, rs, st) =>
      if RatioAbove(Dist3d(root, pts[q].pos, st.bary), st.bboxSize, theta) then
        kernel(pts[q].pos, pts[q].weight, st.bary, st.weight)
      else
        ChildForces(pts, kernel, root, rs, q, theta)
  }

  /** The child loop of an internal node that is not far enough. */
  function ChildForces(pts: seq<Body>, kernel: Kernel, root: real -> real, rs: seq<STree>, q: nat, theta: real): (f: Vec)
    requires q < |pts| && forall k | 0 <= k < |rs| :: AllSummarised(pts, rs[k])
    ensures (forall k | 0 <= k < |rs| :: NeverFar(pts, root, rs[k], q, theta)) ==>
      f == DirectForce(pts, kernel, PointsOf(Shapes(rs)), q)
    decreases rs, 0
  {
    if |rs| == 0 then Origin
    else
      var rs', c := rs[..|rs| - 1], rs[|rs| - 1];
      assert forall k | 0 <= k < |rs'| :: rs'[k] == rs[k];
      var f, g := ChildForces(pts, kernel, root, rs', q, theta), CalcForce(pts, kernel, root, c, q, theta);
      ChildForcesJoin(pts, kernel, root, rs, rs', q, theta, f, g);
      Add(f, g)
  }

  /** The sum over all children but the last, plus the last child's force,
      is the sum over all children. */
  lemma ChildForcesJoin(pts: seq<Body>, kernel: Kernel, root: real -> real, rs: seq<STree>, rs': seq<STree>, q: nat, theta: real, f: Vec, g: Vec)
    requires q < |pts| && |rs| > 0 && rs' == rs[..|rs| - 1]
    requires (forall k | 0 <= k < |rs'| :: NeverFar(pts, root, rs'[k], q, theta)) ==>
      f == DirectForce(pts, kernel, PointsOf(Shapes(rs')), q)
    requires NeverFar(pts, root, rs[|rs| - 1], q, theta) ==> g == DirectForce(pts, kernel, Bodies(rs[|rs| - 1]), q)
    ensures (forall k | 0 <= k < |rs| :: NeverFar(pts, root, rs[k], q, theta)) ==>
      Add(f, g) == DirectForce(pts, kernel, PointsOf(Shapes(rs)), q)
  {
    ShapesInit(rs);
    VSumConcat(Pull(pts, kernel, q), PointsOf(Shapes(rs[..|rs| - 1])), Bodies(rs[|rs| - 1]));
  }

  /** The shapes of all children but the last, then the last's. */
  lemma ShapesInit(rs: seq<STree>)
    requires |rs| > 0
    ensures forall k | 0 <= k < |rs| - 1 :: rs[..|rs| - 1][k] == rs[k]
    ensures Shapes(rs)[..|rs| - 1] == Shapes(rs[..|rs| - 1])
    ensures PointsOf(Shapes(rs)) == PointsOf(Shapes(rs[..|rs| - 1])) + Bodies(rs[|rs| - 1])
  {
    assert Shapes(rs)[..|rs| - 1] == Shapes(rs[..|rs| - 1]);
  }

  /** A node that is far enough contributes one kernel term with the total
      weight of its bodies at their weighted mean position. */
  lemma FarNodeIsAggregate(pts: seq<Body>, kernel: Kernel, root: real -> real, s: STree, q: nat, theta: real)
    requires q < |pts| && AllSummarised(pts, s) && FarEnough(pts, root, s, q, theta)
    ensures var w := TotalWeight(pts, Bodies(s));
      && CalcForce(pts, kernel, root, s, q, theta) == kernel(pts[q].pos, pts[q].weight, s.st.bary, w)
      && Scale(s.st.bary, w) == Moment(pts, Bodies(s))
  {
  }

  /** When no node is far enough, the traversal of the statistics of a tree
      built from `xs` is the exact sum over `xs`, in any insertion order. */
  lemma ExactWhenNeverFar(pts: seq<Body>, kernel: Kernel, root: real -> real, t: Tree, xs: seq<nat>, q: nat, theta: real)
    requires q < |pts| && PositiveWeights(pts) && InRange(pts, Points(t)) && Populated(t)
    requires multiset(Points(t)) == multiset(xs)
    ensures NeverFar(pts, root, UpdateStats(pts, t), q, theta) ==>
      CalcForce(pts, kernel, root, UpdateStats(pts, t), q, theta) == DirectForce(pts, kernel, xs, q)
  {
    DirectForceOrderFree(pts, kernel, Points(t), xs, q);
  }

  /** A tree that never split is a single leaf, and its traversal is the
      exact sum over the inserted bodies. */
  lemma UnsplitIsDirect(pts: seq<Body>, kernel: Kernel, root: real -> real, xs: seq<nat>, q: nat, theta: real)
    requires q < |pts| && PositiveWeights(pts) && InRange(pts, xs)
    ensures CalcForce(pts, kernel, root, UpdateStats(pts, Leaf(xs)), q, theta) == DirectForce(pts, kernel, xs, q)
  {
  }
}
