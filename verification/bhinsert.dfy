/**
 Insertion into the `bhqt` octree: `octNode::insert`, the splitting
 constructor `octNode(threshold, leaf)` and `octTree::insert`. A leaf child
 that grows past the threshold is replaced by a new `octNode` built from its
 bodies, unless the centre and the new body compare equal under
 `point_t::operator==`; that guard is also what makes the recursion stop on
 bodies that share a position.
 */
module BhInsert {
  import opened Geom
  import opened Sums
  import opened BhNode

  /** The slot holds an `octNode`. */
  predicate IsOct(s: Option<BNode>)
  {
    s.Some? && s.value.Oct?
  }

  /** The bodies of a leaf slot; nothing for a NULL slot. */
  function LeafAt(s: Option<BNode>): seq<nat>
  {
    if s.Some? && s.value.BLeaf? then s.value.nodes else []
  }

  /** No child slot of the node holds an `octNode`. */
  predicate NoOctChild(n: BNode)
    requires n.Oct?
  {
    forall m | 0 <= m < |n.children| :: !IsOct(n.children[m])
  }

  /** A split below `o` for body `j` is ruled out at this level: the slot is
      not an `octNode` and the centre compares equal to the body. */
  predicate Blocked(pts: seq<Body>, o: BNode, j: nat)
    requires o.Oct? && |o.children| == 8 && j < |pts|
  {
    !IsOct(o.children[Octant(pts[j].pos, o.center)]) && ApproxEq(o.center, pts[j].pos)
  }

  /**
   `octNode::insert`: the cube, the total weight, the weighted sum and the
   barycentre take the body in; the body goes to the slot of its octant,
   which `NewChild` fills.
   */
  function OctInsert(pts: seq<Body>, threshold: nat, o: BNode, j: nat): (r: BNode)
    requires j < |pts| && PositiveWeights(pts) && o.Oct? && Good(pts, o)
    ensures r.Oct? && Good(pts, r) && r.center == o.center
    ensures multiset(Points(r)) == multiset(Points(o)) + multiset{j}
    ensures var k := Octant(pts[j].pos, o.center);
      && (forall m | 0 <= m < 8 && m != k :: r.children[m] == o.children[m])
      && r.children[k].Some?
      && (IsOct(r.children[k]) <==>
            IsOct(o.children[k]) || (|LeafAt(o.children[k])| + 1 > threshold && NotApproxEq(o.center, pts[j].pos)))
      && (!IsOct(r.children[k]) ==> r.children[k].value == BLeaf(LeafAt(o.children[k]) + [j]))
    decreases |Reach(o, pts[j].pos)| + 1, if Blocked(pts, o, j) then 0 else 2, Height(o), 1
  {
    var p, w := pts[j].pos, pts[j].weight;
    var child := NewChild(pts, threshold, o, j);
    var weight := o.weight + w;
    var accum := Add(o.accum, Scale(p, w));
    assert weight > 0.0 by { WeightNonNegative(pts, o); }
    var r := Oct(o.center, o.children[Octant(p, o.center) := Some(child)], CubeAddPoint(o.bbox, p), weight, accum, Div(accum, weight));
    InsertStep(pts, o, j, child, r);
    r
  }

  /**
   The new content of the body's slot in `octNode::insert`. A NULL slot gets
   a new leaf; an `octNode` slot recurses; a leaf slot takes the body and is
   split into a new `octNode` when it holds more than `threshold` bodies and
   the centre differs from the body's position.
   */
  function NewChild(pts: seq<Body>, threshold: nat, o: BNode, j: nat): (c: BNode)
    requires j < |pts| && PositiveWeights(pts) && o.Oct? && Good(pts, o)
    ensures ChildReady(pts, o, j, c)
    ensures var slot := o.children[Octant(pts[j].pos, o.center)];
      && (c.Oct? <==> IsOct(slot) || (|LeafAt(slot)| + 1 > threshold && NotApproxEq(o.center, pts[j].pos)))
      && (c.BLeaf? ==> c == BLeaf(LeafAt(slot) + [j]))
    decreases |Reach(o, pts[j].pos)| + 1, if Blocked(pts, o, j) then 0 else 2, Height(o), 0
  {
    var p := pts[j].pos;
    var k := Octant(p, o.center);
    var slot := o.children[k];
    assert SlotGood(pts, slot, o.center, k);
    if IsOct(slot) then
      assert Height(slot.value) < Height(o) by {
        assert SlotHeight(o.children[k]) <= SlotsHeight(o.children);
      }
      assert Reach(slot.value, p) == Reach(o, p);
      OctInsert(pts, threshold, slot.value, j)
    else
      var ns := LeafAt(slot) + [j];
      assert SlotPoints(slot) == LeafAt(slot);
      assert InRange(pts, ns);
      assert Reach(o, p) == LeafAt(slot);
      if |ns| > threshold && NotApproxEq(o.center, p) then Construct(pts, threshold, ns) else BLeaf(ns)
  }

  /**
   The constructor `octNode(threshold, leaf)`: NULL slots, the cube of the
   first body, the centre at the arithmetic mean of the bodies, then every
   body inserted in order.
   */
  function Construct(pts: seq<Body>, threshold: nat, ns: seq<nat>): (r: BNode)
    requires |ns| > 0 && InRange(pts, ns) && PositiveWeights(pts)
    ensures r.Oct? && Good(pts, r) && r.center == Mean(pts, ns)
    ensures multiset(Points(r)) == multiset(ns)
    decreases |ns|, 1, |ns| + 1
  {
    var c := Mean(pts, ns);
    assert ns[0] in ns;
    var first := Oct(c, NoChildren(), CubeOfPoint(pts[ns[0]].pos), 0.0, Origin, Origin);
    FreshGood(pts, first);
    InsertAll(pts, threshold, ns, first, 0)
  }

  /** The insertion loop of the constructor, from the `k`-th body on. */
  function InsertAll(pts: seq<Body>, threshold: nat, ns: seq<nat>, node: BNode, k: nat): (r: BNode)
    requires |ns| > 0 && InRange(pts, ns) && PositiveWeights(pts) && k <= |ns|
    requires node.Oct? && Good(pts, node) && node.center == Mean(pts, ns)
    requires multiset(Points(node)) == multiset(ns[..k])
    requires Coincident(pts, ns) ==> NoOctChild(node)
    ensures r.Oct? && Good(pts, r) && r.center == node.center
    ensures multiset(Points(r)) == multiset(ns)
    decreases |ns|, 1, |ns| - k
  {
    if k == |ns| then
      assert ns[..k] == ns;
      node
    else
      var j := ns[k];
      assert j in ns;
      InsertAllMeasure(pts, ns, node, k);
      var next := OctInsert(pts, threshold, node, j);
      assert ns[..k + 1] == ns[..k] + [j];
      assert Coincident(pts, ns) ==> NoOctChild(next) by {
        if Coincident(pts, ns) {
          CoincidentAtMean(pts, ns);
          EqualImpliesApproxEq(node.center, pts[j].pos);
        }
      }
      InsertAll(pts, threshold, ns, next, k + 1)
  }

  /**
   `octTree::insert`: an `octNode` root takes the body; a leaf root takes it
   and is split, with no guard, once it holds more than `threshold` bodies.
   */
  function TreeInsert(pts: seq<Body>, threshold: nat, root: BNode, j: nat): (r: BNode)
    requires j < |pts| && PositiveWeights(pts) && Good(pts, root)
    ensures Good(pts, r)
    ensures multiset(Points(r)) == multiset(Points(root)) + multiset{j}
    ensures root.Oct? ==> r.Oct? && r.center == root.center
    ensures root.BLeaf? ==> (r.Oct? <==> |root.nodes| + 1 > threshold)
    ensures root.BLeaf? && r.BLeaf? ==> r.nodes == root.nodes + [j]
    ensures root.BLeaf? && r.Oct? ==> r.center == Mean(pts, root.nodes + [j])
  {
    match root
    case Oct(_, _, _, _, _, _) => OctInsert(pts, threshold, root, j)
    case BLeaf(ns) =>
      var ns' := ns + [j];
      assert InRange(pts, ns');
      if |ns'| > threshold then Construct(pts, threshold, ns') else BLeaf(ns')
  }

  /** Inserting the bodies of `xs` one by one into a new tree (an empty leaf
      root), as the simulation does before each force pass. */
  method BuildTree(pts: seq<Body>, threshold: nat, xs: seq<nat>) returns (t: BNode)
    requires PositiveWeights(pts) && InRange(pts, xs)
    ensures Good(pts, t)
    ensures multiset(Points(t)) == multiset(xs)
    ensures |xs| <= threshold ==> t == BLeaf(xs)
    ensures |xs| > threshold ==> t.Oct?
    ensures t.Oct? ==> t.weight == TotalWeight(pts, xs)
  {
    t := BLeaf([]);
    var k := 0;
    while k < |xs|
      invariant k <= |xs| && Good(pts, t)
      invariant multiset(Points(t)) == multiset(xs[..k])
      invariant k <= threshold ==> t == BLeaf(xs[..k])
      invariant k > threshold ==> t.Oct?
    {
      assert xs[k] in xs;
      assert xs[..k + 1] == xs[..k] + [xs[k]];
      t := TreeInsert(pts, threshold, t, xs[k]);
      k := k + 1;
    }
    assert xs[..k] == xs;
    TotalWeightPerm(pts, Points(t), xs);
  }

  // Lemmas used by the insertion functions.

  /** A fresh `octNode` before its first insertion is well formed. */
  lemma FreshGood(pts: seq<Body>, n: BNode)
    requires n.Oct? && n.children == NoChildren() && n.weight == 0.0
    requires n.accum == Origin && CubeWellFormed(n.bbox)
    ensures Good(pts, n) && Points(n) == [] && NoOctChild(n)
  {
    NoChildrenEmpty();
  }

  /** The running weight of an `octNode` is never negative. */
  lemma WeightNonNegative(pts: seq<Body>, o: BNode)
    requires o.Oct? && Good(pts, o)
    ensures o.weight >= 0.0
  {
    if |Points(o)| == 0 {
      assert Points(o) == [];
    }
  }

  /** All bodies that share a position sit at their mean. */
  lemma CoincidentAtMean(pts: seq<Body>, ns: seq<nat>)
    requires InRange(pts, ns) && |ns| > 0 && Coincident(pts, ns)
    ensures forall j | j in ns :: pts[j].pos == Mean(pts, ns)
  {
    OneSideOfMeanCoincident(pts, ns);
  }

  /** A sub-multiset is no larger, and of the same size only when it is the
      whole multiset. */
  lemma SubMultisetSize(a: multiset<nat>, b: multiset<nat>)
    requires a <= b
    ensures |a| <= |b|
    ensures |a| == |b| ==> a == b
  {
    assert b == a + (b - a) by {
      forall z ensures b[z] == (a + (b - a))[z] {
      }
    }
  }

  /**
   Why the constructor's loop terminates: the leaf the `k`-th body reaches
   holds at most the `k` bodies inserted so far; if it holds all of them,
   every body lies in one octant of their mean, so all of them sit at the
   mean, the equality guard holds and no split can follow.
   */
  lemma InsertAllMeasure(pts: seq<Body>, ns: seq<nat>, node: BNode, k: nat)
    requires |ns| > 0 && InRange(pts, ns) && k < |ns|
    requires node.Oct? && Good(pts, node) && node.center == Mean(pts, ns)
    requires multiset(Points(node)) == multiset(ns[..k])
    requires Coincident(pts, ns) ==> NoOctChild(node)
    ensures ns[k] < |pts|
    ensures |Reach(node, pts[ns[k]].pos)| + 1 <= |ns|
    ensures |Reach(node, pts[ns[k]].pos)| + 1 < |ns| || Blocked(pts, node, ns[k])
  {
    assert ns[k] in ns;
    var q, c := pts[ns[k]].pos, node.center;
    var reach := Reach(node, q);
    ReachSub(node, q);
    SubMultisetSize(multiset(reach), multiset(ns[..k]));
    if |reach| + 1 >= |ns| {
      assert k == |ns| - 1 && |reach| == k;
      ReachInOctant(pts, node, q);
      var o := Octant(q, c);
      forall x | x in ns ensures Octant(pts[x].pos, c) == o {
        if x != ns[k] {
          assert x in ns[..k] by {
            var i :| 0 <= i < |ns| && ns[i] == x;
            assert i < k;
          }
          assert x in multiset(reach);
        }
      }
      SameOctantAtMean(pts, ns, o);
      assert Coincident(pts, ns);
      EqualImpliesApproxEq(c, q);
    }
  }

  /** Bodies that all lie in one octant of their own mean sit at the mean. */
  lemma SameOctantAtMean(pts: seq<Body>, ns: seq<nat>, o: nat)
    requires |ns| > 0 && InRange(pts, ns)
    requires forall x | x in ns :: Octant(pts[x].pos, Mean(pts, ns)) == o
    ensures forall x | x in ns :: pts[x].pos == Mean(pts, ns)
  {
    var c := Mean(pts, ns);
    assert ns[0] in ns;
    var q := pts[ns[0]].pos;
    forall x | x in ns
      ensures (pts[x].pos.x > c.x <==> q.x > c.x)
      ensures (pts[x].pos.y > c.y <==> q.y > c.y)
      ensures (pts[x].pos.z > c.z <==> q.z > c.z)
    {
      OctantSides(pts[x].pos, q, c);
    }
    OneSideOfMeanCoincident(pts, ns);
  }

  /** The new child of `octNode::insert` is a well-formed, non-empty subtree
      of the body's octant holding the old slot's bodies and the new one. */
  predicate ChildReady(pts: seq<Body>, o: BNode, j: nat, child: BNode)
    requires o.Oct? && |o.children| == 8 && j < |pts|
  {
    var k := Octant(pts[j].pos, o.center);
    && Good(pts, child)
    && multiset(Points(child)) == multiset(SlotPoints(o.children[k])) + multiset{j}
  }

  /** The aggregates and slots of the node rebuilt by `octNode::insert`. */
  lemma InsertStep(pts: seq<Body>, o: BNode, j: nat, child: BNode, r: BNode)
    requires j < |pts| && PositiveWeights(pts) && o.Oct? && Good(pts, o)
    requires ChildReady(pts, o, j, child)
    requires var p, w := pts[j].pos, pts[j].weight;
      && o.weight + w > 0.0
      && r == Oct(o.center, o.children[Octant(p, o.center) := Some(child)], CubeAddPoint(o.bbox, p),
                  o.weight + w, Add(o.accum, Scale(p, w)), Div(Add(o.accum, Scale(p, w)), o.weight + w))
    ensures Good(pts, r)
    ensures multiset(Points(r)) == multiset(Points(o)) + multiset{j}
  {
    var c, k, ch := o.center, Octant(pts[j].pos, o.center), o.children;
    SlotsReplace(ch, k, child, j);
    AggregatesStep(pts, o, j, r);
    assert forall m | 0 <= m < 8 :: SlotGood(pts, r.children[m], c, m) by {
      ChildInOctant(pts, o, j, child);
      assert SlotGood(pts, Some(child), c, k);
      forall m | 0 <= m < 8 ensures SlotGood(pts, r.children[m], c, m) {
        if m != k {
          assert r.children[m] == ch[m];
        }
      }
    }
  }

  /** Putting into slot `k` a subtree with the slot's old bodies plus `j`
      adds exactly `j` to the node. */
  lemma SlotsReplace(ch: seq<Option<BNode>>, k: nat, child: BNode, j: nat)
    requires k < |ch|
    requires multiset(Points(child)) == multiset(SlotPoints(ch[k])) + multiset{j}
    ensures multiset(SlotsPoints(ch[k := Some(child)])) == multiset(SlotsPoints(ch)) + multiset{j}
  {
    SlotsUpdate(ch, k, Some(child));
    var old_, new_, all := multiset(SlotPoints(ch[k])), multiset(SlotsPoints(ch[k := Some(child)])), multiset(SlotsPoints(ch));
    assert new_ + old_ == all + old_ + multiset{j};
    forall z ensures new_[z] == (all + multiset{j})[z] {
      assert (new_ + old_)[z] == (all + old_ + multiset{j})[z];
    }
  }

  /** The new child holds only bodies of the inserted body's octant. */
  lemma ChildInOctant(pts: seq<Body>, o: BNode, j: nat, child: BNode)
    requires j < |pts| && o.Oct? && Good(pts, o)
    requires ChildReady(pts, o, j, child)
    ensures var k := Octant(pts[j].pos, o.center);
      |Points(child)| > 0 && InOctant(pts, Points(child), o.center, k)
  {
    var c, k, ch := o.center, Octant(pts[j].pos, o.center), o.children;
    assert SlotGood(pts, ch[k], c, k);
    forall x | x in Points(child) ensures x < |pts| && Octant(pts[x].pos, c) == k {
      assert x in multiset(Points(child));
      if x != j {
        assert x in SlotPoints(ch[k]);
      }
    }
    assert j in multiset(Points(child));
  }

  /** The running aggregates after `octNode::insert` describe the bodies
      below the node. */
  lemma AggregatesStep(pts: seq<Body>, o: BNode, j: nat, r: BNode)
    requires j < |pts| && o.Oct? && Good(pts, o) && r.Oct?
    requires multiset(Points(r)) == multiset(Points(o)) + multiset{j}
    requires var p, w := pts[j].pos, pts[j].weight;
      && r.weight == o.weight + w && r.weight > 0.0
      && r.accum == Add(o.accum, Scale(p, w))
      && r.bary == Div(r.accum, r.weight)
      && r.bbox == CubeAddPoint(o.bbox, p)
    ensures Aggregates(pts, r)
  {
    var ps, qs := Points(o), Points(r);
    assert multiset(ps + [j]) == multiset(qs);
    TotalWeightPerm(pts, ps + [j], qs);
    TotalWeightSnoc(pts, ps, j);
    forall x | x in qs ensures x < |pts| && CubeContains(r.bbox, pts[x].pos) {
      assert x in multiset(qs);
      if x != j {
        assert x in ps;
      }
    }
    assert j in multiset(qs);
  }

  // The constructor's loop one turn at a time.

  /** The state of the constructor's loop before its `k`-th turn. */
  predicate LoopState(pts: seq<Body>, ns: seq<nat>, node: BNode, k: nat)
  {
    && |ns| > 0 && InRange(pts, ns) && PositiveWeights(pts) && k <= |ns|
    && node.Oct? && Good(pts, node) && node.center == Mean(pts, ns)
    && multiset(Points(node)) == multiset(ns[..k])
    && (Coincident(pts, ns) ==> NoOctChild(node))
  }

  /** The constructor starts its loop from an empty node at the mean. */
  lemma ConstructStart(pts: seq<Body>, threshold: nat, ns: seq<nat>) returns (first: BNode)
    requires |ns| > 0 && InRange(pts, ns) && PositiveWeights(pts)
    ensures LoopState(pts, ns, first, 0)
    ensures first.children == NoChildren()
    ensures Construct(pts, threshold, ns) == InsertAll(pts, threshold, ns, first, 0)
  {
    assert ns[0] in ns;
    first := Oct(Mean(pts, ns), NoChildren(), CubeOfPoint(pts[ns[0]].pos), 0.0, Origin, Origin);
    FreshGood(pts, first);
    assert ns[..0] == [];
  }

  /** One turn of the loop inserts the next body and keeps the loop's state. */
  lemma InsertAllUnfold(pts: seq<Body>, threshold: nat, ns: seq<nat>, node: BNode, k: nat) returns (next: BNode)
    requires LoopState(pts, ns, node, k) && k < |ns|
    ensures ns[k] < |pts| && next == OctInsert(pts, threshold, node, ns[k])
    ensures LoopState(pts, ns, next, k + 1)
    ensures InsertAll(pts, threshold, ns, node, k) == InsertAll(pts, threshold, ns, next, k + 1)
  {
    var j := ns[k];
    assert j in ns;
    next := OctInsert(pts, threshold, node, j);
    assert ns[..k + 1] == ns[..k] + [j];
    assert Coincident(pts, ns) ==> NoOctChild(next) by {
      if Coincident(pts, ns) {
        CoincidentAtMean(pts, ns);
        EqualImpliesApproxEq(node.center, pts[j].pos);
      }
    }
  }

  /** The loop stops once every body is in. */
  lemma InsertAllDone(pts: seq<Body>, threshold: nat, ns: seq<nat>, node: BNode)
    requires LoopState(pts, ns, node, |ns|)
    ensures InsertAll(pts, threshold, ns, node, |ns|) == node
  {
  }

  /** A slot that none of the remaining bodies falls in keeps its content to
      the end of the loop. */
  lemma {:induction false} InsertAllKeepsSlot(pts: seq<Body>, threshold: nat, ns: seq<nat>, node: BNode, k: nat, m: nat)
    requires LoopState(pts, ns, node, k) && m < 8
    requires forall i | k <= i < |ns| :: ns[i] < |pts| && Octant(pts[ns[i]].pos, node.center) != m
    ensures InsertAll(pts, threshold, ns, node, k).children[m] == node.children[m]
    decreases |ns| - k
  {
    if k == |ns| {
      InsertAllDone(pts, threshold, ns, node);
    } else {
      var next := InsertAllUnfold(pts, threshold, ns, node, k);
      InsertAllKeepsSlot(pts, threshold, ns, next, k + 1, m);
    }
  }

  // A leaf past the threshold whose bodies are at different positions.

  /**
   The split guard compares positions with `point_t::operator==`, which
   sums the signed coordinate differences. Bodies at (1,-1,0), (2,-2,0) and
   (-3,3,0), of any positive masses, inserted in that order into a tree with
   threshold 1: the second body splits the root leaf at the mean
   (1.5,-1.5,0), and the third then joins the first in slot 1, because its
   position compares equal to that centre. The leaf ends with two bodies at
   different positions, past the threshold.
   */
  lemma OverfullLeafExample(pts: seq<Body>, ns: seq<nat>)
    requires ExampleBodies(pts, ns)
    ensures InsertEach(pts, 1, BLeaf([]), ns).Oct?
    ensures InsertEach(pts, 1, BLeaf([]), ns).center == Vec(1.5, -1.5, 0.0)
    ensures InsertEach(pts, 1, BLeaf([]), ns).children[1] == Some(BLeaf([ns[0], ns[2]]))
  {
    ExampleTwoInserts(pts, ns);
    var t1 := TreeInsert(pts, 1, BLeaf([]), ns[0]);
    var t2 := TreeInsert(pts, 1, t1, ns[1]);
    ExampleThird(pts, t2, ns[0], ns[2]);
    ExampleUnfold(pts, ns);
  }

  /** Three insertions through `InsertEach`, one step at a time. */
  lemma ExampleUnfold(pts: seq<Body>, ns: seq<nat>)
    requires ExampleBodies(pts, ns)
    ensures var t1 := TreeInsert(pts, 1, BLeaf([]), ns[0]);
      var t2 := TreeInsert(pts, 1, t1, ns[1]);
      InsertEach(pts, 1, BLeaf([]), ns) == TreeInsert(pts, 1, t2, ns[2])
  {
    var t0 := BLeaf([]);
    InsertEachStep(pts, 1, t0, ns);
    var t1 := TreeInsert(pts, 1, t0, ns[0]);
    InsertEachStep(pts, 1, t1, ns[1..]);
    var t2 := TreeInsert(pts, 1, t1, ns[1]);
    assert ns[1..][1..] == ns[2..];
    InsertEachStep(pts, 1, t2, ns[2..]);
    var t3 := TreeInsert(pts, 1, t2, ns[2]);
    assert ns[2..][1..] == [];
  }

  /** One step of `InsertEach`: insert the first body, then the rest. */
  lemma InsertEachStep(pts: seq<Body>, threshold: nat, t: BNode, ns: seq<nat>)
    requires InRange(pts, ns) && PositiveWeights(pts) && Good(pts, t) && |ns| > 0
    ensures ns[0] < |pts| && InRange(pts, ns[1..])
    ensures InsertEach(pts, threshold, t, ns)
      == InsertEach(pts, threshold, TreeInsert(pts, threshold, t, ns[0]), ns[1..])
  {
    assert ns[0] in ns;
    forall j | j in ns[1..] ensures j < |pts| {
      assert j in ns;
    }
  }

  /** The tree after inserting the bodies `ns` one by one into `t`. */
  function InsertEach(pts: seq<Body>, threshold: nat, t: BNode, ns: seq<nat>): (r: BNode)
    requires InRange(pts, ns) && PositiveWeights(pts) && Good(pts, t)
    ensures Good(pts, r)
    ensures multiset(Points(r)) == multiset(Points(t)) + multiset(ns)
    decreases |ns|
  {
    if |ns| == 0 then t
    else
      assert ns[0] in ns;
      assert InRange(pts, ns[1..]) by {
        forall j | j in ns[1..] ensures j < |pts| {
          assert j in ns;
        }
      }
      var next := TreeInsert(pts, threshold, t, ns[0]);
      var r := InsertEach(pts, threshold, next, ns[1..]);
      assert ns == [ns[0]] + ns[1..];
      assert multiset(ns) == multiset{ns[0]} + multiset(ns[1..]);
      r
  }

  /** The first two insertions: the second splits the root at the mean of
      the two bodies, with the first alone in slot 1. */
  lemma ExampleTwoInserts(pts: seq<Body>, ns: seq<nat>)
    requires ExampleBodies(pts, ns)
    ensures var t1 := TreeInsert(pts, 1, BLeaf([]), ns[0]);
      SoleInSlot(TreeInsert(pts, 1, t1, ns[1]), Vec(1.5, -1.5, 0.0), 1, ns[0])
  {
    var a, b := ns[0], ns[1];
    var t1 := TreeInsert(pts, 1, BLeaf([]), a);
    assert t1 == BLeaf([a]) by {
      assert [] + [a] == [a];
    }
    assert TreeInsert(pts, 1, t1, b) == Construct(pts, 1, [a, b]) by {
      assert [a] + [b] == [a, b];
    }
    ExampleSplit(pts, [a, b]);
  }

  /** The third insertion: its body falls in slot 1 and compares equal to the
      centre, so the leaf there takes it without splitting. */
  lemma ExampleThird(pts: seq<Body>, t: BNode, a: nat, c: nat)
    requires c < |pts| && PositiveWeights(pts) && Good(pts, t)
    requires SoleInSlot(t, Vec(1.5, -1.5, 0.0), 1, a) && pts[c].pos == Vec(-3.0, 3.0, 0.0)
    ensures var r := TreeInsert(pts, 1, t, c);
      r.Oct? && r.center == Vec(1.5, -1.5, 0.0) && r.children[1] == Some(BLeaf([a, c]))
  {
    assert Octant(pts[c].pos, t.center) == 1 && ApproxEq(t.center, pts[c].pos);
    assert LeafAt(t.children[1]) + [c] == [a, c];
  }

  /** Three bodies `ns` at (1,-1,0), (2,-2,0) and (-3,3,0), of any positive
      masses. */
  predicate ExampleBodies(pts: seq<Body>, ns: seq<nat>)
  {
    && |ns| == 3 && ns[0] < |pts| && ns[1] < |pts| && ns[2] < |pts| && PositiveWeights(pts)
    && pts[ns[0]].pos == Vec(1.0, -1.0, 0.0)
    && pts[ns[1]].pos == Vec(2.0, -2.0, 0.0)
    && pts[ns[2]].pos == Vec(-3.0, 3.0, 0.0)
  }

  /** The split of the root leaf holding the first two bodies: centre at
      their mean, the first body alone in slot 1. */
  lemma ExampleSplit(pts: seq<Body>, pair: seq<nat>)
    requires |pair| == 2 && pair[0] < |pts| && pair[1] < |pts| && PositiveWeights(pts)
    requires pts[pair[0]].pos == Vec(1.0, -1.0, 0.0) && pts[pair[1]].pos == Vec(2.0, -2.0, 0.0)
    ensures InRange(pts, pair)
    ensures SoleInSlot(Construct(pts, 1, pair), Vec(1.5, -1.5, 0.0), 1, pair[0])
  {
    ExampleMean(pts, pair);
    assert PairRoutes(pts, pair, Vec(1.5, -1.5, 0.0));
    var first := ConstructStart(pts, 1, pair);
    ExampleTurn(pts, pair, first, 0);
  }

  /** An `octNode` centred at `c` whose slot `m` is a leaf holding body `j`
      alone. */
  predicate SoleInSlot(n: BNode, c: Vec, m: nat, j: nat)
  {
    n.Oct? && m < |n.children| && n.center == c && n.children[m] == Some(BLeaf([j]))
  }

  lemma ExampleMean(pts: seq<Body>, pair: seq<nat>)
    requires |pair| == 2 && pair[0] < |pts| && pair[1] < |pts|
    requires pts[pair[0]].pos == Vec(1.0, -1.0, 0.0) && pts[pair[1]].pos == Vec(2.0, -2.0, 0.0)
    ensures InRange(pts, pair) && Mean(pts, pair) == Vec(1.5, -1.5, 0.0)
  {
    assert pair == [pair[0], pair[1]];
    SumOfTwo(XOf(pts), pair);
    SumOfTwo(YOf(pts), pair);
    SumOfTwo(ZOf(pts), pair);
  }

  lemma SumOfTwo(f: nat -> real, ns: seq<nat>)
    requires |ns| == 2
    ensures Sum(f, ns) == f(ns[0]) + f(ns[1])
  {
    var a := ns[..1];
    assert Sum(f, a) == f(ns[0]) by {
      assert a[..0] == [];
    }
    assert ns[..1] == a;
  }

  // The turn number `k` is a parameter rather than a literal, which keeps the
  // verifier from unrolling the loop on its own.

  /** Below centre `c` the first body of `pair` goes to slot 1 and the
      second to slot 2. */
  predicate PairRoutes(pts: seq<Body>, pair: seq<nat>, c: Vec)
  {
    && |pair| == 2 && pair[0] < |pts| && pair[1] < |pts|
    && Octant(pts[pair[0]].pos, c) == 1 && Octant(pts[pair[1]].pos, c) == 2
  }

  /** The first body opens slot 1 as a leaf; the second goes to slot 2 and
      leaves slot 1 alone. */
  lemma ExampleTurn(pts: seq<Body>, pair: seq<nat>, node: BNode, k: nat)
    requires k == 0 && LoopState(pts, pair, node, k)
    requires PairRoutes(pts, pair, node.center) && node.children[1].None?
    ensures InsertAll(pts, 1, pair, node, k).children[1] == Some(BLeaf([pair[0]]))
  {
    var n1 := InsertAllUnfold(pts, 1, pair, node, k);
    ExampleFirst(pts, pair[0], node, 1);
    assert n1.center == node.center;
    PairLastRoute(pts, pair, node.center, k + 1);
    InsertAllKeepsSlot(pts, 1, pair, n1, k + 1, 1);
  }

  /** The second body stays out of slot 1. */
  lemma PairLastRoute(pts: seq<Body>, pair: seq<nat>, c: Vec, k: nat)
    requires k == 1 && PairRoutes(pts, pair, c)
    ensures forall i | k <= i < |pair| :: pair[i] < |pts| && Octant(pts[pair[i]].pos, c) != 1
  {
  }

  /** A body arriving at a NULL slot opens it as a leaf of one body. */
  lemma ExampleFirst(pts: seq<Body>, j: nat, o: BNode, m: nat)
    requires j < |pts| && PositiveWeights(pts) && o.Oct? && Good(pts, o)
    requires Octant(pts[j].pos, o.center) == m && o.children[m].None?
    ensures OctInsert(pts, 1, o, j).children[m] == Some(BLeaf([j]))
  {
    var r := OctInsert(pts, 1, o, j);
    assert LeafAt(o.children[m]) + [j] == [j];
    assert !IsOct(r.children[m]);
  }
}
