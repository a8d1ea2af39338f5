/**
 The queries of the `bhqt` octree: the leaf loops `qumWeight` and
 `barycenter`, the force on a body (`forceForNode`) and the approximate
 position lookup (`getPoint`). The square root inside `dist3d` is the
 parameter `root`.
 */
module BhForce {
  import opened Geom
  import opened Sums
  import opened BhNode

  /** `leafNode::qumWeight`: the weights of the held bodies, summed in order. */
  method QumWeight(pts: seq<Body>, ns: seq<nat>) returns (w: real)
    requires InRange(pts, ns)
    ensures w == TotalWeight(pts, ns)
    ensures PositiveWeights(pts) && |ns| > 0 ==> w > 0.0
  {
    w := 0.0;
    var i := 0;
    while i < |ns|
      invariant i <= |ns| && w == TotalWeight(pts, ns[..i])
    {
      assert ns[..i + 1][..i] == ns[..i];
      assert ns[i] in ns;
      w := w + pts[ns[i]].weight;
      i := i + 1;
    }
    assert ns[..i] == ns;
    if PositiveWeights(pts) && |ns| > 0 {
      TotalWeightPositive(pts, ns);
    }
  }

  /**
   `leafNode::barycenter`: the weighted position sum divided by the total
   weight. The division needs a non-zero total, which positive weights give
   any non-empty leaf.
   */
  method Barycenter(pts: seq<Body>, ns: seq<nat>) returns (bc: Vec)
    requires InRange(pts, ns) && TotalWeight(pts, ns) != 0.0
    ensures Scale(bc, TotalWeight(pts, ns)) == Moment(pts, ns)
  {
    bc := Origin;
    var w := 0.0;
    var i := 0;
    while i < |ns|
      invariant i <= |ns| && w == TotalWeight(pts, ns[..i]) && bc == Moment(pts, ns[..i])
    {
      assert ns[i] in ns;
      TotalWeightSnoc(pts, ns[..i], ns[i]);
      assert ns[..i + 1] == ns[..i] + [ns[i]];
      w := w + pts[ns[i]].weight;
      bc := Add(bc, Scale(pts[ns[i]].pos, pts[ns[i]].weight));
      i := i + 1;
    }
    assert ns[..i] == ns;
    bc := Div(bc, w);
  }

  /** The barycentre of positively weighted bodies inside a cube lies inside
      the cube. */
  lemma BarycenterInCube(pts: seq<Body>, ns: seq<nat>, b: Cube, bc: Vec)
    requires PositiveWeights(pts) && InRange(pts, ns) && |ns| > 0
    requires forall j | j in ns :: CubeContains(b, pts[j].pos)
    requires Scale(bc, TotalWeight(pts, ns)) == Moment(pts, ns)
    ensures CubeContains(b, bc)
  {
    WeightedMeanBetweenCorners(pts, ns, Vec(b.left, b.bottom, b.back), Vec(b.right, b.top, b.front),
                               TotalWeight(pts, ns), bc);
  }

  /** The barycentre kept by a non-empty `octNode` lies in its cube. */
  lemma OctBaryInCube(pts: seq<Body>, n: BNode)
    requires PositiveWeights(pts) && n.Oct? && Good(pts, n) && |Points(n)| > 0
    ensures CubeContains(n.bbox, n.bary)
    ensures n.weight == TotalWeight(pts, Points(n)) && Scale(n.bary, n.weight) == Moment(pts, Points(n))
  {
    BarycenterInCube(pts, Points(n), n.bbox, n.bary);
  }

  /**
   One pair term: the unit vector from `p1` towards `p2` (the difference
   divided by the distance `d`), scaled by the weight `w2` and divided by
   `d * d + 1`.
   */
  function PairForce(p1: Vec, p2: Vec, w2: real, d: real): (f: Vec)
    requires d != 0.0
    ensures Scale(f, d * (d * d + 1.0)) == Scale(Sub(p2, p1), w2)
  {
    assert d * d >= 0.0;
    var unit := Div(Sub(p2, p1), d);
    var f := Div(Scale(unit, w2), d * d + 1.0);
    DivTwiceVec(Sub(p2, p1), w2, d, d * d + 1.0, unit, f);
    f
  }

  /** Dividing `a` by `d`, scaling by `w` and dividing by `e` is undone by
      multiplying by `d · e`. */
  lemma DivTwiceVec(a: Vec, w: real, d: real, e: real, u: Vec, g: Vec)
    requires Scale(u, d) == a && Scale(g, e) == Scale(u, w)
    ensures Scale(g, d * e) == Scale(a, w)
  {
    ScaleScale(g, e, d);
    ScaleScale(u, w, d);
    ScaleScale(u, d, w);
  }

  /** No other held body is at distance zero from body `q` (the pair term
      divides by the distance). */
  predicate Separated(pts: seq<Body>, root: real -> real, q: nat, s: seq<nat>)
    requires q < |pts| && InRange(pts, s)
  {
    forall j | j in s && j != q :: Dist3d(root, pts[q].pos, pts[j].pos) != 0.0
  }

  /** Bodies are separated from `q` in a concatenation exactly when they are
      in both parts. */
  lemma SeparatedConcat(pts: seq<Body>, root: real -> real, q: nat, a: seq<nat>, b: seq<nat>)
    requires q < |pts| && InRange(pts, a) && InRange(pts, b)
    ensures InRange(pts, a + b)
    ensures Separated(pts, root, q, a + b) <==> Separated(pts, root, q, a) && Separated(pts, root, q, b)
  {
    assert forall j | j in a :: j in a + b;
    assert forall j | j in b :: j in a + b;
  }

  /** Separation depends only on which bodies are present. */
  lemma SeparatedPerm(pts: seq<Body>, root: real -> real, q: nat, a: seq<nat>, b: seq<nat>)
    requires q < |pts| && InRange(pts, a) && multiset(a) == multiset(b)
    ensures InRange(pts, b)
    ensures Separated(pts, root, q, a) <==> Separated(pts, root, q, b)
  {
    forall j | j in b ensures j in a && j < |pts| {
      assert j in multiset(a);
    }
    forall j | j in a ensures j in b {
      assert j in multiset(b);
    }
  }

  /** The pull of body `j` on body `q`; nothing from `q` itself. */
  function Pull(pts: seq<Body>, root: real -> real, q: nat): nat -> Vec
    requires q < |pts|
  {
    (j: nat) =>
      if j < |pts| && j != q && Dist3d(root, pts[q].pos, pts[j].pos) != 0.0 then
        PairForce(pts[q].pos, pts[j].pos, pts[j].weight, Dist3d(root, pts[q].pos, pts[j].pos))
      else Origin
  }

  /** The exact reference: the summed pair terms of every other body of `s`. */
  function DirectForce(pts: seq<Body>, root: real -> real, s: seq<nat>, q: nat): Vec
    requires q < |pts|
  {
    VSum(Pull(pts, root, q), s)
  }

  /** The exact sum does not depend on the order of the bodies, and the body
      itself adds nothing to it. */
  lemma DirectForceOrderFree(pts: seq<Body>, root: real -> real, a: seq<nat>, b: seq<nat>, q: nat)
    requires q < |pts| && multiset(a) == multiset(b)
    ensures DirectForce(pts, root, a, q) == DirectForce(pts, root, b, q)
    ensures DirectForce(pts, root, a + [q], q) == DirectForce(pts, root, a, q)
  {
    VSumPerm(Pull(pts, root, q), a, b);
    assert (a + [q])[..|a + [q]| - 1] == a;
  }

  /**
   A force in the source is a vector of doubles. A pair term at distance
   zero divides zero by zero, and the resulting NaN survives every later
   addition; such a force is `None` here, and a sum with a `None` term is
   `None`.
   */
  function AddForce(f: Option<Vec>, g: Option<Vec>): (r: Option<Vec>)
    ensures r.Some? <==> f.Some? && g.Some?
    ensures r.Some? ==> r.value == Add(f.value, g.value)
  {
    if f.Some? && g.Some? then Some(Add(f.value, g.value)) else None
  }

  /**
   `leafNode::forceForNode`: every held body other than the query body (told
   apart by identity, not by position) contributes one pair term. The sum is
   finite exactly when no other held body is at distance zero.
   */
  function LeafForce(pts: seq<Body>, root: real -> real, ns: seq<nat>, q: nat): (f: Option<Vec>)
    requires q < |pts| && InRange(pts, ns)
    ensures f.Some? <==> Separated(pts, root, q, ns)
    ensures f.Some? ==> f.value == DirectForce(pts, root, ns, q)
    decreases |ns|
  {
    if |ns| == 0 then Some(Origin)
    else
      var ns', j := ns[..|ns| - 1], ns[|ns| - 1];
      assert ns == ns' + [j];
      assert j in ns;
      assert forall x | x in ns' :: x in ns;
      SeparatedConcat(pts, root, q, ns', [j]);
      var f := LeafForce(pts, root, ns', q);
      if j == q then f
      else
        var d := Dist3d(root, pts[q].pos, pts[j].pos);
        if d == 0.0 then None
        else AddForce(f, Some(PairForce(pts[q].pos, pts[j].pos, pts[j].weight, d)))
  }

  /** The opening test of `octNode::forceForNode`: distance to the
      barycentre over the largest cube extent, above `theta`. */
  predicate Far(pts: seq<Body>, root: real -> real, n: BNode, q: nat, theta: real)
    requires q < |pts|
  {
    n.Oct? && RatioAbove(Dist3d(root, pts[q].pos, n.bary), CubeMaxExtent(n.bbox), theta)
  }

  /** No `octNode` of the subtree passes the opening test. */
  predicate NeverFar(pts: seq<Body>, root: real -> real, n: BNode, q: nat, theta: real)
    requires q < |pts|
    decreases n
  {
    && !Far(pts, root, n, q, theta)
    && (n.Oct? ==> forall k | 0 <= k < |n.children| :: SlotNeverFar(pts, root, n.children[k], q, theta))
  }

  predicate SlotNeverFar(pts: seq<Body>, root: real -> real, s: Option<BNode>, q: nat, theta: real)
    requires q < |pts|
    decreases s
  {
    s.Some? ==> NeverFar(pts, root, s.value, q, theta)
  }

  /**
   `octNode::forceForNode`: a node that passes the opening test contributes
   one pair term with its total weight at its barycentre; otherwise the
   present children contribute in slot order. A leaf is the exact sum.
   With a non-negative `theta` the force is finite whenever the query body is
   at a distance other than zero from every body below; when no node is far
   enough it is finite exactly then, and is the exact sum.
   */
  function ForceForNode(pts: seq<Body>, root: real -> real, n: BNode, q: nat, theta: real): (f: Option<Vec>)
    requires q < |pts| && Good(pts, n) && InRange(pts, Points(n))
    ensures n.BLeaf? ==> (f.Some? <==> Separated(pts, root, q, n.nodes))
    ensures n.BLeaf? && f.Some? ==> f.value == DirectForce(pts, root, n.nodes, q)
    ensures Far(pts, root, n, q, theta) ==> (f.Some? <==> Dist3d(root, pts[q].pos, n.bary) != 0.0)
    ensures theta >= 0.0 && Separated(pts, root, q, Points(n)) ==> f.Some?
    ensures NeverFar(pts, root, n, q, theta) ==> (f.Some? <==> Separated(pts, root, q, Points(n)))
    ensures NeverFar(pts, root, n, q, theta) && f.Some? ==> f.value == DirectForce(pts, root, Points(n), q)
    decreases n
  {
    match n
    case BLeaf(ns) => LeafForce(pts, root, ns, q)
    case Oct(c, ch, bbox, w, _, bary) =>
      var dist := Dist3d(root, pts[q].pos, bary);
      if RatioAbove(dist, CubeMaxExtent(bbox), theta) then
        if dist == 0.0 then None else Some(PairForce(pts[q].pos, bary, w, dist))
      else
        SlotsForce(pts, root, ch, c, q, theta)
  }

  /** The child loop of `octNode::forceForNode`, slots in order. */
  function SlotsForce(pts: seq<Body>, root: real -> real, ch: seq<Option<BNode>>, c: Vec, q: nat, theta: real): (f: Option<Vec>)
    requires q < |pts|
    requires forall k | 0 <= k < |ch| :: SlotGood(pts, ch[k], c, k)
    requires InRange(pts, SlotsPoints(ch))
    ensures theta >= 0.0 && Separated(pts, root, q, SlotsPoints(ch)) ==> f.Some?
    ensures (forall k | 0 <= k < |ch| :: SlotNeverFar(pts, root, ch[k], q, theta)) ==>
      && (f.Some? <==> Separated(pts, root, q, SlotsPoints(ch)))
      && (f.Some? ==> f.value == DirectForce(pts, root, SlotsPoints(ch), q))
    decreases ch
  {
    if |ch| == 0 then Some(Origin)
    else
      var ch', s := ch[..|ch| - 1], ch[|ch| - 1];
      assert forall k | 0 <= k < |ch'| :: ch'[k] == ch[k];
      assert SlotsPoints(ch) == SlotsPoints(ch') + SlotPoints(s);
      assert forall j | j in SlotsPoints(ch') :: j in SlotsPoints(ch);
      assert forall j | j in SlotPoints(s) :: j in SlotsPoints(ch);
      var f, g := SlotsForce(pts, root, ch', c, q, theta), SlotForce(pts, root, s, c, |ch| - 1, q, theta);
      SlotsJoin(pts, root, ch, ch', q, theta, f, g);
      AddForce(f, g)
  }

  /** The force of all slots but the last, added to the last slot's force,
      is the force of all slots. */
  lemma SlotsJoin(pts: seq<Body>, root: real -> real, ch: seq<Option<BNode>>, ch': seq<Option<BNode>>, q: nat, theta: real, f: Option<Vec>, g: Option<Vec>)
    requires q < |pts| && |ch| > 0 && ch' == ch[..|ch| - 1]
    requires InRange(pts, SlotsPoints(ch')) && InRange(pts, SlotPoints(ch[|ch| - 1]))
    requires SlotsPoints(ch) == SlotsPoints(ch') + SlotPoints(ch[|ch| - 1])
    requires theta >= 0.0 && Separated(pts, root, q, SlotsPoints(ch')) ==> f.Some?
    requires (forall k | 0 <= k < |ch'| :: SlotNeverFar(pts, root, ch'[k], q, theta)) ==>
      && (f.Some? <==> Separated(pts, root, q, SlotsPoints(ch')))
      && (f.Some? ==> f.value == DirectForce(pts, root, SlotsPoints(ch'), q))
    requires theta >= 0.0 && Separated(pts, root, q, SlotPoints(ch[|ch| - 1])) ==> g.Some?
    requires SlotNeverFar(pts, root, ch[|ch| - 1], q, theta) ==>
      && (g.Some? <==> Separated(pts, root, q, SlotPoints(ch[|ch| - 1])))
      && (g.Some? ==> g.value == DirectForce(pts, root, SlotPoints(ch[|ch| - 1]), q))
    ensures InRange(pts, SlotsPoints(ch))
    ensures var r := AddForce(f, g);
      && (theta >= 0.0 && Separated(pts, root, q, SlotsPoints(ch)) ==> r.Some?)
      && ((forall k | 0 <= k < |ch| :: SlotNeverFar(pts, root, ch[k], q, theta)) ==>
            && (r.Some? <==> Separated(pts, root, q, SlotsPoints(ch)))
            && (r.Some? ==> r.value == DirectForce(pts, root, SlotsPoints(ch), q)))
  {
    var a, b := SlotsPoints(ch'), SlotPoints(ch[|ch| - 1]);
    assert forall k | 0 <= k < |ch'| :: ch'[k] == ch[k];
    SeparatedConcat(pts, root, q, a, b);
    VSumConcat(Pull(pts, root, q), a, b);
  }

  /** One child slot: nothing for a NULL slot. */
  function SlotForce(pts: seq<Body>, root: real -> real, s: Option<BNode>, c: Vec, k: nat, q: nat, theta: real): (f: Option<Vec>)
    requires q < |pts| && SlotGood(pts, s, c, k) && InRange(pts, SlotPoints(s))
    ensures s.None? ==> f == Some(Origin)
    ensures theta >= 0.0 && Separated(pts, root, q, SlotPoints(s)) ==> f.Some?
    ensures SlotNeverFar(pts, root, s, q, theta) ==>
      && (f.Some? <==> Separated(pts, root, q, SlotPoints(s)))
      && (f.Some? ==> f.value == DirectForce(pts, root, SlotPoints(s), q))
    decreases s
  {
    match s
    case None => Some(Origin)
    case Some(n) => ForceForNode(pts, root, n, q, theta)
  }

  /** A node that passes the opening test with a non-negative `theta`
      contributes one finite pair term with the total weight of its bodies at
      their weighted mean position. */
  lemma FarNodeIsAggregate(pts: seq<Body>, root: real -> real, n: BNode, q: nat, theta: real)
    requires q < |pts| && theta >= 0.0 && Good(pts, n) && InRange(pts, Points(n))
    requires Far(pts, root, n, q, theta) && |Points(n)| > 0
    ensures var w, d := TotalWeight(pts, Points(n)), Dist3d(root, pts[q].pos, n.bary);
      && d != 0.0
      && Scale(n.bary, w) == Moment(pts, Points(n))
      && ForceForNode(pts, root, n, q, theta) == Some(PairForce(pts[q].pos, n.bary, w, d))
  {
    RatioAboveNumeratorNonZero(Dist3d(root, pts[q].pos, n.bary), CubeMaxExtent(n.bbox), theta);
  }

  /** The bodies of a tree built from `xs`, when no node passes the opening
      test, pull on `q` exactly as the direct sum over `xs` does; the force
      is finite exactly when no other body of `xs` is at distance zero. */
  lemma ExactWhenNeverFar(pts: seq<Body>, root: real -> real, n: BNode, xs: seq<nat>, q: nat, theta: real)
    requires q < |pts| && Good(pts, n) && InRange(pts, Points(n)) && InRange(pts, xs)
    requires multiset(Points(n)) == multiset(xs)
    ensures var f := ForceForNode(pts, root, n, q, theta);
      NeverFar(pts, root, n, q, theta) ==>
        && (f.Some? <==> Separated(pts, root, q, xs))
        && (f.Some? ==> f.value == DirectForce(pts, root, xs, q))
  {
    DirectForceOrderFree(pts, root, Points(n), xs, q);
    SeparatedPerm(pts, root, q, Points(n), xs);
  }

  /** The `octNode`s on the path of `p`, root first. */
  function PathNodes(n: BNode, p: Vec): (path: seq<BNode>)
    ensures forall i | 0 <= i < |path| :: path[i].Oct?
    ensures n.Oct? <==> |path| > 0
    decreases n
  {
    match n
    case BLeaf(_) => []
    case Oct(c, ch, _, _, _, _) =>
      var o := Octant(p, c);
      [n] + (if o < |ch| && ch[o].Some? then PathNodes(ch[o].value, p) else [])
  }

  /** The path of `p` ends in a leaf rather than in a NULL slot. */
  predicate PathToLeaf(n: BNode, p: Vec)
    decreases n
  {
    match n
    case BLeaf(_) => true
    case Oct(c, ch, _, _, _, _) =>
      var o := Octant(p, c);
      o < |ch| && ch[o].Some? && PathToLeaf(ch[o].value, p)
  }

  /** The test of `octNode::getPoint`: the largest cube extent over the
      distance from body `q` to the barycentre, below `theta`. */
  predicate Stops(pts: seq<Body>, root: real -> real, m: BNode, q: nat, theta: real)
    requires q < |pts|
  {
    m.Oct? && RatioBelow(CubeMaxExtent(m.bbox), Dist3d(root, pts[q].pos, m.bary), theta)
  }

  /** The position of the first node of `path` that passes the test, or
      `|path|` when none does. */
  function FirstStop(pts: seq<Body>, root: real -> real, path: seq<BNode>, q: nat, theta: real): (i: nat)
    requires q < |pts|
    ensures i <= |path|
    ensures forall k | 0 <= k < i :: !Stops(pts, root, path[k], q, theta)
    ensures i < |path| ==> Stops(pts, root, path[i], q, theta)
    decreases |path|
  {
    if |path| == 0 then 0
    else if Stops(pts, root, path[0], q, theta) then 0
    else
      var i := FirstStop(pts, root, path[1..], q, theta);
      assert forall k | 1 <= k < i + 1 :: path[k] == path[1..][k - 1];
      1 + i
  }

  /**
   `octNode::getPoint`: the barycentre of the first node on the path of `p`
   whose largest extent over the distance to body `q` is below `theta`; `p`
   itself when the path reaches a leaf without such a node. Following a NULL
   slot is undefined behaviour in the source and `None` here.
   */
  function GetPoint(pts: seq<Body>, root: real -> real, n: BNode, q: nat, p: Vec, theta: real): (r: Option<Vec>)
    requires q < |pts|
    ensures var path := PathNodes(n, p);
      var i := FirstStop(pts, root, path, q, theta);
      && (i < |path| ==> r == Some(path[i].bary))
      && (i == |path| ==> (r.Some? <==> PathToLeaf(n, p)) && (r.Some? ==> r.value == p))
    ensures PathToLeaf(n, p) ==> r.Some?
    decreases n
  {
    match n
    case BLeaf(_) => Some(p)
    case Oct(c, ch, bbox, _, _, bary) =>
      var path := PathNodes(n, p);
      assert path[0] == n;
      if RatioBelow(CubeMaxExtent(bbox), Dist3d(root, pts[q].pos, bary), theta) then Some(bary)
      else
        var o := Octant(p, c);
        if o < |ch| && ch[o].Some? then
          assert path[1..] == PathNodes(ch[o].value, p);
          GetPoint(pts, root, ch[o].value, q, p, theta)
        else
          assert path[1..] == [];
          None
  }

  /** The path of a body's own position never meets a NULL slot, so looking
      up the position of any inserted body is defined. */
  lemma {:induction false} BodyPathToLeaf(pts: seq<Body>, n: BNode, j: nat)
    requires Good(pts, n) && j in Points(n) && j < |pts|
    ensures PathToLeaf(n, pts[j].pos)
    decreases n
  {
    match n
    case BLeaf(_) =>
    case Oct(c, ch, _, _, _, _) =>
      SlotsMember(ch, j);
      var k :| 0 <= k < |ch| && ch[k].Some? && j in Points(ch[k].value);
      assert SlotGood(pts, ch[k], c, k);
      BodyPathToLeaf(pts, ch[k].value, j);
  }

  lemma GetPointAtBody(pts: seq<Body>, root: real -> real, n: BNode, q: nat, j: nat, theta: real)
    requires q < |pts| && Good(pts, n) && j in Points(n) && j < |pts|
    ensures GetPoint(pts, root, n, q, pts[j].pos, theta).Some?
  {
    BodyPathToLeaf(pts, n, j);
  }
}
