/**
 The pointer-based octree of the `bhqt` namespace: `leafNode` and `octNode`
 as one datatype, the octant rule, the bodies a node holds, and the
 invariant that every `octNode` keeps about its children and its running
 aggregates. A NULL child pointer is `None`.
 */
module BhNode {
  import opened Geom
  import opened Sums

  datatype Option<T> = None | Some(value: T)

  /**
   `leafNode` holds its bodies in insertion order. `octNode` holds its split
   centre, eight child slots, the bounding cube of its bodies, their total
   weight, their weighted position sum (`accumPoints`) and the barycentre
   computed from the last two.
   */
  datatype BNode =
    | BLeaf(nodes: seq<nat>)
    | Oct(center: Vec, children: seq<Option<BNode>>, bbox: Cube, weight: real, accum: Vec, bary: Vec)

  /** Eight NULL child slots. */
  function NoChildren(): (ch: seq<Option<BNode>>)
    ensures |ch| == 8 && forall k | 0 <= k < 8 :: ch[k].None?
  {
    seq(8, _ => None)
  }

  /**
   The child slot of `p` below centre `c`: 2 for x, 1 for y and 4 for z when
   the coordinate is strictly greater than the centre's.
   */
  function Octant(p: Vec, c: Vec): (o: nat)
    ensures o < 8
  {
    (if p.x > c.x then 2 else 0) + (if p.y > c.y then 1 else 0) + (if p.z > c.z then 4 else 0)
  }

  /** Two points share a slot exactly when they lie on the same side of the
      centre on every axis; a point equal to the centre goes to slot 0. */
  lemma OctantSides(p: Vec, q: Vec, c: Vec)
    ensures Octant(p, c) == Octant(q, c) <==>
      (p.x > c.x <==> q.x > c.x) && (p.y > c.y <==> q.y > c.y) && (p.z > c.z <==> q.z > c.z)
    ensures Octant(c, c) == 0
  {
  }

  /** The bodies held below a node, leaves left to right. */
  function Points(n: BNode): seq<nat>
    decreases n
  {
    match n
    case BLeaf(ns) => ns
    case Oct(_, ch, _, _, _, _) => SlotsPoints(ch)
  }

  function SlotsPoints(ch: seq<Option<BNode>>): seq<nat>
    decreases ch
  {
    if |ch| == 0 then [] else SlotsPoints(ch[..|ch| - 1]) + SlotPoints(ch[|ch| - 1])
  }

  function SlotPoints(s: Option<BNode>): seq<nat>
    decreases s
  {
    match s
    case None => []
    case Some(n) => Points(n)
  }

  /** The bodies of the leaf a position is routed to; nothing when the slot on
      the way is NULL. */
  function Reach(n: BNode, p: Vec): seq<nat>
    decreases n
  {
    match n
    case BLeaf(ns) => ns
    case Oct(c, ch, _, _, _, _) =>
      var o := Octant(p, c);
      if o < |ch| && ch[o].Some? then Reach(ch[o].value, p) else []
  }

  function Height(n: BNode): nat
    decreases n
  {
    match n
    case BLeaf(_) => 0
    case Oct(_, ch, _, _, _, _) => 1 + SlotsHeight(ch)
  }

  function SlotsHeight(ch: seq<Option<BNode>>): (h: nat)
    ensures forall k | 0 <= k < |ch| :: SlotHeight(ch[k]) <= h
    decreases ch
  {
    if |ch| == 0 then 0
    else
      var a := SlotsHeight(ch[..|ch| - 1]);
      assert forall k | 0 <= k < |ch| - 1 :: ch[..|ch| - 1][k] == ch[k];
      var b := SlotHeight(ch[|ch| - 1]);
      if a < b then b else a
  }

  function SlotHeight(s: Option<BNode>): nat
    decreases s
  {
    match s
    case None => 0
    case Some(n) => Height(n)
  }

  /** Every body of `s` exists and lies in slot `o` of centre `c`. */
  predicate InOctant(pts: seq<Body>, s: seq<nat>, c: Vec, o: nat)
  {
    forall j | j in s :: j < |pts| && Octant(pts[j].pos, c) == o
  }

  /**
   The running aggregates of an `octNode` describe the bodies below it: the
   total weight, the weighted position sum, a well-formed cube holding every
   body, and, once a body has arrived, a positive weight and the barycentre
   `accum / weight`.
   */
  predicate Aggregates(pts: seq<Body>, n: BNode)
    requires n.Oct?
  {
    var ps := Points(n);
    && InRange(pts, ps)
    && n.weight == TotalWeight(pts, ps)
    && n.accum == Moment(pts, ps)
    && CubeWellFormed(n.bbox)
    && (forall j | j in ps :: CubeContains(n.bbox, pts[j].pos))
    && (|ps| > 0 ==> n.weight > 0.0 && n.bary == Div(n.accum, n.weight))
  }

  /**
   The invariant of an `octNode` subtree: eight slots, aggregates that match
   the bodies, and every present child non-empty, itself well formed, and
   holding only bodies of its own octant. A leaf only needs valid indices.
   */
  predicate Good(pts: seq<Body>, n: BNode)
    decreases n
  {
    match n
    case BLeaf(ns) => InRange(pts, ns)
    case Oct(c, ch, _, _, _, _) =>
      && |ch| == 8
      && Aggregates(pts, n)
      && forall k | 0 <= k < 8 :: SlotGood(pts, ch[k], c, k)
  }

  predicate SlotGood(pts: seq<Body>, s: Option<BNode>, c: Vec, k: nat)
    decreases s
  {
    match s
    case None => true
    case Some(m) => Good(pts, m) && |Points(m)| > 0 && InOctant(pts, Points(m), c, k)
  }

  // Lemmas about the bodies held in the child slots.

  /** Replacing one slot replaces its bodies in the multiset of the node. */
  lemma {:induction false} SlotsUpdate(ch: seq<Option<BNode>>, o: nat, x: Option<BNode>)
    requires o < |ch|
    ensures multiset(SlotsPoints(ch[o := x])) + multiset(SlotPoints(ch[o])) == multiset(SlotsPoints(ch)) + multiset(SlotPoints(x))
    decreases |ch|
  {
    var n := |ch| - 1;
    var ch' := ch[o := x];
    var a, a' := SlotsPoints(ch[..n]), SlotsPoints(ch'[..n]);
    assert SlotsPoints(ch') == a' + SlotPoints(ch'[n]);
    assert SlotsPoints(ch) == a + SlotPoints(ch[n]);
    if o == n {
      assert ch'[..n] == ch[..n];
      assert multiset(SlotsPoints(ch')) == multiset(a) + multiset(SlotPoints(x));
      assert multiset(SlotsPoints(ch)) == multiset(a) + multiset(SlotPoints(ch[n]));
    } else {
      assert ch'[..n] == ch[..n][o := x];
      SlotsUpdate(ch[..n], o, x);
      assert ch[..n][o] == ch[o];
      assert multiset(a') + multiset(SlotPoints(ch[o])) == multiset(a) + multiset(SlotPoints(x));
      assert ch'[n] == ch[n];
      var l, r := multiset(SlotsPoints(ch')) + multiset(SlotPoints(ch[o])), multiset(SlotsPoints(ch)) + multiset(SlotPoints(x));
      assert multiset(SlotsPoints(ch')) == multiset(a') + multiset(SlotPoints(ch[n]));
      assert multiset(SlotsPoints(ch)) == multiset(a) + multiset(SlotPoints(ch[n]));
      forall z ensures l[z] == r[z] {
        assert (multiset(a') + multiset(SlotPoints(ch[o])))[z] == (multiset(a) + multiset(SlotPoints(x)))[z];
      }
      assert l == r;
    }
  }

  lemma NoChildrenEmpty()
    ensures SlotsPoints(NoChildren()) == []
  {
    var ch := NoChildren();
    assert SlotsPoints(ch[..0]) == [];
    assert SlotsPoints(ch[..1]) == [] by { assert ch[..1][..0] == ch[..0]; }
    assert SlotsPoints(ch[..2]) == [] by { assert ch[..2][..1] == ch[..1]; }
    assert SlotsPoints(ch[..3]) == [] by { assert ch[..3][..2] == ch[..2]; }
    assert SlotsPoints(ch[..4]) == [] by { assert ch[..4][..3] == ch[..3]; }
    assert SlotsPoints(ch[..5]) == [] by { assert ch[..5][..4] == ch[..4]; }
    assert SlotsPoints(ch[..6]) == [] by { assert ch[..6][..5] == ch[..5]; }
    assert SlotsPoints(ch[..7]) == [] by { assert ch[..7][..6] == ch[..6]; }
    assert ch[..8] == ch;
  }

  lemma {:induction false} SlotsMember(ch: seq<Option<BNode>>, j: nat)
    requires j in SlotsPoints(ch)
    ensures exists k | 0 <= k < |ch| :: ch[k].Some? && j in Points(ch[k].value)
    decreases |ch|
  {
    var n := |ch| - 1;
    if j !in SlotPoints(ch[n]) {
      SlotsMember(ch[..n], j);
      var k :| 0 <= k < n && ch[..n][k].Some? && j in Points(ch[..n][k].value);
      assert ch[..n][k] == ch[k];
    }
  }

  lemma {:induction false} SlotsChild(ch: seq<Option<BNode>>, k: nat)
    requires k < |ch|
    ensures multiset(SlotPoints(ch[k])) <= multiset(SlotsPoints(ch))
    decreases |ch|
  {
    var n := |ch| - 1;
    assert SlotsPoints(ch) == SlotsPoints(ch[..n]) + SlotPoints(ch[n]);
    if k < n {
      SlotsChild(ch[..n], k);
      assert ch[..n][k] == ch[k];
    }
  }

  /** The leaf a position reaches holds only bodies of the node. */
  lemma {:induction false} ReachSub(n: BNode, p: Vec)
    ensures multiset(Reach(n, p)) <= multiset(Points(n))
    decreases n
  {
    match n
    case BLeaf(_) =>
    case Oct(c, ch, _, _, _, _) =>
      var o := Octant(p, c);
      if o < |ch| && ch[o].Some? {
        ReachSub(ch[o].value, p);
        SlotsChild(ch, o);
      }
  }

  /** Every body of the leaf a position reaches below an `octNode` lies in
      that position's octant of the node. */
  lemma ReachInOctant(pts: seq<Body>, n: BNode, p: Vec)
    requires n.Oct? && Good(pts, n)
    ensures InOctant(pts, Reach(n, p), n.center, Octant(p, n.center))
  {
    var o := Octant(p, n.center);
    if n.children[o].Some? {
      ReachSub(n.children[o].value, p);
      assert SlotGood(pts, n.children[o], n.center, o);
      forall j | j in Reach(n, p) ensures j < |pts| && Octant(pts[j].pos, n.center) == o {
        assert multiset(Reach(n, p))[j] > 0;
        assert j in Points(n.children[o].value);
      }
    }
  }

  /** In a well-formed tree every body is found in the leaf its own position
      reaches, so each body has exactly one leaf path. */
  lemma {:induction false} ReachContains(pts: seq<Body>, n: BNode, j: nat)
    requires Good(pts, n) && j in Points(n) && j < |pts|
    ensures j in Reach(n, pts[j].pos)
    decreases n
  {
    match n
    case BLeaf(_) =>
    case Oct(c, ch, _, _, _, _) =>
      SlotsMember(ch, j);
      var k :| 0 <= k < |ch| && ch[k].Some? && j in Points(ch[k].value);
      assert SlotGood(pts, ch[k], c, k);
      ReachContains(pts, ch[k].value, j);
  }
}
