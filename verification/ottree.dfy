/**
 The octree of `otNode` (octTree.h), built sequentially. A leaf holds
 body indices; once it holds `threshold` of them it becomes an internal
 node whose split centre is the mean of those bodies, with eight fresh
 empty leaves, and every held body is inserted again from that node.
 */
module OtTree {
  import opened Geom
  import opened Sums

  datatype Tree = Leaf(nodes: seq<nat>) | Inner(center: Vec, children: seq<Tree>)

  /** `glm::lessThan(position, center)` weighted 2 (x), 1 (y), 4 (z). */
  function Octant(p: Vec, c: Vec): (o: nat)
    ensures o < 8
  {
    (if p.x < c.x then 2 else 0) + (if p.y < c.y then 1 else 0) + (if p.z < c.z then 4 else 0)
  }

  /** Two octant indices agree exactly when all three comparisons agree. */
  lemma OctantInjective(p: Vec, c: Vec, q: Vec, d: Vec)
    ensures Octant(p, c) == Octant(q, d) <==>
      ((p.x < c.x) == (q.x < d.x) && (p.y < c.y) == (q.y < d.y) && (p.z < c.z) == (q.z < d.z))
  {
  }

  /** The eight fresh empty leaves of a node that has just split. */
  function Empties(): (ch: seq<Tree>)
    ensures |ch| == 8 && forall k | 0 <= k < 8 :: ch[k] == Leaf([])
  {
    seq(8, _ => Leaf([]))
  }

  /** The bodies of a subtree, leaf by leaf in child order. */
  function Points(t: Tree): seq<nat>
    decreases t
  {
    match t
    case Leaf(ns) => ns
    case Inner(_, ch) => PointsOf(ch)
  }

  function PointsOf(ch: seq<Tree>): seq<nat>
    decreases ch
  {
    if |ch| == 0 then [] else PointsOf(ch[..|ch| - 1]) + Points(ch[|ch| - 1])
  }

  /** The contents of the leaf reached from `t` by following the octant
      indices of `p`. */
  function Reach(t: Tree, p: Vec): seq<nat>
    decreases t
  {
    match t
    case Leaf(ns) => ns
    case Inner(c, ch) => if Octant(p, c) < |ch| then Reach(ch[Octant(p, c)], p) else []
  }

  function Height(t: Tree): nat
    decreases t
  {
    match t
    case Leaf(_) => 0
    case Inner(_, ch) => 1 + MaxHeight(ch)
  }

  function MaxHeight(ch: seq<Tree>): (h: nat)
    ensures forall k | 0 <= k < |ch| :: Height(ch[k]) <= h
    decreases ch
  {
    if |ch| == 0 then 0
    else
      var a := MaxHeight(ch[..|ch| - 1]);
      var b := Height(ch[|ch| - 1]);
      assert forall k | 0 <= k < |ch| - 1 :: ch[k] == ch[..|ch| - 1][k];
      if a < b then b else a
  }

  /**
   The shape every tree reachable by insertion keeps: internal nodes have
   exactly eight children, and every leaf holds fewer than `threshold`
   valid body indices.
   */
  predicate Valid(pts: seq<Body>, threshold: nat, t: Tree)
    decreases t
  {
    match t
    case Leaf(ns) => |ns| < threshold && InRange(pts, ns)
    case Inner(_, ch) => |ch| == 8 && forall k | 0 <= k < 8 :: Valid(pts, threshold, ch[k])
  }

  /** Every internal node has at least one body below it. */
  predicate Populated(t: Tree)
    decreases t
  {
    match t
    case Leaf(_) => true
    case Inner(_, ch) => |PointsOf(ch)| > 0 && forall k | 0 <= k < |ch| :: Populated(ch[k])
  }

  /** Every body of `s` lies in octant `o` of centre `c`. */
  predicate InOctant(pts: seq<Body>, s: seq<nat>, c: Vec, o: nat)
  {
    forall j | j in s :: j < |pts| && Octant(pts[j].pos, c) == o
  }

  /** Every body below child `k` of a node lies in octant `k` of that node's
      centre, at every level. */
  predicate Routed(pts: seq<Body>, t: Tree)
    decreases t
  {
    match t
    case Leaf(_) => true
    case Inner(c, ch) => forall k | 0 <= k < |ch| :: InOctant(pts, Points(ch[k]), c, k) && Routed(pts, ch[k])
  }

  /**
   The leaf that body `i` reaches may split only if it then holds bodies at
   two different positions; a leaf of coincident bodies would route them all
   to one child and split again without end.
   */
  predicate SplitSafe(pts: seq<Body>, threshold: nat, t: Tree, i: nat)
    requires i < |pts|
  {
    var ns := Reach(t, pts[i].pos);
    |ns| + 1 < threshold || exists j | j in ns && j < |pts| :: pts[j].pos != pts[i].pos
  }

  /** The indices of `s` in octant `o` of centre `c`, in order. */
  function Sel(pts: seq<Body>, s: seq<nat>, c: Vec, o: nat): (r: seq<nat>)
    requires InRange(pts, s)
    ensures |r| <= |s|
    ensures forall j | j in r :: j in s && Octant(pts[j].pos, c) == o
    ensures |r| == |s| ==> forall j | j in s :: Octant(pts[j].pos, c) == o
    ensures forall j | j in s && Octant(pts[j].pos, c) == o :: j in r
    decreases |s|
  {
    if |s| == 0 then []
    else
      var s' := s[..|s| - 1];
      var j := s[|s| - 1];
      assert s == s' + [j];
      assert j in s;
      assert forall x | x in s' :: x in s;
      var r' := Sel(pts, s', c, o);
      if Octant(pts[j].pos, c) == o then r' + [j] else r'
  }

  /** The eight children obtained by re-inserting `s` into empty leaves
      without any further split. */
  function Distribute(pts: seq<Body>, s: seq<nat>, c: Vec): (ch: seq<Tree>)
    requires InRange(pts, s)
    ensures |ch| == 8
    ensures forall o | 0 <= o < 8 :: ch[o] == Leaf(Sel(pts, s, c, o))
  {
    seq(8, o requires 0 <= o < 8 => Leaf(Sel(pts, s, c, o)))
  }

  /**
   `otNode::insert`, sequential. At an internal node the body goes to the
   child of its octant. At a leaf it is appended; when the leaf then holds
   `threshold` bodies the leaf becomes an internal node centred on their
   mean with eight empty leaves, and every held body is inserted again.
   */
  function Insert(pts: seq<Body>, threshold: nat, t: Tree, i: nat): (r: Tree)
    requires i < |pts| && Valid(pts, threshold, t) && SplitSafe(pts, threshold, t, i)
    ensures Valid(pts, threshold, r)
    ensures multiset(Points(r)) == multiset(Points(t)) + multiset{i}
    ensures Populated(t) ==> Populated(r)
    ensures t.Inner? ==>
      && r.Inner? && r.center == t.center && |r.children| == 8
      && (forall k | 0 <= k < 8 && k != Octant(pts[i].pos, t.center) :: r.children[k] == t.children[k])
      && (var o := Octant(pts[i].pos, t.center);
          t.children[o].Leaf? && |t.children[o].nodes| + 1 < threshold ==> r.children[o] == Leaf(t.children[o].nodes + [i]))
    ensures t.Leaf? && |t.nodes| + 1 < threshold ==> r == Leaf(t.nodes + [i])
    ensures t.Leaf? && |t.nodes| + 1 >= threshold ==>
      r == Inner(Mean(pts, t.nodes + [i]), Distribute(pts, t.nodes + [i], Mean(pts, t.nodes + [i])))
    decreases |Reach(t, pts[i].pos)| + 1, 0, Height(t)
  {
    match t
    case Inner(c, ch) =>
      var o := Octant(pts[i].pos, c);
      var r' := Insert(pts, threshold, ch[o], i);
      InnerStep(pts, threshold, c, ch, o, r', i);
      Inner(c, ch[o := r'])
    case Leaf(ns) =>
      var ns' := ns + [i];
      if |ns'| >= threshold then
        var c := Mean(pts, ns');
        SplitPrepared(pts, threshold, ns, i);
        var r := ReinsertAll(pts, threshold, ns', c, Inner(c, Empties()), 0);
        SplitValid(pts, threshold, ns', c, r);
        r
      else
        assert InRange(pts, ns') by { assert forall j | j in ns' :: j in ns || j == i; }
        Leaf(ns')
  }

  /** The re-insertion loop of a split: inserts `ns[k..]` into `node`. */
  function ReinsertAll(pts: seq<Body>, threshold: nat, ns: seq<nat>, c: Vec, node: Tree, k: nat): (r: Tree)
    requires InRange(pts, ns) && |ns| == threshold && k <= |ns| && InRange(pts, ns[..k])
    requires forall o | 0 <= o < 8 :: |Sel(pts, ns, c, o)| < |ns|
    requires node == Inner(c, Distribute(pts, ns[..k], c))
    ensures r == Inner(c, Distribute(pts, ns, c))
    ensures multiset(Points(r)) == multiset(Points(node)) + multiset(ns[k..])
    decreases |ns| - 1, 1, |ns| - k, 1
  {
    if k == |ns| then
      assert ns[..k] == ns;
      node
    else
      var next := Reinsert(pts, threshold, ns, c, node, k);
      DropOne(ns, k);
      ReinsertAll(pts, threshold, ns, c, next, k + 1)
  }

  /** One turn of the re-insertion loop: the `k`-th body lands in the leaf
      of its octant, which stays below the threshold. */
  function Reinsert(pts: seq<Body>, threshold: nat, ns: seq<nat>, c: Vec, node: Tree, k: nat): (r: Tree)
    requires InRange(pts, ns) && |ns| == threshold && k < |ns| && InRange(pts, ns[..k])
    requires forall o | 0 <= o < 8 :: |Sel(pts, ns, c, o)| < |ns|
    requires node == Inner(c, Distribute(pts, ns[..k], c))
    ensures InRange(pts, ns[..k + 1]) && r == Inner(c, Distribute(pts, ns[..k + 1], c))
    ensures multiset(Points(r)) == multiset(Points(node)) + multiset{ns[k]}
    decreases |ns| - 1, 1, |ns| - k, 0
  {
    var j := ns[k];
    DistributeStep(pts, threshold, ns, c, k);
    var next := Insert(pts, threshold, node, j);
    var d := Distribute(pts, ns[..k], c);
    var o := Octant(pts[j].pos, c);
    assert next.children == d[o := Leaf(Sel(pts, ns[..k], c, o) + [j])];
    next
  }

  // Lemmas used by the insertion functions.

  lemma DropOne(s: seq<nat>, k: nat)
    requires k < |s|
    ensures multiset(s[k..]) == multiset{s[k]} + multiset(s[k + 1..])
  {
    assert s[k..] == [s[k]] + s[k + 1..];
  }

  lemma {:induction false} PointsOfUpdate(ch: seq<Tree>, o: nat, x: Tree)
    requires o < |ch|
    ensures multiset(PointsOf(ch[o := x])) + multiset(Points(ch[o])) == multiset(PointsOf(ch)) + multiset(Points(x))
    decreases |ch|
  {
    var n := |ch| - 1;
    var ch' := ch[o := x];
    var a, a' := PointsOf(ch[..n]), PointsOf(ch'[..n]);
    assert PointsOf(ch') == a' + Points(ch'[n]);
    assert PointsOf(ch) == a + Points(ch[n]);
    if o == n {
      assert ch'[..n] == ch[..n];
      assert multiset(PointsOf(ch')) == multiset(a) + multiset(Points(x));
      assert multiset(PointsOf(ch)) == multiset(a) + multiset(Points(ch[n]));
    } else {
      assert ch'[..n] == ch[..n][o := x];
      PointsOfUpdate(ch[..n], o, x);
      assert multiset(PointsOf(ch[..n][o := x])) + multiset(Points(ch[..n][o])) == multiset(PointsOf(ch[..n])) + multiset(Points(x));
      assert ch[..n][o] == ch[o];
      assert PointsOf(ch[..n][o := x]) == a';
      assert multiset(a') + multiset(Points(ch[o])) == multiset(a) + multiset(Points(x));
      assert ch'[n] == ch[n];
      var l, r := multiset(PointsOf(ch')) + multiset(Points(ch[o])), multiset(PointsOf(ch)) + multiset(Points(x));
      assert multiset(PointsOf(ch')) == multiset(a') + multiset(Points(ch[n]));
      assert multiset(PointsOf(ch)) == multiset(a) + multiset(Points(ch[n]));
      forall z ensures l[z] == r[z] {
        assert (multiset(a') + multiset(Points(ch[o])))[z] == (multiset(a) + multiset(Points(x)))[z];
      }
      assert l == r;
    }
  }

  lemma PointsOfEmptyLeaves(ch: seq<Tree>)
    requires forall k | 0 <= k < |ch| :: ch[k] == Leaf([])
    ensures PointsOf(ch) == []
    decreases |ch|
  {
    if |ch| > 0 {
      PointsOfEmptyLeaves(ch[..|ch| - 1]);
    }
  }

  lemma DistributeEmpty(pts: seq<Body>, c: Vec)
    ensures Distribute(pts, [], c) == Empties()
  {
    var d := Distribute(pts, [], c);
    assert forall o | 0 <= o < 8 :: d[o] == Empties()[o];
  }

  /** The routing step at an internal node keeps the tree valid and adds the
      body to the node's multiset of points. */
  lemma InnerStep(pts: seq<Body>, threshold: nat, c: Vec, ch: seq<Tree>, o: nat, x: Tree, i: nat)
    requires Valid(pts, threshold, Inner(c, ch)) && o < 8
    requires Valid(pts, threshold, x)
    requires multiset(Points(x)) == multiset(Points(ch[o])) + multiset{i}
    requires Populated(ch[o]) ==> Populated(x)
    ensures Valid(pts, threshold, Inner(c, ch[o := x]))
    ensures multiset(Points(Inner(c, ch[o := x]))) == multiset(Points(Inner(c, ch))) + multiset{i}
    ensures Populated(Inner(c, ch)) ==> Populated(Inner(c, ch[o := x]))
  {
    PointsOfReplace(ch, o, x, i);
    assert i in multiset(PointsOf(ch[o := x]));
  }

  /** Putting into child `o` a subtree with the child's old bodies plus `i`
      adds exactly `i` to the node. */
  lemma PointsOfReplace(ch: seq<Tree>, o: nat, x: Tree, i: nat)
    requires o < |ch|
    requires multiset(Points(x)) == multiset(Points(ch[o])) + multiset{i}
    ensures multiset(PointsOf(ch[o := x])) == multiset(PointsOf(ch)) + multiset{i}
  {
    PointsOfUpdate(ch, o, x);
    var m, m' := multiset(PointsOf(ch)), multiset(PointsOf(ch[o := x]));
    forall z ensures m'[z] == (m + multiset{i})[z] {
      assert (m' + multiset(Points(ch[o])))[z] == (m + multiset(Points(x)))[z];
    }
  }

  /** The facts the split of a full leaf needs before re-insertion starts. */
  lemma SplitPrepared(pts: seq<Body>, threshold: nat, ns: seq<nat>, i: nat)
    requires i < |pts| && Valid(pts, threshold, Leaf(ns)) && SplitSafe(pts, threshold, Leaf(ns), i)
    requires |ns| + 1 >= threshold
    ensures InRange(pts, ns + [i]) && |ns + [i]| == threshold
    ensures (ns + [i])[..0] == []
    ensures forall o | 0 <= o < 8 :: |Sel(pts, ns + [i], Mean(pts, ns + [i]), o)| < |ns + [i]|
    ensures forall c :: Distribute(pts, [], c) == Empties()
    ensures forall c :: Points(Inner(c, Empties())) == []
  {
    var ns' := ns + [i];
    assert forall j | j in ns' :: j in ns || j == i;
    var j :| j in ns && j < |pts| && pts[j].pos != pts[i].pos;
    assert j in ns';
    SplitSpreads(pts, ns', i);
    forall c ensures Distribute(pts, [], c) == Empties() {
      DistributeEmpty(pts, c);
    }
    PointsOfEmptyLeaves(Empties());
  }

  /** The distributed node that a split produces is valid and populated. */
  lemma SplitValid(pts: seq<Body>, threshold: nat, ns: seq<nat>, c: Vec, r: Tree)
    requires InRange(pts, ns) && |ns| == threshold && |ns| > 0
    requires forall o | 0 <= o < 8 :: |Sel(pts, ns, c, o)| < |ns|
    requires r == Inner(c, Distribute(pts, ns, c))
    requires multiset(Points(r)) == multiset(ns)
    ensures Valid(pts, threshold, r) && Populated(r)
  {
    assert ns[0] in multiset(Points(r));
  }

  /** A leaf of bodies that are not all at one position does not send them
      all to one child of its mean. */
  lemma SplitSpreads(pts: seq<Body>, ns: seq<nat>, i: nat)
    requires InRange(pts, ns) && |ns| > 0 && i in ns
    requires exists j | j in ns && j < |pts| :: pts[j].pos != pts[i].pos
    ensures forall o | 0 <= o < 8 :: |Sel(pts, ns, Mean(pts, ns), o)| < |ns|
  {
    var c := Mean(pts, ns);
    forall o | 0 <= o < 8 ensures |Sel(pts, ns, c, o)| < |ns| {
      if |Sel(pts, ns, c, o)| == |ns| {
        assert forall j | j in ns :: Octant(pts[j].pos, c) == o;
        forall j | j in ns
          ensures (pts[j].pos.x < c.x) == (pts[i].pos.x < c.x)
          ensures (pts[j].pos.y < c.y) == (pts[i].pos.y < c.y)
          ensures (pts[j].pos.z < c.z) == (pts[i].pos.z < c.z)
        {
          OctantInjective(pts[j].pos, c, pts[i].pos, c);
        }
        OneSideOfMeanCoincident(pts, ns);
        assert false;
      }
    }
  }

  lemma {:induction false} SelPrefix(pts: seq<Body>, s: seq<nat>, c: Vec, o: nat, m: nat)
    requires InRange(pts, s) && m <= |s|
    ensures InRange(pts, s[..m])
    ensures |Sel(pts, s[..m], c, o)| <= |Sel(pts, s, c, o)|
    decreases |s|
  {
    assert forall j | j in s[..m] :: j in s;
    if m < |s| {
      var s' := s[..|s| - 1];
      assert forall j | j in s' :: j in s;
      assert s'[..m] == s[..m];
      SelPrefix(pts, s', c, o, m);
      assert |Sel(pts, s', c, o)| <= |Sel(pts, s, c, o)|;
    } else {
      assert s[..m] == s;
    }
  }

  lemma SelSnoc(pts: seq<Body>, s: seq<nat>, j: nat, c: Vec, o: nat)
    requires InRange(pts, s + [j]) && j < |pts|
    ensures InRange(pts, s)
    ensures Sel(pts, s + [j], c, o) == Sel(pts, s, c, o) + (if Octant(pts[j].pos, c) == o then [j] else [])
  {
    assert (s + [j])[..|s|] == s;
    assert forall x | x in s :: x in s + [j];
  }

  /** One step of the re-insertion loop: the tree before the step is valid,
      the body's leaf has room, and the result is the next distribution. */
  lemma DistributeStep(pts: seq<Body>, threshold: nat, ns: seq<nat>, c: Vec, k: nat)
    requires InRange(pts, ns) && |ns| == threshold && k < |ns|
    requires forall o | 0 <= o < 8 :: |Sel(pts, ns, c, o)| < |ns|
    ensures InRange(pts, ns[..k]) && InRange(pts, ns[..k + 1])
    ensures ns[k] < |pts|
    ensures Valid(pts, threshold, Inner(c, Distribute(pts, ns[..k], c)))
    ensures |Sel(pts, ns[..k], c, Octant(pts[ns[k]].pos, c))| + 1 < threshold
    ensures Reach(Inner(c, Distribute(pts, ns[..k], c)), pts[ns[k]].pos) == Sel(pts, ns[..k], c, Octant(pts[ns[k]].pos, c))
    ensures SplitSafe(pts, threshold, Inner(c, Distribute(pts, ns[..k], c)), ns[k])
    ensures forall o | 0 <= o < 8 ::
      Sel(pts, ns[..k + 1], c, o) == Sel(pts, ns[..k], c, o) + (if Octant(pts[ns[k]].pos, c) == o then [ns[k]] else [])
    ensures Inner(c, Distribute(pts, ns[..k], c)[Octant(pts[ns[k]].pos, c) :=
              Leaf(Sel(pts, ns[..k], c, Octant(pts[ns[k]].pos, c)) + [ns[k]])])
            == Inner(c, Distribute(pts, ns[..k + 1], c))
  {
    var j := ns[k];
    assert j in ns;
    var oj := Octant(pts[j].pos, c);
    assert ns[..k + 1] == ns[..k] + [j];
    SelPrefix(pts, ns, c, oj, k + 1);
    SelPrefix(pts, ns, c, oj, k);
    forall o | 0 <= o < 8
      ensures Sel(pts, ns[..k + 1], c, o) == Sel(pts, ns[..k], c, o) + (if oj == o then [j] else [])
      ensures |Sel(pts, ns[..k], c, o)| < threshold
    {
      SelSnoc(pts, ns[..k], j, c, o);
      SelPrefix(pts, ns, c, o, k + 1);
    }
    var d := Distribute(pts, ns[..k], c);
    assert forall o | 0 <= o < 8 :: Valid(pts, threshold, d[o]);
    var d' := Distribute(pts, ns[..k + 1], c);
    var e := d[oj := Leaf(Sel(pts, ns[..k], c, oj) + [j])];
    assert forall o | 0 <= o < 8 :: e[o] == d'[o];
    assert e == d';
  }

  // Where the bodies are after insertion.

  lemma {:induction false} PointsOfMember(ch: seq<Tree>, j: nat)
    requires j in PointsOf(ch)
    ensures exists k | 0 <= k < |ch| :: j in Points(ch[k])
    decreases |ch|
  {
    var n := |ch| - 1;
    if j !in Points(ch[n]) {
      PointsOfMember(ch[..n], j);
      var k :| 0 <= k < n && j in Points(ch[..n][k]);
      assert ch[..n][k] == ch[k];
    }
  }

  lemma {:induction false} PointsOfChild(ch: seq<Tree>, k: nat)
    requires k < |ch|
    ensures multiset(Points(ch[k])) <= multiset(PointsOf(ch))
    decreases |ch|
  {
    var n := |ch| - 1;
    assert PointsOf(ch) == PointsOf(ch[..n]) + Points(ch[n]);
    if k < n {
      PointsOfChild(ch[..n], k);
      assert ch[..n][k] == ch[k];
    }
  }

  /** The leaf a position reaches holds only bodies of the tree. */
  lemma {:induction false} ReachSub(t: Tree, p: Vec)
    ensures multiset(Reach(t, p)) <= multiset(Points(t))
    decreases t
  {
    match t
    case Leaf(_) =>
    case Inner(c, ch) =>
      var o := Octant(p, c);
      if o < |ch| {
        ReachSub(ch[o], p);
        PointsOfChild(ch, o);
      }
  }

  /** In a routed tree every body is found in the leaf its own position
      reaches, so a body is held by exactly one leaf path. */
  lemma {:induction false} ReachContains(pts: seq<Body>, t: Tree, j: nat)
    requires Routed(pts, t) && j in Points(t) && j < |pts|
    ensures j in Reach(t, pts[j].pos)
    decreases t
  {
    match t
    case Leaf(_) =>
    case Inner(c, ch) =>
      PointsOfMember(ch, j);
      var k :| 0 <= k < |ch| && j in Points(ch[k]);
      assert InOctant(pts, Points(ch[k]), c, k);
      ReachContains(pts, ch[k], j);
  }

  /** Insertion keeps every body in the child of its octant. */
  lemma {:induction false} InsertRouted(pts: seq<Body>, threshold: nat, t: Tree, i: nat)
    requires i < |pts| && Valid(pts, threshold, t) && SplitSafe(pts, threshold, t, i)
    requires Routed(pts, t)
    ensures Routed(pts, Insert(pts, threshold, t, i))
    decreases t
  {
    match t
    case Inner(c, ch) =>
      var o := Octant(pts[i].pos, c);
      InsertRouted(pts, threshold, ch[o], i);
      var x := Insert(pts, threshold, ch[o], i);
      assert Insert(pts, threshold, t, i) == Inner(c, ch[o := x]);
      RoutedReplace(pts, c, ch, o, x, i);
    case Leaf(ns) =>
      if |ns| + 1 >= threshold {
        var ns' := ns + [i];
        assert forall j | j in ns' :: j in ns || j == i;
        DistributeRouted(pts, ns', Mean(pts, ns'));
      }
  }

  /** The eight leaves of a split hold bodies of their own octants. */
  lemma DistributeRouted(pts: seq<Body>, s: seq<nat>, c: Vec)
    requires InRange(pts, s)
    ensures Routed(pts, Inner(c, Distribute(pts, s, c)))
  {
    var d := Distribute(pts, s, c);
    assert forall k | 0 <= k < 8 :: Points(d[k]) == Sel(pts, s, c, k);
  }

  /** A routed node stays routed when one child gains a body of its octant. */
  lemma RoutedReplace(pts: seq<Body>, c: Vec, ch: seq<Tree>, o: nat, x: Tree, i: nat)
    requires Routed(pts, Inner(c, ch)) && o < |ch| && i < |pts| && Octant(pts[i].pos, c) == o
    requires Routed(pts, x) && multiset(Points(x)) == multiset(Points(ch[o])) + multiset{i}
    ensures Routed(pts, Inner(c, ch[o := x]))
  {
    var ch' := ch[o := x];
    forall k | 0 <= k < |ch'| ensures InOctant(pts, Points(ch'[k]), c, k) && Routed(pts, ch'[k]) {
      if k == o {
        assert InOctant(pts, Points(ch[o]), c, o);
        forall j | j in Points(x) ensures j < |pts| && Octant(pts[j].pos, c) == o {
          assert j in multiset(Points(x));
          if j != i {
            assert j in multiset(Points(ch[o]));
            assert j in Points(ch[o]);
          }
        }
      }
    }
  }

  /** A leaf may always split when no `threshold` of the bodies being
      inserted share one position. */
  lemma NoClumpSplitSafe(pts: seq<Body>, threshold: nat, t: Tree, xs: seq<nat>, i: nat)
    requires InRange(pts, xs) && NoClump(pts, xs, threshold) && threshold > 0
    requires i < |pts| && multiset(Points(t)) + multiset{i} <= multiset(xs)
    ensures SplitSafe(pts, threshold, t, i)
  {
    var ns := Reach(t, pts[i].pos);
    if |ns| + 1 >= threshold {
      ReachSub(t, pts[i].pos);
      var s := ns + [i];
      assert multiset(s) == multiset(ns) + multiset{i};
      NoClumpNotCoincident(pts, xs, s, threshold);
      var a, b :| a in s && b in s && pts[a].pos != pts[b].pos;
      var j := if pts[a].pos != pts[i].pos then a else b;
      assert j in ns;
    }
  }

  /** One iteration of the insertion loop preserves its invariants. */
  lemma InsertStep(pts: seq<Body>, threshold: nat, xs: seq<nat>, k: nat, t: Tree)
    requires InRange(pts, xs) && threshold > 0 && NoClump(pts, xs, threshold) && k < |xs|
    requires Valid(pts, threshold, t) && Routed(pts, t) && Populated(t)
    requires multiset(Points(t)) == multiset(xs[..k])
    ensures xs[k] < |pts| && SplitSafe(pts, threshold, t, xs[k])
    ensures var r := Insert(pts, threshold, t, xs[k]);
      && Valid(pts, threshold, r) && Routed(pts, r) && Populated(r)
      && multiset(Points(r)) == multiset(xs[..k + 1])
      && (|xs| < threshold && t == Leaf(xs[..k]) ==> r == Leaf(xs[..k + 1]))
  {
    var i := xs[k];
    assert i in xs;
    assert xs[..k + 1] == xs[..k] + [i];
    assert multiset(Points(t)) + multiset{i} <= multiset(xs) by {
      assert xs == xs[..k + 1] + xs[k + 1..];
    }
    NoClumpSplitSafe(pts, threshold, t, xs, i);
    InsertRouted(pts, threshold, t, i);
  }

  /**
   `otNode::insertNodes` run sequentially from an empty root leaf: every
   body ends up in exactly one leaf, the tree keeps its shape invariants,
   and fewer than `threshold` bodies leave the root a leaf.
   */
  method InsertNodes(pts: seq<Body>, threshold: nat, xs: seq<nat>) returns (t: Tree)
    requires InRange(pts, xs) && threshold > 0 && NoClump(pts, xs, threshold)
    ensures Valid(pts, threshold, t) && Routed(pts, t) && Populated(t)
    ensures multiset(Points(t)) == multiset(xs)
    ensures |xs| < threshold ==> t == Leaf(xs)
  {
    t := Leaf([]);
    var k := 0;
    while k < |xs|
      invariant 0 <= k <= |xs|
      invariant Valid(pts, threshold, t) && Routed(pts, t) && Populated(t)
      invariant multiset(Points(t)) == multiset(xs[..k])
      invariant |xs| < threshold ==> t == Leaf(xs[..k])
    {
      InsertStep(pts, threshold, xs, k, t);
      t := Insert(pts, threshold, t, xs[k]);
      k := k + 1;
    }
    assert xs[..k] == xs;
  }
}
