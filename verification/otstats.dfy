/**
 `otNode::updateStats`: after insertion, every node of the tree gets its
 total weight, bounding box, barycentre and (for internal nodes) the mean
 box extent used by the opening test. The statistics are computed on a
 freshly built tree, whose accumulators start at zero and unset.
 */
module OtStats {
  import opened Geom
  import opened Sums
  import opened OtBox
  import opened OtTree

  /** The per-node accumulators: `weight`, `bbox`, `bboxSize`, `baryCenter`. */
  datatype Stats = Stats(weight: real, bbox: BBox, bboxSize: real, bary: Vec)

  /** The accumulators of a newly constructed node. */
  const Fresh: Stats := Stats(0.0, UnsetBox, 0.0, Origin)

  /** A tree whose every node carries its statistics. */
  datatype STree =
    | SLeaf(nodes: seq<nat>, st: Stats)
    | SInner(center: Vec, children: seq<STree>, st: Stats)

  /** The tree without its statistics. */
  function Shape(s: STree): Tree
    decreases s
  {
    match s
    case SLeaf(ns, _) => Leaf(ns)
    case SInner(c, rs, _) => Inner(c, Shapes(rs))
  }

  function Shapes(rs: seq<STree>): (ch: seq<Tree>)
    ensures |ch| == |rs|
    ensures forall k | 0 <= k < |rs| :: ch[k] == Shape(rs[k])
    decreases rs
  {
    if |rs| == 0 then [] else Shapes(rs[..|rs| - 1]) + [Shape(rs[|rs| - 1])]
  }

  /** The bodies a statistics node summarises. */
  function Bodies(s: STree): seq<nat>
  {
    Points(Shape(s))
  }

  /**
   The statistics of `s` describe its bodies: the weight is their total
   weight; when there are bodies, the barycentre times the weight is their
   weighted position sum and the box is set and holds every one of them; an
   internal node has bodies and its size is the mean extent of its box; a
   leaf's size is never set.
   */
  predicate Summarises(pts: seq<Body>, s: STree)
  {
    var ps := Bodies(s);
    && InRange(pts, ps)
    && s.st.weight == TotalWeight(pts, ps)
    && (|ps| > 0 ==>
          && Scale(s.st.bary, s.st.weight) == Moment(pts, ps)
          && Proper(s.st.bbox)
          && (forall j | j in ps :: Holds(s.st.bbox, pts[j].pos)))
    && (s.SLeaf? ==> s.st.bboxSize == 0.0 && (|ps| == 0 ==> s.st == Fresh))
    && (s.SInner? ==> |ps| > 0 && s.st.bboxSize == MeanExtent(s.st.bbox))
  }

  /** Every node of `s` summarises its subtree. */
  predicate AllSummarised(pts: seq<Body>, s: STree)
    decreases s
  {
    && Summarises(pts, s)
    && (s.SInner? ==> forall k | 0 <= k < |s.children| :: AllSummarised(pts, s.children[k]))
  }

  /** The leaf loop: box, weight and weighted position sum of the bodies,
      accumulated in order from a fresh node. */
  function Accumulate(pts: seq<Body>, ns: seq<nat>): (a: Stats)
    requires InRange(pts, ns)
    ensures a.weight == TotalWeight(pts, ns)
    ensures a.bary == Moment(pts, ns)
    ensures a.bboxSize == 0.0
    ensures |ns| == 0 ==> a == Fresh
    ensures |ns| > 0 ==> Proper(a.bbox) && forall j | j in ns :: Holds(a.bbox, pts[j].pos)
    decreases |ns|
  {
    if |ns| == 0 then Fresh
    else
      var ns', j := ns[..|ns| - 1], ns[|ns| - 1];
      assert ns == ns' + [j];
      assert j in ns;
      assert forall x | x in ns' :: x in ns;
      var a := Accumulate(pts, ns');
      TotalWeightSnoc(pts, ns', j);
      Stats(a.weight + pts[j].weight, AddPoint(a.bbox, pts[j].pos), 0.0,
            Add(a.bary, Scale(pts[j].pos, pts[j].weight)))
  }

  /** The internal-node loop over already updated children: empty leaves are
      skipped, the others contribute their box, weight and barycentre times
      weight. */
  function Combine(pts: seq<Body>, rs: seq<STree>): (a: Stats)
    requires forall k | 0 <= k < |rs| :: Summarises(pts, rs[k])
    ensures var ps := PointsOf(Shapes(rs));
      && a.weight == TotalWeight(pts, ps)
      && a.bary == Moment(pts, ps)
      && (|ps| == 0 ==> a.bbox.unset)
      && (|ps| > 0 ==> Proper(a.bbox) && forall j | j in ps :: j < |pts| && Holds(a.bbox, pts[j].pos))
    decreases |rs|
  {
    if |rs| == 0 then Fresh
    else
      var rs', c := rs[..|rs| - 1], rs[|rs| - 1];
      assert forall k | 0 <= k < |rs'| :: rs'[k] == rs[k];
      var a := Combine(pts, rs');
      CombineStep(pts, rs);
      var r :=
        if c.SLeaf? && |c.nodes| == 0 then a
        else
          Stats(a.weight + c.st.weight, AddBox(a.bbox, c.st.bbox), 0.0,
                Add(a.bary, Scale(c.st.bary, c.st.weight)));
      CombineOne(pts, a, c, r, PointsOf(Shapes(rs')), PointsOf(Shapes(rs)));
      r
  }

  /** One iteration of the internal-node loop keeps the accumulators in step
      with the bodies of the children seen so far. */
  lemma CombineOne(pts: seq<Body>, a: Stats, c: STree, r: Stats, ps: seq<nat>, all: seq<nat>)
    requires all == ps + Bodies(c) && Summarises(pts, c)
    requires a.weight == TotalWeight(pts, ps) && a.bary == Moment(pts, ps)
    requires |ps| == 0 ==> a.bbox.unset
    requires |ps| > 0 ==> Proper(a.bbox) && forall j | j in ps :: j < |pts| && Holds(a.bbox, pts[j].pos)
    requires (c.SLeaf? && |c.nodes| == 0) <==> |Bodies(c)| == 0
    requires |Bodies(c)| == 0 ==> TotalWeight(pts, Bodies(c)) == 0.0 && Moment(pts, Bodies(c)) == Origin
    requires r == if c.SLeaf? && |c.nodes| == 0 then a
      else Stats(a.weight + c.st.weight, AddBox(a.bbox, c.st.bbox), 0.0, Add(a.bary, Scale(c.st.bary, c.st.weight)))
    ensures r.weight == TotalWeight(pts, all) && r.bary == Moment(pts, all)
    ensures |all| == 0 ==> r.bbox.unset
    ensures |all| > 0 ==> Proper(r.bbox) && forall j | j in all :: j < |pts| && Holds(r.bbox, pts[j].pos)
  {
    var pc := Bodies(c);
    TotalWeightConcat(pts, ps, pc);
    if |pc| == 0 {
      assert ps + pc == ps;
    } else {
      forall j | j in ps + pc ensures j < |pts| && Holds(r.bbox, pts[j].pos) {
        if j in ps {
          assert Holds(a.bbox, pts[j].pos);
        } else {
          assert j in pc;
          assert Holds(c.st.bbox, pts[j].pos);
        }
      }
    }
  }

  /** How the bodies of a list of children split into those of a prefix and
      of the last child. */
  lemma CombineStep(pts: seq<Body>, rs: seq<STree>)
    requires |rs| > 0 && forall k | 0 <= k < |rs| :: Summarises(pts, rs[k])
    ensures var rs', c := rs[..|rs| - 1], rs[|rs| - 1];
      var ps', pc := PointsOf(Shapes(rs')), Bodies(c);
      && PointsOf(Shapes(rs)) == ps' + pc
      && (c.SLeaf? && |c.nodes| == 0 <==> |pc| == 0)
      && (|pc| == 0 ==> TotalWeight(pts, pc) == 0.0 && Moment(pts, pc) == Origin)
  {
    var rs', c := rs[..|rs| - 1], rs[|rs| - 1];
    assert Shapes(rs)[..|rs| - 1] == Shapes(rs');
    assert Summarises(pts, c);
  }

  /**
   `otNode::updateStats` on a freshly built tree. A leaf with bodies gets
   the weighted mean of their positions; an internal node combines its
   updated children, divides by the total weight, and sets its size to the
   mean extent of its box.
   */
  function UpdateStats(pts: seq<Body>, t: Tree): (r: STree)
    requires PositiveWeights(pts) && InRange(pts, Points(t)) && Populated(t)
    ensures Shape(r) == t
    ensures AllSummarised(pts, r)
    decreases t, 1
  {
    match t
    case Leaf(ns) =>
      var a := Accumulate(pts, ns);
      if |ns| == 0 then SLeaf(ns, a)
      else
        TotalWeightPositive(pts, ns);
        SLeaf(ns, a.(bary := Div(a.bary, a.weight)))
    case Inner(c, ch) =>
      var rs := UpdateAll(pts, ch);
      assert Shapes(rs) == ch;
      var a := Combine(pts, rs);
      TotalWeightPositive(pts, PointsOf(ch));
      SInner(c, rs, Stats(a.weight, a.bbox, MeanExtent(a.bbox), Div(a.bary, a.weight)))
  }

  function UpdateAll(pts: seq<Body>, ch: seq<Tree>): (rs: seq<STree>)
    requires PositiveWeights(pts) && InRange(pts, PointsOf(ch))
    requires forall k | 0 <= k < |ch| :: Populated(ch[k])
    ensures |rs| == |ch|
    ensures forall k | 0 <= k < |ch| :: Shape(rs[k]) == ch[k] && AllSummarised(pts, rs[k])
    decreases ch, 0
  {
    if |ch| == 0 then []
    else
      var n := |ch| - 1;
      InRangeParts(pts, ch);
      var rs' := UpdateAll(pts, ch[..n]);
      var x := UpdateStats(pts, ch[n]);
      assert forall k | 0 <= k < n :: (rs' + [x])[k] == rs'[k];
      rs' + [x]
  }

  /** The children but the last, and the last, hold bodies of the node. */
  lemma InRangeParts(pts: seq<Body>, ch: seq<Tree>)
    requires |ch| > 0 && InRange(pts, PointsOf(ch))
    ensures InRange(pts, PointsOf(ch[..|ch| - 1])) && InRange(pts, Points(ch[|ch| - 1]))
    ensures forall k | 0 <= k < |ch| - 1 :: ch[..|ch| - 1][k] == ch[k]
  {
    var n := |ch| - 1;
    assert PointsOf(ch) == PointsOf(ch[..n]) + Points(ch[n]);
    assert forall j | j in PointsOf(ch[..n]) :: j in PointsOf(ch);
    assert forall j | j in Points(ch[n]) :: j in PointsOf(ch);
  }

  /** After the update, the root of a tree built from `xs` carries the total
      weight of `xs` and, when there are bodies, their weighted mean. */
  lemma RootWeight(pts: seq<Body>, t: Tree, xs: seq<nat>)
    requires PositiveWeights(pts) && InRange(pts, Points(t)) && Populated(t)
    requires multiset(Points(t)) == multiset(xs)
    ensures var st := UpdateStats(pts, t).st;
      && st.weight == TotalWeight(pts, xs)
      && (|xs| > 0 ==> Scale(st.bary, st.weight) == Moment(pts, xs))
  {
    var r := UpdateStats(pts, t);
    assert Bodies(r) == Points(t);
    TotalWeightPerm(pts, Points(t), xs);
    assert |xs| == |multiset(xs)| == |Points(t)|;
  }

  /** The weighted mean of bodies held by a proper box lies in the box. */
  lemma MeanInBox(pts: seq<Body>, ps: seq<nat>, b: BBox, w: real, q: Vec)
    requires PositiveWeights(pts) && InRange(pts, ps) && |ps| > 0 && Proper(b)
    requires forall j | j in ps :: Holds(b, pts[j].pos)
    requires w == TotalWeight(pts, ps) && Scale(q, w) == Moment(pts, ps)
    ensures Holds(b, q)
  {
    WeightedMeanBetweenCorners(pts, ps, b.min, b.max, w, q);
  }

  /** The barycentre of a node with bodies lies inside its bounding box. */
  lemma BaryInBox(pts: seq<Body>, s: STree)
    requires PositiveWeights(pts) && Summarises(pts, s) && |Bodies(s)| > 0
    ensures Holds(s.st.bbox, s.st.bary)
  {
    MeanInBox(pts, Bodies(s), s.st.bbox, s.st.weight, s.st.bary);
  }
}
