/**
 Simulated bodies and sums over collections of body indices. Both trees
 hold bodies by reference; here a reference is an index into a sequence of
 bodies, so two bodies at the same position are still told apart.
 */
module Sums {
  import opened Geom

  /** A simulated body: `Node` in the newer tree (position and weight; the
      velocity belongs to the simulation loop), `node` in the older one. */
  datatype Body = Body(pos: Vec, weight: real)

  /** Every index in `s` refers to a body of `pts`. */
  predicate InRange(pts: seq<Body>, s: seq<nat>)
  {
    forall j | j in s :: j < |pts|
  }

  /** Every body has a positive weight (a mass). */
  predicate PositiveWeights(pts: seq<Body>)
  {
    forall j | 0 <= j < |pts| :: pts[j].weight > 0.0
  }

  /** The sum of `f` over the indices of `s`, accumulated left to right as
      the source's loops do. */
  function Sum(f: nat -> real, s: seq<nat>): real
    decreases |s|
  {
    if |s| == 0 then 0.0 else Sum(f, s[..|s| - 1]) + f(s[|s| - 1])
  }

  lemma SumConcat(f: nat -> real, a: seq<nat>, b: seq<nat>)
    ensures Sum(f, a + b) == Sum(f, a) + Sum(f, b)
    decreases |b|
  {
    if |b| == 0 {
      assert a + b == a;
    } else {
      var b' := b[..|b| - 1];
      assert (a + b)[..|a + b| - 1] == a + b';
      SumConcat(f, a, b');
    }
  }

  lemma SumSingleton(f: nat -> real, x: nat)
    ensures Sum(f, [x]) == f(x)
  {
    assert [x][..0] == [];
  }

  /** Removing one occurrence at position `i` takes exactly `f(s[i])` off the sum. */
  lemma SumRemove(f: nat -> real, s: seq<nat>, i: nat)
    requires i < |s|
    ensures Sum(f, s) == Sum(f, s[..i] + s[i + 1..]) + f(s[i])
  {
    var a, x, b := s[..i], s[i], s[i + 1..];
    assert s == a + ([x] + b);
    SumConcat(f, a, [x] + b);
    SumConcat(f, [x], b);
    SumSingleton(f, x);
    SumConcat(f, a, b);
  }

  /** A sum does not depend on the order of its terms. */
  lemma {:induction false} SumPerm(f: nat -> real, a: seq<nat>, b: seq<nat>)
    requires multiset(a) == multiset(b)
    ensures Sum(f, a) == Sum(f, b)
    decreases |a|
  {
    if |a| == 0 {
      assert |b| == |multiset(b)| == 0;
    } else {
      var x := a[|a| - 1];
      var a' := a[..|a| - 1];
      assert a == a' + [x];
      assert x in multiset(b);
      var i :| 0 <= i < |b| && b[i] == x;
      var b' := b[..i] + b[i + 1..];
      assert b == b[..i] + [x] + b[i + 1..];
      assert multiset(b') == multiset(b) - multiset{x};
      assert multiset(a') == multiset(a) - multiset{x};
      SumPerm(f, a', b');
      SumRemove(f, b, i);
    }
  }

  /** Removing the element at `i` removes one copy of it and nothing else. */
  lemma SeqRemove(b: seq<nat>, i: nat)
    requires i < |b|
    ensures multiset(b) == multiset(b[..i] + b[i + 1..]) + multiset{b[i]}
    ensures forall y | y in b[..i] + b[i + 1..] :: y in b
  {
    assert b == b[..i] + [b[i]] + b[i + 1..];
  }

  lemma SubMultisetRemove(a: multiset<nat>, b: multiset<nat>, x: nat)
    requires a + multiset{x} <= b + multiset{x}
    ensures a <= b
  {
    forall z ensures a[z] <= b[z] {
      assert (a + multiset{x})[z] <= (b + multiset{x})[z];
    }
  }

  /** With non-negative terms, a sub-collection has the smaller sum. */
  lemma {:induction false} SumSubMultiset(f: nat -> real, a: seq<nat>, b: seq<nat>)
    requires multiset(a) <= multiset(b)
    requires forall x | x in b :: f(x) >= 0.0
    ensures Sum(f, a) <= Sum(f, b)
    decreases |b|
  {
    if |a| == 0 {
      SumLowerBound(f, b, 0.0);
    } else {
      var x := a[|a| - 1];
      var a' := a[..|a| - 1];
      assert a == a' + [x];
      assert multiset(a) == multiset(a') + multiset{x};
      assert x in multiset(b);
      var i :| 0 <= i < |b| && b[i] == x;
      var b' := b[..i] + b[i + 1..];
      SeqRemove(b, i);
      SubMultisetRemove(multiset(a'), multiset(b'), x);
      SumSubMultiset(f, a', b');
      SumRemove(f, b, i);
    }
  }

  /** `n` copies of `m` added up; equal to `n · m` (`TimesIsProduct`) but
      linear, which keeps the bound lemmas below out of non-linear
      arithmetic. */
  function Times(n: nat, m: real): real
  {
    if n == 0 then 0.0 else Times(n - 1, m) + m
  }

  lemma {:induction false} TimesIsProduct(n: nat, m: real)
    ensures Times(n, m) == n as real * m
  {
    if n > 0 {
      TimesIsProduct(n - 1, m);
      assert n as real * m == (n - 1) as real * m + m;
    }
  }

  /** Terms bounded below by `m` give a sum of at least `|s|·m`. */
  lemma SumLowerBound(f: nat -> real, s: seq<nat>, m: real)
    requires forall x | x in s :: f(x) >= m
    ensures Sum(f, s) >= |s| as real * m
  {
    SumAtLeast(f, s, m);
    TimesIsProduct(|s|, m);
  }

  lemma {:induction false} SumAtLeast(f: nat -> real, s: seq<nat>, m: real)
    requires forall x | x in s :: f(x) >= m
    ensures Sum(f, s) >= Times(|s|, m)
    decreases |s|
  {
    if |s| > 0 {
      var s' := s[..|s| - 1];
      assert s[|s| - 1] in s;
      assert forall y | y in s' :: y in s;
      SumAtLeast(f, s', m);
    }
  }

  /** ... and strictly more when the term at `y` exceeds `m`. */
  lemma SumLowerBoundStrict(f: nat -> real, s: seq<nat>, m: real, y: nat)
    requires forall x | x in s :: f(x) >= m
    requires y in s && f(y) > m
    ensures Sum(f, s) > |s| as real * m
  {
    SumAbove(f, s, m, y);
    TimesIsProduct(|s|, m);
  }

  lemma {:induction false} SumAbove(f: nat -> real, s: seq<nat>, m: real, y: nat)
    requires forall x | x in s :: f(x) >= m
    requires y in s && f(y) > m
    ensures Sum(f, s) > Times(|s|, m)
    decreases |s|
  {
    var s' := s[..|s| - 1];
    var x := s[|s| - 1];
    assert s == s' + [x];
    assert forall z | z in s' :: z in s;
    if y == x {
      SumAtLeast(f, s', m);
    } else {
      assert y in s';
      SumAbove(f, s', m, y);
    }
  }

  /** Terms bounded above by `m` give a sum of at most `|s|·m`. */
  lemma SumUpperBound(f: nat -> real, s: seq<nat>, m: real)
    requires forall x | x in s :: f(x) <= m
    ensures Sum(f, s) <= |s| as real * m
  {
    SumAtMost(f, s, m);
    TimesIsProduct(|s|, m);
  }

  lemma {:induction false} SumAtMost(f: nat -> real, s: seq<nat>, m: real)
    requires forall x | x in s :: f(x) <= m
    ensures Sum(f, s) <= Times(|s|, m)
    decreases |s|
  {
    if |s| > 0 {
      var s' := s[..|s| - 1];
      assert s[|s| - 1] in s;
      assert forall y | y in s' :: y in s;
      SumAtMost(f, s', m);
    }
  }

  /** ... and strictly less when the term at `y` is below `m`. */
  lemma SumUpperBoundStrict(f: nat -> real, s: seq<nat>, m: real, y: nat)
    requires forall x | x in s :: f(x) <= m
    requires y in s && f(y) < m
    ensures Sum(f, s) < |s| as real * m
  {
    SumBelow(f, s, m, y);
    TimesIsProduct(|s|, m);
  }

  lemma {:induction false} SumBelow(f: nat -> real, s: seq<nat>, m: real, y: nat)
    requires forall x | x in s :: f(x) <= m
    requires y in s && f(y) < m
    ensures Sum(f, s) < Times(|s|, m)
    decreases |s|
  {
    var s' := s[..|s| - 1];
    var x := s[|s| - 1];
    assert s == s' + [x];
    assert forall z | z in s' :: z in s;
    if y == x {
      SumAtMost(f, s', m);
    } else {
      assert y in s';
      SumBelow(f, s', m, y);
    }
  }

  /** If every term lies on one side of the mean, every term equals the mean. */
  lemma OneSideOfMean(f: nat -> real, s: seq<nat>)
    requires |s| > 0
    ensures var m := Sum(f, s) / |s| as real;
      && ((forall x | x in s :: f(x) >= m) ==> (forall x | x in s :: f(x) == m))
      && ((forall x | x in s :: f(x) <= m) ==> (forall x | x in s :: f(x) == m))
  {
    var n := |s| as real;
    var m := Sum(f, s) / n;
    assert n * m == Sum(f, s);
    if forall x | x in s :: f(x) >= m {
      if y :| y in s && f(y) != m {
        SumLowerBoundStrict(f, s, m, y);
      }
    }
    if forall x | x in s :: f(x) <= m {
      if y :| y in s && f(y) != m {
        SumUpperBoundStrict(f, s, m, y);
      }
    }
  }

  /** Positive terms over a non-empty collection give a positive sum. */
  lemma SumPositive(f: nat -> real, s: seq<nat>)
    requires |s| > 0
    requires forall x | x in s :: f(x) > 0.0
    ensures Sum(f, s) > 0.0
  {
    assert s[0] in s;
    SumLowerBoundStrict(f, s, 0.0, s[0]);
  }

  // Per-body quantities, as functions of an index.

  function WeightOf(pts: seq<Body>): nat -> real
  {
    (j: nat) => if j < |pts| then pts[j].weight else 0.0
  }

  function XOf(pts: seq<Body>): nat -> real
  {
    (j: nat) => if j < |pts| then pts[j].pos.x else 0.0
  }

  function YOf(pts: seq<Body>): nat -> real
  {
    (j: nat) => if j < |pts| then pts[j].pos.y else 0.0
  }

  function ZOf(pts: seq<Body>): nat -> real
  {
    (j: nat) => if j < |pts| then pts[j].pos.z else 0.0
  }

  function WXOf(pts: seq<Body>): nat -> real
  {
    (j: nat) => if j < |pts| then pts[j].pos.x * pts[j].weight else 0.0
  }

  function WYOf(pts: seq<Body>): nat -> real
  {
    (j: nat) => if j < |pts| then pts[j].pos.y * pts[j].weight else 0.0
  }

  function WZOf(pts: seq<Body>): nat -> real
  {
    (j: nat) => if j < |pts| then pts[j].pos.z * pts[j].weight else 0.0
  }

  /** Indicator of the bodies sitting exactly at `p`. */
  function AtPos(pts: seq<Body>, p: Vec): nat -> real
  {
    (j: nat) => if j < |pts| && pts[j].pos == p then 1.0 else 0.0
  }

  /** Total weight of the indexed bodies. */
  function TotalWeight(pts: seq<Body>, s: seq<nat>): real
  {
    Sum(WeightOf(pts), s)
  }

  /** The weighted position sum Σ w·p of the indexed bodies. */
  function Moment(pts: seq<Body>, s: seq<nat>): Vec
  {
    Vec(Sum(WXOf(pts), s), Sum(WYOf(pts), s), Sum(WZOf(pts), s))
  }

  /** The plain position sum Σ p of the indexed bodies. */
  function PosSum(pts: seq<Body>, s: seq<nat>): Vec
  {
    Vec(Sum(XOf(pts), s), Sum(YOf(pts), s), Sum(ZOf(pts), s))
  }

  /** The arithmetic mean of the positions (the split centre of both trees). */
  function Mean(pts: seq<Body>, s: seq<nat>): (c: Vec)
    requires |s| > 0
    ensures Scale(c, |s| as real) == PosSum(pts, s)
  {
    Div(PosSum(pts, s), |s| as real)
  }

  /** All indexed bodies share one position. */
  predicate Coincident(pts: seq<Body>, s: seq<nat>)
    requires InRange(pts, s)
  {
    forall j, k | j in s && k in s :: pts[j].pos == pts[k].pos
  }

  /** The number of indexed bodies sitting exactly at `p`. */
  function CountAt(pts: seq<Body>, s: seq<nat>, p: Vec): real
  {
    Sum(AtPos(pts, p), s)
  }

  /** Fewer than `threshold` of the indexed bodies share any one position. */
  predicate NoClump(pts: seq<Body>, s: seq<nat>, threshold: nat)
    requires InRange(pts, s)
  {
    forall j | j in s :: CountAt(pts, s, pts[j].pos) < threshold as real
  }

  lemma TotalWeightConcat(pts: seq<Body>, a: seq<nat>, b: seq<nat>)
    ensures TotalWeight(pts, a + b) == TotalWeight(pts, a) + TotalWeight(pts, b)
    ensures Moment(pts, a + b) == Add(Moment(pts, a), Moment(pts, b))
    ensures PosSum(pts, a + b) == Add(PosSum(pts, a), PosSum(pts, b))
  {
    SumConcat(WeightOf(pts), a, b);
    SumConcat(WXOf(pts), a, b);
    SumConcat(WYOf(pts), a, b);
    SumConcat(WZOf(pts), a, b);
    SumConcat(XOf(pts), a, b);
    SumConcat(YOf(pts), a, b);
    SumConcat(ZOf(pts), a, b);
  }

  lemma TotalWeightPerm(pts: seq<Body>, a: seq<nat>, b: seq<nat>)
    requires multiset(a) == multiset(b)
    ensures TotalWeight(pts, a) == TotalWeight(pts, b)
    ensures Moment(pts, a) == Moment(pts, b)
    ensures PosSum(pts, a) == PosSum(pts, b)
  {
    SumPerm(WeightOf(pts), a, b);
    SumPerm(WXOf(pts), a, b);
    SumPerm(WYOf(pts), a, b);
    SumPerm(WZOf(pts), a, b);
    SumPerm(XOf(pts), a, b);
    SumPerm(YOf(pts), a, b);
    SumPerm(ZOf(pts), a, b);
  }

  lemma TotalWeightSnoc(pts: seq<Body>, s: seq<nat>, j: nat)
    requires j < |pts|
    ensures TotalWeight(pts, s + [j]) == TotalWeight(pts, s) + pts[j].weight
    ensures Moment(pts, s + [j]) == Add(Moment(pts, s), Scale(pts[j].pos, pts[j].weight))
  {
    assert (s + [j])[..|s + [j]| - 1] == s;
  }

  /** Positive weights make the total weight of a non-empty collection positive. */
  lemma TotalWeightPositive(pts: seq<Body>, s: seq<nat>)
    requires PositiveWeights(pts) && InRange(pts, s) && |s| > 0
    ensures TotalWeight(pts, s) > 0.0
  {
    SumPositive(WeightOf(pts), s);
  }

  /**
   If, on every axis, all indexed bodies lie on one side of their mean
   (weakly), they all sit at the mean.
   */
  lemma OneSideOfMeanCoincident(pts: seq<Body>, s: seq<nat>)
    requires InRange(pts, s) && |s| > 0
    requires var c := Mean(pts, s);
      && ((forall j | j in s :: pts[j].pos.x >= c.x) || (forall j | j in s :: pts[j].pos.x <= c.x))
      && ((forall j | j in s :: pts[j].pos.y >= c.y) || (forall j | j in s :: pts[j].pos.y <= c.y))
      && ((forall j | j in s :: pts[j].pos.z >= c.z) || (forall j | j in s :: pts[j].pos.z <= c.z))
    ensures forall j | j in s :: pts[j].pos == Mean(pts, s)
  {
    var c := Mean(pts, s);
    var n := |s| as real;
    assert c.x == Sum(XOf(pts), s) / n;
    assert c.y == Sum(YOf(pts), s) / n;
    assert c.z == Sum(ZOf(pts), s) / n;
    OneSideOfMean(XOf(pts), s);
    OneSideOfMean(YOf(pts), s);
    OneSideOfMean(ZOf(pts), s);
    forall j | j in s ensures pts[j].pos == c {
      assert XOf(pts)(j) == pts[j].pos.x;
      assert YOf(pts)(j) == pts[j].pos.y;
      assert ZOf(pts)(j) == pts[j].pos.z;
    }
  }

  /** A collection without a clump is not coincident once it has
      `threshold` members. */
  lemma NoClumpNotCoincident(pts: seq<Body>, all: seq<nat>, s: seq<nat>, threshold: nat)
    requires InRange(pts, all) && NoClump(pts, all, threshold)
    requires multiset(s) <= multiset(all)
    requires |s| >= threshold && |s| > 0
    ensures InRange(pts, s)
    ensures !Coincident(pts, s)
  {
    forall j | j in s ensures j < |pts| {
      assert multiset(s)[j] > 0;
      assert multiset(all)[j] > 0;
      assert j in all;
    }
    if Coincident(pts, s) {
      assert s[0] in s;
      var p := pts[s[0]].pos;
      assert s[0] in multiset(all);
      forall x | x in all ensures AtPos(pts, p)(x) >= 0.0 {
      }
      SumSubMultiset(AtPos(pts, p), s, all);
      forall x | x in s ensures AtPos(pts, p)(x) >= 1.0 {
        assert s[0] in s;
      }
      SumLowerBound(AtPos(pts, p), s, 1.0);
    }
  }

  lemma MulBetween(a: real, lo: real, hi: real, w: real)
    requires w >= 0.0 && lo <= a <= hi
    ensures lo * w <= a * w <= hi * w
  {
  }

  lemma MulAdd(k: real, a: real, b: real)
    ensures k * (a + b) == k * a + k * b
  {
  }

  /** A sum of terms each at least `lo` times its weight is at least `lo`
      times the sum of the weights. */
  lemma {:induction false} WeightedAbove(w: nat -> real, wv: nat -> real, s: seq<nat>, lo: real)
    requires forall j | j in s :: lo * w(j) <= wv(j)
    ensures lo * Sum(w, s) <= Sum(wv, s)
    decreases |s|
  {
    if |s| > 0 {
      var s', x := s[..|s| - 1], s[|s| - 1];
      assert x in s;
      assert forall j | j in s' :: j in s;
      WeightedAbove(w, wv, s', lo);
      MulAdd(lo, Sum(w, s'), w(x));
    }
  }

  /** A sum of terms each at most `hi` times its weight is at most `hi`
      times the sum of the weights. */
  lemma {:induction false} WeightedBelow(w: nat -> real, wv: nat -> real, s: seq<nat>, hi: real)
    requires forall j | j in s :: wv(j) <= hi * w(j)
    ensures Sum(wv, s) <= hi * Sum(w, s)
    decreases |s|
  {
    if |s| > 0 {
      var s', x := s[..|s| - 1], s[|s| - 1];
      assert x in s;
      assert forall j | j in s' :: j in s;
      WeightedBelow(w, wv, s', hi);
      MulAdd(hi, Sum(w, s'), w(x));
    }
  }

  /** A quotient by a positive number keeps the bounds of its scaled form. */
  lemma QuotientBetween(m: real, w: real, lo: real, hi: real, q: real)
    requires w > 0.0 && lo * w <= m <= hi * w && q * w == m
    ensures lo <= q <= hi
  {
  }

  lemma TermsBetween(w: nat -> real, v: nat -> real, wv: nat -> real, s: seq<nat>, lo: real, hi: real)
    requires forall j | j in s :: w(j) >= 0.0 && lo <= v(j) <= hi && wv(j) == v(j) * w(j)
    ensures forall j | j in s :: lo * w(j) <= wv(j) <= hi * w(j)
  {
    forall j | j in s ensures lo * w(j) <= wv(j) <= hi * w(j) {
      MulBetween(v(j), lo, hi, w(j));
    }
  }

  /** A weighted mean of values between `lo` and `hi`, with non-negative
      weights of positive total, lies between `lo` and `hi`. */
  lemma WeightedMeanBetween(w: nat -> real, v: nat -> real, wv: nat -> real, s: seq<nat>, lo: real, hi: real, q: real)
    requires forall j | j in s :: w(j) >= 0.0 && lo <= v(j) <= hi && wv(j) == v(j) * w(j)
    requires Sum(w, s) > 0.0 && q * Sum(w, s) == Sum(wv, s)
    ensures lo <= q <= hi
  {
    TermsBetween(w, v, wv, s, lo, hi);
    WeightedAbove(w, wv, s, lo);
    WeightedBelow(w, wv, s, hi);
    QuotientBetween(Sum(wv, s), Sum(w, s), lo, hi, q);
  }

  /** One axis of a weighted mean of positively weighted bodies whose
      coordinate `v` lies between `lo` and `hi`. */
  lemma AxisMeanBetween(pts: seq<Body>, ps: seq<nat>, v: nat -> real, wv: nat -> real, lo: real, hi: real, qv: real)
    requires PositiveWeights(pts) && InRange(pts, ps) && |ps| > 0
    requires forall j | j in ps :: lo <= v(j) <= hi && wv(j) == v(j) * WeightOf(pts)(j)
    requires qv * TotalWeight(pts, ps) == Sum(wv, ps)
    ensures lo <= qv <= hi
  {
    TotalWeightPositive(pts, ps);
    forall j | j in ps ensures WeightOf(pts)(j) >= 0.0 && lo <= v(j) <= hi && wv(j) == v(j) * WeightOf(pts)(j) {
    }
    WeightedMeanBetween(WeightOf(pts), v, wv, ps, lo, hi, qv);
  }

  /** The weighted mean of positively weighted bodies lying between two
      corners lies between the same corners. */
  lemma WeightedMeanBetweenCorners(pts: seq<Body>, ps: seq<nat>, lo: Vec, hi: Vec, w: real, q: Vec)
    requires PositiveWeights(pts) && InRange(pts, ps) && |ps| > 0
    requires forall j | j in ps :: lo.x <= pts[j].pos.x <= hi.x && lo.y <= pts[j].pos.y <= hi.y && lo.z <= pts[j].pos.z <= hi.z
    requires w == TotalWeight(pts, ps) && Scale(q, w) == Moment(pts, ps)
    ensures lo.x <= q.x <= hi.x && lo.y <= q.y <= hi.y && lo.z <= q.z <= hi.z
  {
    MeanBetweenX(pts, ps, lo.x, hi.x, q.x);
    MeanBetweenY(pts, ps, lo.y, hi.y, q.y);
    MeanBetweenZ(pts, ps, lo.z, hi.z, q.z);
  }

  lemma MeanBetweenX(pts: seq<Body>, ps: seq<nat>, lo: real, hi: real, qx: real)
    requires PositiveWeights(pts) && InRange(pts, ps) && |ps| > 0
    requires forall j | j in ps :: lo <= pts[j].pos.x <= hi
    requires qx * TotalWeight(pts, ps) == Moment(pts, ps).x
    ensures lo <= qx <= hi
  {
    forall j | j in ps ensures lo <= XOf(pts)(j) <= hi && WXOf(pts)(j) == XOf(pts)(j) * WeightOf(pts)(j) {
    }
    AxisMeanBetween(pts, ps, XOf(pts), WXOf(pts), lo, hi, qx);
  }

  lemma MeanBetweenY(pts: seq<Body>, ps: seq<nat>, lo: real, hi: real, qy: real)
    requires PositiveWeights(pts) && InRange(pts, ps) && |ps| > 0
    requires forall j | j in ps :: lo <= pts[j].pos.y <= hi
    requires qy * TotalWeight(pts, ps) == Moment(pts, ps).y
    ensures lo <= qy <= hi
  {
    forall j | j in ps ensures lo <= YOf(pts)(j) <= hi && WYOf(pts)(j) == YOf(pts)(j) * WeightOf(pts)(j) {
    }
    AxisMeanBetween(pts, ps, YOf(pts), WYOf(pts), lo, hi, qy);
  }

  lemma MeanBetweenZ(pts: seq<Body>, ps: seq<nat>, lo: real, hi: real, qz: real)
    requires PositiveWeights(pts) && InRange(pts, ps) && |ps| > 0
    requires forall j | j in ps :: lo <= pts[j].pos.z <= hi
    requires qz * TotalWeight(pts, ps) == Moment(pts, ps).z
    ensures lo <= qz <= hi
  {
    forall j | j in ps ensures lo <= ZOf(pts)(j) <= hi && WZOf(pts)(j) == ZOf(pts)(j) * WeightOf(pts)(j) {
    }
    AxisMeanBetween(pts, ps, ZOf(pts), WZOf(pts), lo, hi, qz);
  }

  /** The vector sum of `f` over the indices of `s`, accumulated left to right. */
  function VSum(f: nat -> Vec, s: seq<nat>): Vec
    decreases |s|
  {
    if |s| == 0 then Origin else Add(VSum(f, s[..|s| - 1]), f(s[|s| - 1]))
  }

  function XPart(f: nat -> Vec): nat -> real { (j: nat) => f(j).x }
  function YPart(f: nat -> Vec): nat -> real { (j: nat) => f(j).y }
  function ZPart(f: nat -> Vec): nat -> real { (j: nat) => f(j).z }

  /** A vector sum is the vector of its three component sums. */
  lemma {:induction false} VSumComponents(f: nat -> Vec, s: seq<nat>)
    ensures VSum(f, s) == Vec(Sum(XPart(f), s), Sum(YPart(f), s), Sum(ZPart(f), s))
    decreases |s|
  {
    if |s| > 0 {
      VSumComponents(f, s[..|s| - 1]);
    }
  }

  lemma {:induction false} VSumConcat(f: nat -> Vec, a: seq<nat>, b: seq<nat>)
    ensures VSum(f, a + b) == Add(VSum(f, a), VSum(f, b))
    decreases |b|
  {
    if |b| == 0 {
      assert a + b == a;
    } else {
      var b' := b[..|b| - 1];
      assert (a + b)[..|a + b| - 1] == a + b';
      VSumConcat(f, a, b');
    }
  }

  /** A vector sum does not depend on the order of its terms. */
  lemma VSumPerm(f: nat -> Vec, a: seq<nat>, b: seq<nat>)
    requires multiset(a) == multiset(b)
    ensures VSum(f, a) == VSum(f, b)
  {
    VSumComponents(f, a);
    VSumComponents(f, b);
    SumPerm(XPart(f), a, b);
    SumPerm(YPart(f), a, b);
    SumPerm(ZPart(f), a, b);
  }
}
