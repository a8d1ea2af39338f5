/**
 The geometry layer shared by both octrees: 3-vectors (`point_t` in the
 older tree, `glm::vec3` in the newer one), the axis-aligned `cube_t`, the
 distance helpers, and the two floating-point ratio tests used as opening
 criteria. Coordinates are exact reals; rounding is not modelled.
 */
module Geom {

  /** A point or vector in 3D space. */
  datatype Vec = Vec(x: real, y: real, z: real)

  const Origin: Vec := Vec(0.0, 0.0, 0.0)

  function Add(p: Vec, q: Vec): (r: Vec)
    ensures r.x == p.x + q.x && r.y == p.y + q.y && r.z == p.z + q.z
  {
    Vec(p.x + q.x, p.y + q.y, p.z + q.z)
  }

  function Sub(p: Vec, q: Vec): (r: Vec)
    ensures r.x == p.x - q.x && r.y == p.y - q.y && r.z == p.z - q.z
  {
    Vec(p.x - q.x, p.y - q.y, p.z - q.z)
  }

  function Scale(p: Vec, s: real): (r: Vec)
    ensures r.x == p.x * s && r.y == p.y * s && r.z == p.z * s
  {
    Vec(p.x * s, p.y * s, p.z * s)
  }

  function Div(p: Vec, s: real): (r: Vec)
    requires s != 0.0
    ensures Scale(r, s) == p
  {
    Vec(p.x / s, p.y / s, p.z / s)
  }

  /** Subtraction undoes addition, componentwise. */
  lemma AddSubCancel(p: Vec, q: Vec)
    ensures Sub(Add(p, q), q) == p
    ensures Add(Sub(p, q), q) == p
  {
  }

  /** Scaling back a quotient returns the dividend, and dividing a
      scaled vector by the same non-zero scalar returns the vector. */
  lemma ScaleDivCancel(p: Vec, s: real)
    requires s != 0.0
    ensures Div(Scale(p, s), s) == p
  {
  }

  /** Scaling twice scales by the product. */
  lemma ScaleScale(p: Vec, a: real, b: real)
    ensures Scale(Scale(p, a), b) == Scale(p, a * b)
  {
  }

  /**
   `point_t::operator==`: the absolute value of the SUM of the three
   coordinate differences is below 1e-10. This is not coordinate equality.
   */
  predicate ApproxEq(p: Vec, q: Vec)
  {
    var d := q.x - p.x + q.y - p.y + q.z - p.z;
    (if d < 0.0 then -d else d) < 0.0000000001
  }

  /** `point_t::operator!=`. */
  predicate NotApproxEq(p: Vec, q: Vec)
  {
    !ApproxEq(p, q)
  }

  lemma ApproxEqReflexiveSymmetric(p: Vec, q: Vec)
    ensures ApproxEq(p, p)
    ensures ApproxEq(p, q) <==> ApproxEq(q, p)
    ensures NotApproxEq(p, q) <==> !ApproxEq(p, q)
  {
  }

  /** Distinct points that the equality test nevertheless identifies. */
  lemma ApproxEqIsNotEquality()
    ensures ApproxEq(Vec(1.0, 0.0, 0.0), Vec(0.0, 1.0, 0.0))
    ensures Vec(1.0, 0.0, 0.0) != Vec(0.0, 1.0, 0.0)
    ensures ApproxEq(Origin, Vec(5.0, -2.0, -3.0))
  {
  }

  /** Coordinate equality implies the equality test. */
  lemma EqualImpliesApproxEq(p: Vec, q: Vec)
    requires p == q
    ensures ApproxEq(p, q)
  {
  }

  /** `cube_t`: an axis-aligned box given by its six faces. */
  datatype Cube = Cube(left: real, right: real, top: real, bottom: real, front: real, back: real)

  /** The default-constructed cube: every face at 0. */
  const DefaultCube: Cube := Cube(0.0, 0.0, 0.0, 0.0, 0.0, 0.0)

  predicate CubeWellFormed(c: Cube)
  {
    c.left <= c.right && c.bottom <= c.top && c.back <= c.front
  }

  predicate CubeContains(c: Cube, p: Vec)
  {
    c.left <= p.x <= c.right && c.bottom <= p.y <= c.top && c.back <= p.z <= c.front
  }

  /** Every face of `outer` lies at or beyond the matching face of `inner`. */
  predicate CubeEncloses(outer: Cube, inner: Cube)
  {
    && outer.left <= inner.left && inner.right <= outer.right
    && outer.bottom <= inner.bottom && inner.top <= outer.top
    && outer.back <= inner.back && inner.front <= outer.front
  }

  /** `cube_t::operator=(point_t)`: the degenerate box at one point. */
  function CubeOfPoint(p: Vec): (r: Cube)
    ensures CubeWellFormed(r) && CubeContains(r, p)
    ensures forall q :: CubeContains(r, q) <==> q == p
  {
    Cube(p.x, p.x, p.y, p.y, p.z, p.z)
  }

  /** `cube_t::operator+=(point_t)`: each face moves out to the point if the
      point lies beyond it. */
  function CubeAddPoint(c: Cube, p: Vec): (r: Cube)
    ensures CubeContains(r, p)
    ensures CubeEncloses(r, c)
    ensures CubeWellFormed(c) ==> CubeWellFormed(r)
    ensures forall q :: CubeContains(c, q) ==> CubeContains(r, q)
  {
    Cube(if p.x < c.left then p.x else c.left,
         if p.x > c.right then p.x else c.right,
         if p.y > c.top then p.y else c.top,
         if p.y < c.bottom then p.y else c.bottom,
         if p.z > c.front then p.z else c.front,
         if p.z < c.back then p.z else c.back)
  }

  /** Adding a point that is already inside a box leaves the box unchanged. */
  lemma CubeAddInsidePoint(c: Cube, p: Vec)
    requires CubeContains(c, p)
    ensures CubeAddPoint(c, p) == c
  {
  }

  /** `cube_t::operator+=(cube_t)`: each face moves out to the other box's face. */
  function CubeAddCube(c: Cube, d: Cube): (r: Cube)
    ensures CubeEncloses(r, c) && CubeEncloses(r, d)
    ensures forall q :: CubeContains(c, q) || CubeContains(d, q) ==> CubeContains(r, q)
    ensures CubeWellFormed(c) ==> CubeWellFormed(r)
  {
    Cube(if d.left < c.left then d.left else c.left,
         if d.right > c.right then d.right else c.right,
         if d.top > c.top then d.top else c.top,
         if d.bottom < c.bottom then d.bottom else c.bottom,
         if d.front > c.front then d.front else c.front,
         if d.back < c.back then d.back else c.back)
  }

  /** The union is the smallest box that encloses both operands. */
  lemma CubeAddCubeLeast(c: Cube, d: Cube, e: Cube)
    requires CubeEncloses(e, c) && CubeEncloses(e, d)
    ensures CubeEncloses(e, CubeAddCube(c, d))
  {
  }

  /** A default box that has grown by a point still holds the origin. */
  lemma DefaultCubeKeepsOrigin(p: Vec)
    ensures CubeContains(CubeAddPoint(DefaultCube, p), Origin)
    ensures CubeContains(CubeAddPoint(DefaultCube, p), p)
  {
  }

  /** `cube_t::center`: the per-axis midpoint. */
  function CubeCenter(c: Cube): (r: Vec)
    ensures CubeWellFormed(c) ==> CubeContains(c, r)
    ensures r.x - c.left == c.right - r.x
    ensures r.y - c.bottom == c.top - r.y
    ensures r.z - c.back == c.front - r.z
  {
    Vec((c.right + c.left) / 2.0, (c.top + c.bottom) / 2.0, (c.front + c.back) / 2.0)
  }

  /** The largest extent of a box (the opening-test size of the older tree). */
  function CubeMaxExtent(c: Cube): (r: real)
    ensures r >= c.top - c.bottom && r >= c.right - c.left && r >= c.front - c.back
    ensures r == c.top - c.bottom || r == c.right - c.left || r == c.front - c.back
  {
    var a := if c.top - c.bottom > c.right - c.left then c.top - c.bottom else c.right - c.left;
    if a > c.front - c.back then a else c.front - c.back
  }

  /** The squared Euclidean distance. */
  function DistSq(p: Vec, q: Vec): real
  {
    (q.x - p.x) * (q.x - p.x) + (q.y - p.y) * (q.y - p.y) + (q.z - p.z) * (q.z - p.z)
  }

  lemma DistSqProperties(p: Vec, q: Vec)
    ensures DistSq(p, q) == DistSq(q, p)
    ensures DistSq(p, q) >= 0.0
    ensures DistSq(p, p) == 0.0
  {
  }

  /** `dist3d`: the square root of the squared distance, where the square
      root is supplied by the caller. */
  function Dist3d(root: real -> real, p: Vec, q: Vec): real
  {
    root(DistSq(p, q))
  }

  /** For any square root, the distance is symmetric and a point's distance
      to itself is the root of zero; when `root` is a square root at the
      squared distance, squaring the distance gives back DistSq. */
  lemma Dist3dProperties(root: real -> real, p: Vec, q: Vec)
    ensures Dist3d(root, p, q) == Dist3d(root, q, p)
    ensures Dist3d(root, p, p) == root(0.0)
    ensures root(DistSq(p, q)) * root(DistSq(p, q)) == DistSq(p, q) ==>
              Dist3d(root, p, q) * Dist3d(root, p, q) ==
                (q.x - p.x) * (q.x - p.x) + (q.y - p.y) * (q.y - p.y) + (q.z - p.z) * (q.z - p.z)
  {
    DistSqProperties(p, q);
    assert DistSq(p, p) == 0.0;
  }

  /**
   The floating-point test `num / den > theta`. When `den` is zero the
   quotient is +infinity for a positive `num` (true for any finite
   threshold), NaN for a zero `num` (false) and -infinity otherwise (false).
   */
  predicate RatioAbove(num: real, den: real, theta: real)
  {
    if den == 0.0 then num > 0.0 else num / den > theta
  }

  /** The floating-point test `num / den < theta`, with the same reading of a
      zero denominator. */
  predicate RatioBelow(num: real, den: real, theta: real)
  {
    if den == 0.0 then num < 0.0 else num / den < theta
  }

  /** With a non-negative threshold, a ratio that passes the test has a non-zero
      numerator, so dividing by it afterwards is safe. */
  lemma RatioAboveNumeratorNonZero(num: real, den: real, theta: real)
    requires theta >= 0.0 && RatioAbove(num, den, theta)
    ensures num != 0.0
  {
  }

  /** For a positive denominator the test is the exact comparison
      `num > theta * den`. */
  lemma RatioAbovePositive(num: real, den: real, theta: real)
    requires den > 0.0
    ensures RatioAbove(num, den, theta) <==> num > theta * den
  {
    assert num / den * den == num;
    if num / den > theta {
      assert num / den * den > theta * den;
    } else {
      assert num / den * den <= theta * den;
    }
  }
}
