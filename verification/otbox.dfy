/**
 `bbox_t` of the newer tree: a box that starts "unset", takes its first
 point as both corners, and afterwards grows by componentwise min/max.
 */
module OtBox {
  import opened Geom

  datatype BBox = BBox(min: Vec, max: Vec, unset: bool)

  /** A default-initialised box. The corners are irrelevant while `unset`. */
  const UnsetBox: BBox := BBox(Origin, Origin, true)

  function MinV(a: Vec, b: Vec): (r: Vec)
    ensures r.x <= a.x && r.x <= b.x && (r.x == a.x || r.x == b.x)
    ensures r.y <= a.y && r.y <= b.y && (r.y == a.y || r.y == b.y)
    ensures r.z <= a.z && r.z <= b.z && (r.z == a.z || r.z == b.z)
  {
    Vec(if b.x < a.x then b.x else a.x, if b.y < a.y then b.y else a.y, if b.z < a.z then b.z else a.z)
  }

  function MaxV(a: Vec, b: Vec): (r: Vec)
    ensures r.x >= a.x && r.x >= b.x && (r.x == a.x || r.x == b.x)
    ensures r.y >= a.y && r.y >= b.y && (r.y == a.y || r.y == b.y)
    ensures r.z >= a.z && r.z >= b.z && (r.z == a.z || r.z == b.z)
  {
    Vec(if a.x < b.x then b.x else a.x, if a.y < b.y then b.y else a.y, if a.z < b.z then b.z else a.z)
  }

  /** A set box whose corners are ordered on every axis. */
  predicate Proper(b: BBox)
  {
    !b.unset && b.min.x <= b.max.x && b.min.y <= b.max.y && b.min.z <= b.max.z
  }

  /** The point lies in the set box `b`. */
  predicate Holds(b: BBox, p: Vec)
  {
    && !b.unset
    && b.min.x <= p.x <= b.max.x
    && b.min.y <= p.y <= b.max.y
    && b.min.z <= p.z <= b.max.z
  }

  /** Every point held by `inner` is held by `outer`. */
  ghost predicate Encloses(outer: BBox, inner: BBox)
  {
    forall p :: Holds(inner, p) ==> Holds(outer, p)
  }

  /** `bbox_t::operator+=(vec3)`. */
  function AddPoint(b: BBox, p: Vec): (r: BBox)
    ensures Holds(r, p)
    ensures b.unset ==> r.min == p && r.max == p
    ensures Encloses(r, b)
    ensures b.unset || Proper(b) ==> Proper(r)
  {
    if b.unset then BBox(p, p, false) else BBox(MinV(b.min, p), MaxV(b.max, p), false)
  }

  /** The box grown by a point is the least box holding the old box and the point. */
  lemma AddPointLeast(b: BBox, p: Vec, e: BBox)
    requires Proper(b) && Holds(e, p) && Holds(e, b.min) && Holds(e, b.max)
    ensures Holds(e, AddPoint(b, p).min) && Holds(e, AddPoint(b, p).max)
  {
  }

  /** `bbox_t::operator+=(bbox_t)`: adds the other box's two corners. */
  function AddBox(b: BBox, c: BBox): (r: BBox)
    ensures !r.unset
    ensures Encloses(r, b)
    ensures Proper(c) ==> Encloses(r, c)
    ensures (b.unset || Proper(b)) ==> Proper(r)
  {
    var r := AddPoint(AddPoint(b, c.min), c.max);
    assert Proper(c) ==> forall p :: Holds(c, p) ==> Holds(r, p);
    r
  }

  /** `bbox_t::center`: the midpoint of the two corners. */
  function Center(b: BBox): (r: Vec)
    ensures Proper(b) ==> Holds(b, r)
  {
    Vec((b.min.x + b.max.x) / 2.0, (b.min.y + b.max.y) / 2.0, (b.min.z + b.max.z) / 2.0)
  }

  /** The mean of the three extents (`bboxSize` of an internal node). */
  function MeanExtent(b: BBox): (r: real)
    ensures Proper(b) ==> r >= 0.0
    ensures 3.0 * r == (b.max.x - b.min.x) + (b.max.y - b.min.y) + (b.max.z - b.min.z)
  {
    ((b.max.x - b.min.x) + (b.max.y - b.min.y) + (b.max.z - b.min.z)) / 3.0
  }
}
