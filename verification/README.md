# Barnes-Hut octrees

This project models the two octrees of the Barnes-Hut n-body library and
proves properties of them. Both trees store indices into a body table
(`seq<Body>`: a position and a mass) and approximate the gravitational pull
on a body by the pull of distant groups.

- **`otNode`** (`octTree.h`) is a tree of leaves and eight-way internal
  nodes.
  - A leaf that reaches `threshold` bodies splits at the mean position of its
    bodies and re-inserts them.
  - `updateStats` then gives every node its weight, bounding box, barycentre
    and mean box extent.
  - `calcForce` walks the tree. A node is opened unless
    `distance / bboxSize > theta`.
  - `debug` counts leaves and internal nodes and records the depth and the
    largest leaf.
- **`bhqt`** (`bhqt.hpp`) has `leafNode` and `octNode` with NULL-able child
  slots.
  - An `octNode` keeps running totals as bodies arrive: weight, weighted
    position sum, bounding cube and barycentre.
  - A child leaf that holds more than `threshold` bodies becomes an `octNode`
    centred at the mean of its bodies. This happens only when the parent
    `octNode`'s own centre differs from the arriving body's position under
    `point_t::operator==`.
  - The root leaf of `octTree` splits without that guard.
  - `forceForNode` computes the pull with the kernel `w·(p2-p1)/d/(d²+1)`.
  - `getPoint` returns the barycentre of the first node on the path that is
    far enough.
- **`geom.hpp`** provides the shared geometry. `point_t` arithmetic and its
  approximate equality are in `Geom`, as are `cube_t` and `dist3d`.

Modules:
- `Geom`: vectors, cubes, distances and the IEEE ratio tests.
- `Sums`: sums over index sequences, weights, moments and means.
- `OtBox`: `bbox_t`.
- `OtTree`: `otNode` insertion.
- `OtStats`: `updateStats`.
- `OtForce`: `calcForce`.
- `OtDebug`: `debug`.
- `BhNode`: the `bhqt` node invariant.
- `BhInsert`: `bhqt` insertion and the tree constructor.
- `BhForce`: `bhqt` barycentre, force and `getPoint`.

Modelling choices:
- Coordinates and masses are `real`.
- The square root inside `dist3d` and `glm::distance` is a parameter `root`.
- The `otNode::force` kernel is a parameter `kernel`.
- A test `a / b > t` is modelled as its IEEE outcome: when `b` is zero the
  quotient is an infinity or NaN (`RatioAbove`, `RatioBelow`).

Behaviour of the code that the model keeps:
- **Opening test.** The two force traversals and the lookup use different
  tests.
  - `otNode::calcForce` (octTree.h:237) and `octNode::forceForNode`
    (bhqt.hpp:324) approximate a node when `distance / size > theta`.
  - `octNode::getPoint` (bhqt.hpp:295) stops at a node when
    `size / distance < theta`.
- **Split rule.** The two trees split at different counts.
  - `otNode::insert` splits a leaf once its count reaches the threshold
    (`>=`, octTree.h:203).
  - `bhqt` splits a child leaf only past the threshold (`>`, bhqt.hpp:269),
    and only when the parent's centre is not `==` to the arriving body.
- **Leaf capacity.** A `bhqt` leaf can hold more than `threshold` bodies at
  different positions.
  - The guard uses `point_t::operator==`, which compares the sum of the
    signed coordinate differences with 1e-10 (geom.hpp:63-66).
  - So a body whose differences from the centre cancel blocks the split
    (`BhInsert.OverfullLeafExample`).
- **Argument checks.** Neither tree checks its threshold or its opening
  angle. A negative `theta` in `forceForNode` makes the far test pass at
  distance zero when the node's cube has a positive extent, and the force is
  then not a number (see `BhForce.ForceForNode`). With a zero extent as well
  the quotient is NaN and the test fails.
- **Self-interaction.** A leaf skips the query body by identity
  (octTree.h:248, bhqt.hpp:149). A far internal node does not. Its one kernel
  term uses the total weight of its subtree even when the query body is in
  that subtree, so the body's own mass enters its force (octTree.h:237-238,
  `OtForce.FarNodeIsAggregate`).
- **`otNode` recursion.** `otNode::insert` recurses forever when a leaf of
  `threshold` bodies cannot be spread over the octants of its mean. This
  happens when:
  - all those bodies share a position;
  - or `threshold` is 1, since a single body always lies at its own mean;
  - or `threshold` is 0, since the first body alone already meets `1 >= 0`
    and then behaves as in the previous case.

  The model requires the inputs to avoid this (`SplitSafe`, `NoClump`).
  `bhqt` needs no such condition: its centre guard stops the recursion.

## Model

| member | source | states |
|---|---|---|
| Geom.Add | geom.hpp:58-61 | `operator+` adds the vectors coordinate by coordinate |
| Geom.Sub | geom.hpp:45-48 | `operator-` subtracts coordinate by coordinate |
| Geom.Scale | geom.hpp:27-30 | `operator*` multiplies every coordinate by the scalar |
| Geom.AddSubCancel | geom.hpp:45-61 | subtracting what was added gives back the vector, and adding back what was subtracted does too |
| Geom.Div | geom.hpp:32-43 | scaling the quotient back by the divisor gives the original vector |
| Geom.ApproxEqReflexiveSymmetric | geom.hpp:63-71 | `operator==` is reflexive and symmetric, and `operator!=` is its negation |
| Geom.ApproxEqIsNotEquality | geom.hpp:63-66 | `operator==` holds for distinct points whose coordinate differences cancel, e.g. (1,0,0) and (0,1,0) |
| Geom.EqualImpliesApproxEq | geom.hpp:63-66 | identical points are `==` |
| Geom.CubeOfPoint | geom.hpp:103-109 | assigning a point gives a well-formed cube that contains exactly that point |
| Geom.CubeAddPoint | geom.hpp:111-127 | adding a point gives a cube that contains the point and encloses the old cube, keeping it well formed |
| Geom.CubeAddInsidePoint | geom.hpp:111-127 | adding a point already inside leaves the cube unchanged |
| Geom.CubeAddCube | geom.hpp:129-145 | the sum of two cubes encloses both and contains every point of either |
| Geom.CubeAddCubeLeast | geom.hpp:129-145 | the sum is the least cube enclosing both |
| Geom.DefaultCubeKeepsOrigin | geom.hpp:98-102 | growing the default cube by one point still contains the origin as well as the point |
| Geom.CubeCenter | geom.hpp:147-150 | the centre is equidistant from opposite faces and lies inside a well-formed cube |
| Geom.CubeMaxExtent | bhqt.hpp:292 | the box size of `getPoint` is the largest of the three extents |
| Geom.Dist3dProperties | geom.hpp:153-160 | the distance is symmetric, is the root of 0 between equal points, and squares to the sum of squared coordinate differences when `root` is a square root there |
| Geom.RatioAboveNumeratorNonZero | bhqt.hpp:324-329 | with a non-negative threshold, a far test that succeeds has a non-zero distance |
| Geom.RatioAbovePositive | octTree.h:236-237 | for a positive box size the far test is `distance > theta * size` |
| OtBox.AddPoint | octTree.h:37-47 | adding a point to a `bbox_t` gives a set, proper box that holds the point and encloses the old box; from unset it is that point |
| OtBox.AddPointLeast | octTree.h:37-47 | the grown box stays inside any box holding the old corners and the point |
| OtBox.AddBox | octTree.h:32-36 | adding a box gives a set box that encloses both |
| OtBox.Center | octTree.h:49-51 | the centre of a proper box is inside it |
| OtBox.MeanExtent | octTree.h:115-117 | `bboxSize` is the mean of the three extents and non-negative for a proper box |
| Sums.Mean | octTree.h:209-213 | the split centre, the sum of the positions divided by their count (also bhqt.hpp:199-205), times the count is the position sum |
| OtTree.Octant | octTree.h:188-189 | the octant index built from the three `lessThan` comparisons, weighted 2, 1 and 4, is in 0..7 |
| OtTree.OctantInjective | octTree.h:188-189 | two positions share an octant exactly when they are on the same side of the centre on every axis |
| OtTree.Sel | octTree.h:216-219 | the bodies re-inserted into one octant are exactly those of the leaf whose position lies in it |
| OtTree.Distribute | octTree.h:209-219 | a split leaves eight leaves, each holding its octant's bodies |
| OtTree.Insert | octTree.h:186-225 | insertion keeps the tree valid and adds exactly the body; a small leaf appends it; a full leaf becomes an internal node at the mean, with its bodies distributed |
| OtTree.ReinsertAll | octTree.h:209-219 | re-inserting a split leaf's bodies one by one gives the distributed internal node |
| OtTree.Reinsert | octTree.h:209-219 | re-inserting the next body of a split leaf adds it to its octant's leaf, giving the distribution of one more body |
| OtTree.SplitSpreads | octTree.h:203-219 | when not all bodies coincide, no octant of their mean receives all of them |
| OtTree.ReachContains | octTree.h:187-191 | in a routed tree every body is in the leaf its own position reaches |
| OtTree.InsertRouted | octTree.h:186-225 | insertion keeps every body in its own octant |
| OtTree.NoClumpSplitSafe | octTree.h:203 | with fewer than `threshold` bodies per position, no leaf split can recurse forever |
| OtTree.InsertNodes | octTree.h:180-185 | inserting every body gives a valid, routed tree holding exactly those bodies, a single leaf if there are fewer than `threshold` |
| OtStats.Accumulate | octTree.h:119-129 | a leaf's statistics are the total weight and the weighted position sum, in a box holding every body |
| OtStats.Combine | octTree.h:107-117 | an internal node's statistics combine its children's, describing all bodies below it |
| OtStats.UpdateStats | octTree.h:92-131 | after the update every node summarises its subtree and the tree shape is unchanged |
| OtStats.UpdateAll | octTree.h:95-105 | updating the children keeps their shapes and gives every child its statistics |
| OtStats.MeanInBox | octTree.h:123-129 | the weighted mean of bodies inside a box lies in the box |
| OtStats.RootWeight | octTree.h:92-131 | after the update the root of a tree holding the inserted bodies carries their total weight and, when there are bodies, their weighted mean |
| OtStats.BaryInBox | octTree.h:107-131 | every node's barycentre lies in its bounding box |
| OtForce.LeafForce | octTree.h:246-251 | a leaf's force is the exact sum of the kernel over its other bodies |
| OtForce.CalcForce | octTree.h:233-253 | at a leaf the force is exact; when no node is far enough it is the exact sum over the subtree |
| OtForce.ChildForces | octTree.h:240-244 | the children's forces add up to the exact sum when none of them is approximated |
| OtForce.DirectForceOrderFree | octTree.h:246-251 | the exact sum depends only on the multiset of bodies |
| OtForce.FarNodeIsAggregate | octTree.h:236-239 | a far node contributes one kernel term for its total weight at its weighted mean |
| OtForce.ExactWhenNeverFar | octTree.h:233-253 | without far nodes the traversal equals the exact sum over the inserted bodies |
| OtForce.UnsplitIsDirect | octTree.h:246-251 | a tree that never split computes the exact force |
| OtDebug.Debug | octTree.h:267-285 | the counters gain the leaf count, internal count, largest leaf and deepest level of the subtree |
| OtDebug.DebugChildren | octTree.h:280-283 | the children's walk accumulates the counts of all children one level deeper |
| OtDebug.ValidIsEightWay | octTree.h:204-207 | every internal node of a valid tree has eight children |
| OtDebug.LeafInnerCount | octTree.h:204-207 | an eight-way tree has seven leaves per internal node, plus one |
| OtDebug.MaxLeafBelowThreshold | octTree.h:203 | every leaf of a valid tree holds fewer than `threshold` bodies |
| OtDebug.DebugOfValidTree | octTree.h:261-295 | from the root of a valid tree the counters satisfy leaves = 7·inner + 1, the largest leaf is below `threshold` and the depth is the height |
| BhNode.NoChildren | bhqt.hpp:188-191 | a new `octNode` has eight NULL children |
| BhNode.Octant | bhqt.hpp:248-255 | the slot index built from the three `>` comparisons, weighted 2, 1 and 4, is in 0..7 |
| BhNode.OctantSides | bhqt.hpp:248-255 | two positions share a slot exactly when they lie on the same side of the centre on every axis; the centre itself goes to slot 0 |
| BhNode.SlotsUpdate | bhqt.hpp:257-277 | replacing one child slot replaces its bodies in the node's multiset |
| BhNode.ReachSub | bhqt.hpp:248-265 | the leaf a position reaches holds only bodies of the node |
| BhNode.ReachInOctant | bhqt.hpp:248-265 | the bodies the position reaches below an `octNode` lie in that position's octant |
| BhNode.ReachContains | bhqt.hpp:248-265 | in a well-formed tree every body is in the leaf its own position reaches |
| BhInsert.OctInsert | bhqt.hpp:240-278 | insertion keeps the node well formed and adds exactly the body; other slots are untouched; the body's slot becomes an `octNode` exactly when it was one, or its leaf passes the threshold and the centre is not `==` the body; otherwise the leaf gains the body at its end |
| BhInsert.NewChild | bhqt.hpp:257-277 | the body's new slot content holds the slot's old bodies plus the body; it is an `octNode` exactly when the slot was one, or the leaf passes the threshold and the centre is not `==` the body; otherwise it is the leaf with the body appended |
| BhInsert.Construct | bhqt.hpp:184-215 | the constructor's node is centred at the mean, well formed, and holds exactly the given bodies |
| BhInsert.InsertAll | bhqt.hpp:207-212 | the constructor's loop ends holding exactly the listed bodies |
| BhInsert.InsertAllUnfold | bhqt.hpp:207-212 | one turn of the loop inserts the next body and keeps the loop's invariant |
| BhInsert.ConstructStart | bhqt.hpp:184-206 | the constructor's loop starts from an empty node with eight NULL children, centred at the mean, in the loop's invariant |
| BhInsert.InsertAllKeepsSlot | bhqt.hpp:207-212 | a slot that none of the remaining bodies falls into keeps its content to the end of the loop |
| BhInsert.InsertAllMeasure | bhqt.hpp:266-277 | during construction, the leaf a body reaches is smaller than the split leaf, unless the split is blocked by the centre guard, so splitting terminates |
| BhInsert.SameOctantAtMean | bhqt.hpp:199-212 | bodies that all fall in one octant of their mean all sit at the mean |
| BhInsert.CoincidentAtMean | bhqt.hpp:199-205 | coincident bodies sit at their mean |
| BhInsert.AggregatesStep | bhqt.hpp:242-246 | the running weight, position sum, cube and barycentre describe the bodies after one more arrives |
| BhInsert.TreeInsert | bhqt.hpp:366-383 | root insertion keeps the tree well formed and adds exactly the body; a leaf root becomes an `octNode` at the mean exactly when it passes the threshold |
| BhInsert.BuildTree | bhqt.hpp:352-383 | inserting every body gives a well-formed tree holding exactly those bodies, a leaf exactly when there are at most `threshold`, and an `octNode` root weighing their total weight |
| BhInsert.OverfullLeafExample | bhqt.hpp:269-270 | inserting bodies at (1,-1,0), (2,-2,0) and (-3,3,0), of any positive masses, one by one (`InsertEach`) into an empty tree with threshold 1 splits the root at (1.5,-1.5,0) and leaves the first and third bodies, whose positions differ, together in one leaf of slot 1 |
| BhForce.QumWeight | bhqt.hpp:120-132 | a leaf's weight is the total weight of its bodies, positive for positive masses |
| BhForce.Barycenter | bhqt.hpp:103-118 | the leaf barycentre times the total weight is the weighted position sum |
| BhForce.BarycenterInCube | bhqt.hpp:103-118 | a barycentre of bodies inside a cube lies in the cube |
| BhForce.OctBaryInCube | bhqt.hpp:240-246 | an `octNode`'s barycentre lies in its bounding cube and is its weighted mean |
| BhForce.PairForce | bhqt.hpp:152-157 | the pair force times d·(d²+1) is the mass times the offset |
| BhForce.DirectForceOrderFree | bhqt.hpp:147-160 | the exact sum depends only on the multiset of bodies, and the query body adds nothing |
| BhForce.LeafForce | bhqt.hpp:139-162 | a leaf's force is finite exactly when no other held body is at distance zero, and is then the exact sum of pair forces over its other bodies |
| BhForce.ForceForNode | bhqt.hpp:314-342 | a far node's force is finite exactly when the distance to its barycentre is not zero; with `theta >= 0` and no other body at distance zero the force is finite; when no node is far enough it is finite exactly when no other body is at distance zero, and is then the exact sum over the subtree |
| BhForce.SlotsForce | bhqt.hpp:334-338 | the non-NULL children's forces are finite when no other body below is at distance zero and `theta >= 0`, and add up to the exact sum when none of them is approximated |
| BhForce.SlotForce | bhqt.hpp:336-337 | a NULL child contributes the zero vector; a present one is finite and exact under the same conditions as its node |
| BhForce.FarNodeIsAggregate | bhqt.hpp:324-331 | with `theta >= 0`, a far node contributes one finite pair force for its total weight at its weighted mean |
| BhForce.ExactWhenNeverFar | bhqt.hpp:314-342 | without far nodes the traversal is finite exactly when no other inserted body is at distance zero, and then equals the exact sum over the inserted bodies |
| BhForce.GetPoint | bhqt.hpp:290-312 | the result is the barycentre of the first node on the path of `p` that passes `size / distance < theta`; if none does, it is `p` when the path reaches a leaf and undefined when it meets a NULL child |
| BhForce.BodyPathToLeaf | bhqt.hpp:300-310 | in a well-formed tree every body's own position leads to a leaf |
| BhForce.GetPointAtBody | bhqt.hpp:290-312 | looking up a body's own position never meets a NULL child |

## Left out

- Concurrency is left out: `insertNodes` with `std::execution::par_unseq`, the per-node mutex, the retry path when a node changed type under a lock (octTree.h:194-200) and the parallel `updateStats` children. Each operation is modelled as one sequential call.
- `print`, `debug` output, `updatePositions`, the velocity update and the destructors are left out: they are output, simulation stepping or memory management.
- Floating-point rounding and the float/double conversions are left out. Arithmetic is exact over `real`, except that the IEEE outcome of a division by zero is modelled in the far tests.
- The square root used by `dist3d` and `glm::distance` is a parameter `root`. The otNode kernel `otNode::force` is a parameter `kernel`, because its body is a numerical formula whose structure the traversal does not depend on.
- OtStats.UpdateStats: models the statistics computed on a freshly built tree only. The source accumulates with `+=` into existing fields, so a second call would double the weights.
- OtTree.Insert: after a split the source keeps the old `nodes` vector in the now internal node. It is never read again and is not modelled.
- OtTree.Insert: `threshold` is a `nat`. A negative `int` threshold compared with `size_t` in the source never triggers a split, and that case is not modelled.
- OtTree.Insert: requires `SplitSafe`, so the inputs on which `otNode::insert` recurses forever are excluded rather than modelled.
- OtStats.UpdateStats: requires positive masses, because octTree.h:114 and octTree.h:128 divide the barycentre sum by the accumulated weight, which must not be zero. The sums themselves (octTree.h:111, octTree.h:125) accept any masses.
- OtStats.RootWeight: requires positive masses because it is stated about `UpdateStats`, which needs them for its divisions (octTree.h:114, octTree.h:128). The root weight alone would be the total weight for any masses.
- BhInsert.OctInsert: requires positive masses, because the barycentre division at bhqt.hpp:246 needs a non-zero weight.
- BhForce.ForceForNode: a pair term at distance zero divides zero by zero in the source, and the NaN it yields propagates through every later addition. The model does not track IEEE values: such a force is `None`, and the contracts say exactly when it is.
- BhForce.GetPoint: a NULL child on the lookup path dereferences a null pointer in the source. It is modelled as `None`.
- The `octTree::getPoint` and `octTree::forceForNode` wrappers (bhqt.hpp:385-393) only delegate to the root node and have no members of their own.
- The benchmark and driver programs are not part of this model.
