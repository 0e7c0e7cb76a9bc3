# Ray tracer core, modelled in Dafny

This project models the discrete and algebraic core of a small C++ ray
tracer. Each module covers one part of it:

- **Boxes**: axis-aligned bounding boxes (`RayTracer/AABB.cpp`, and the older
  struct `AABB` in `RayTracer/SceneObjects.hpp` where it differs). Covers the
  slab ray test, point containment, the longest axis, the midpoint, the
  split and expansion by a shape.
- **Shapes**: spheres and triangles (`RayTracer/Sphere.cpp`, the `Triangle.cpp`
  under `enc_temp_folder/`, the tagged `Shape` of `SceneObjects.hpp`). Covers
  their bounds, the 13-axis separating-axis test and the clamped-point test
  the partition uses, and their ray intersections.
- **Partition**: the spatial partition tree (`RayTracer/Partition.h`,
  `RayTracer/Partition.cpp`). Covers build by insertion and splitting, and
  the nearest-hit query.
- **Colors**: the float-channel `Color` (`SceneObjects.hpp`, repeated in
  `RayTracer/Color.cpp`). Covers truncate-then-clamp to 8-bit channels and
  componentwise addition.
- **Preview**: the stand-alone preview renderer of `RayTracer/main.cpp`. Covers
  its own sphere and triangle intersections that use -1 for "no hit", the
  linear closest-object scan, and the loop that fills the BGR pixel buffer.
- **Scene**: the scene-file interpreter of `RayTracer/Scene.cpp`, as a state
  machine over already-parsed lines. Covers the transform stack with a
  guarded pop, the light and object caps, vertex and vertex-normal storage,
  materials, defaults and `readvals` failure.

Floats become exact `real`s. Every "+infinity means no hit" sentinel becomes
`Option` (`Geometry.Intersection`). The `Intersection` constructor normalises the
normal it is given; sphere and triangle hits model this with
`Shapes.HitNormal`, and a box hit's face normal is already a unit vector. The default-constructed empty box, with
min = +inf and max = -inf, becomes the datatype case `Boxes.EmptyBox`, and
its IEEE behaviour is written out case by case. Square roots are not
definable over `real`, so every operation that needs one takes `sqrt` as a
parameter, and the lemmas that need a faithful one require
`Geometry.IsSqrt(sqrt)`. Matrices in the scene are a free term algebra
(`Identity | Translate | ScaleBy | Rotate | Mul`). The sphere's object
transform is a `Shapes.Frame` of three given maps.

Latent bugs of the source are reproduced, not repaired, and each has a
lemma that exhibits it:

- `getMidPoint` computes `max - min / 2` (`Boxes.MidPointIsCentreOnlyWhenMaxDoublesMin`,
  `Boxes.SplitCanLeaveTheBox`).
- The switch in `splitLeft`/`splitRight` falls through, so every split cuts
  on Z (`Boxes.SplitIgnoresAxis`).
- The two longest-axis rules disagree (`Boxes.LongestAxisRulesDiffer`).
- The sphere roots are `(-b ± √d) / 2 * a`. `Sphere::intersect` normalises the local direction, so a = 1 and the slip never changes a result (`Shapes.UnitDirectionMasksPrecedence`). `Shapes.NonUnitDirectionScalesRoot` shows what the formula would do with a = 4.
- A ray from inside a sphere misses it (`Shapes.RayFromInsideMisses`).
- The preview triangle test projects onto the xy plane
  (`Preview.PreviewTriangleEdgeOn`).
- With the split threshold of 5, the partition's constructor never splits
  (`Partition.BuildIsOneLeaf`).

## Model

| member | source | states |
|---|---|---|
| Geometry.IsValid | RayTracer/SceneObjects.hpp:76-78 | an intersection is valid exactly when it is not the default-constructed one, whose distance is +infinity; every `Hit` carries a finite distance |
| Boxes.SlabDivisor | RayTracer/AABB.cpp:48-53 | a direction component within 0.0001 of zero is replaced by 0.00001, so every slab divisor is nonzero and at least 0.00001 in size |
| Boxes.SlabTimes | RayTracer/AABB.cpp:48-53 | each of t1..t6, multiplied by its axis's substituted divisor, is the offset from the ray origin to that min or max plane, i.e. t = (plane - origin) / divisor |
| Boxes.EntryTime | RayTracer/AABB.cpp:55 | tmin is one of t1..t6 and is at least the nearer time of every axis pair |
| Boxes.ExitTime | RayTracer/AABB.cpp:56 | tmax is one of t1..t6 and is at most the farther time of every axis pair |
| Boxes.ScanNormals | RayTracer/AABB.cpp:83-89 | the normal scan over t1..t6 keeps a chosen index once it has one, and any index it returns is in range |
| Boxes.Intersect | RayTracer/AABB.cpp:44-91 | the empty box is never hit; a hit lies at a non-negative distance and has no object index (exact miss condition, distance and normal in IntersectMissesExactly, IntersectDistance and IntersectNormal) |
| Boxes.IntersectMissesExactly | RayTracer/AABB.cpp:55-67 | the box test reports no hit exactly when tmax < 0 or tmin > tmax |
| Boxes.IntersectDistance | RayTracer/AABB.cpp:68-73 | a reported distance is tmin when tmin >= 0 and tmax otherwise, so it lies in [0, tmax] and is at least tmin |
| Boxes.ScanNormalsLast | RayTracer/AABB.cpp:85-89 | the scan picks the last of t1..t6 within 0.0001 of the hit distance, or none if there is no such time |
| Boxes.IntersectNormal | RayTracer/AABB.cpp:75-90 | the reported normal is the face normal of the last slab time within 0.0001 of the distance, and such a time always exists |
| Boxes.LegacyIntersects | RayTracer/SceneObjects.hpp:133-158 | the older bool slab test; its relation to the hit test is LegacyIntersectsAgrees |
| Boxes.LegacyIntersectsAgrees | RayTracer/SceneObjects.hpp:133-158 | the older bool test agrees with the hit test on a proper box; on the empty box it answers true while the hit test misses |
| Boxes.Contains | RayTracer/AABB.cpp:93-95 | a box that contains any point is a proper box with ordered corners (inclusive faces in ContainsCorners) |
| Boxes.ContainsCorners | RayTracer/AABB.cpp:93-95 | containment is inclusive on all six faces: an ordered box contains both of its corners |
| Boxes.LongestAxis | RayTracer/AABB.cpp:97-106 | the returned axis has a maximal extent; Y is returned only when it beats Z and X only when it beats both (ties prefer Z, then Y); the empty box gives Z |
| Boxes.LegacyLongestAxis | RayTracer/SceneObjects.hpp:168-177 | the older rule compares max-corner coordinates, not extents, with the same tie priority Z, Y, X |
| Boxes.LongestAxisRulesDiffer | RayTracer/SceneObjects.hpp:168-177 | on the box (-10,0,0)..(1,1,2) the extent rule picks X and the max-corner rule picks Z |
| Boxes.MidPoint | RayTracer/AABB.cpp:108-110 | getMidPoint as written, max - min / 2; when it is the centre is MidPointIsCentreOnlyWhenMaxDoublesMin |
| Boxes.MidPointIsCentreOnlyWhenMaxDoublesMin | RayTracer/AABB.cpp:108-110 | getMidPoint equals the true centre if and only if max = 2 * min |
| Boxes.RunCasesFromLast | RayTracer/AABB.cpp:116-123 | a switch that falls through from any case runs every later case, so the value left is the last case's |
| Boxes.SplitLeft | RayTracer/AABB.cpp:112-125 | the left half keeps min, max.x and max.y and cuts z at the midpoint's z; the empty box splits into empty boxes |
| Boxes.SplitRight | RayTracer/AABB.cpp:127-140 | the right half keeps max, min.x and min.y and starts z at the midpoint's z; the empty box splits into empty boxes |
| Boxes.LegacySplitLeft | RayTracer/SceneObjects.hpp:94-107 | the older left split on the max-corner axis; SplitIgnoresAxis shows it equals SplitLeft |
| Boxes.LegacySplitRight | RayTracer/SceneObjects.hpp:109-122 | the older right split on the max-corner axis; SplitIgnoresAxis shows it equals SplitRight |
| Boxes.SplitIgnoresAxis | RayTracer/SceneObjects.hpp:94-122 | splitting along the longest axis with fall-through gives the same halves as cutting on Z, in both the old and the new box |
| Boxes.SplitHalvesMeet | RayTracer/AABB.cpp:112-140 | the halves meet at z = max.z - min.z / 2; left keeps min, max.x and max.y, right keeps max, min.x and min.y |
| Boxes.SplitCoversWhenCutInside | RayTracer/AABB.cpp:112-140 | when the cut lies within the box's z range, every point of the box is in one of the halves |
| Boxes.SplitCanLeaveTheBox | RayTracer/AABB.cpp:108-140 | on a box spanning z in [-4, 0] the left half pokes out above the box and the right half is inverted |
| Boxes.Expand | RayTracer/AABB.cpp:142-149 | expansion never shrinks the box and afterwards covers the given bounds; the empty box becomes exactly those bounds |
| Boxes.ExpandIdempotent | RayTracer/AABB.cpp:142-149 | expanding twice by the same bounds is expanding once |
| Boxes.ExpandCommutes | RayTracer/SceneObjects.hpp:124-131 | expanding by two shapes gives the same box in either order |
| Boxes.ExpandKeepsPoints | RayTracer/AABB.cpp:142-149 | a point the box contained is still contained after expansion |
| Shapes.Lo | enc_temp_folder/355ac0471f32ff1c9ecc86a47c2c8a/Triangle.cpp:36-44 | a triangle's low corner is below every vertex on every axis and is a vertex coordinate on each axis; a sphere's is centre minus radius |
| Shapes.Hi | enc_temp_folder/355ac0471f32ff1c9ecc86a47c2c8a/Triangle.cpp:45-53 | a triangle's high corner is above every vertex on every axis and is a vertex coordinate on each axis; a sphere's is centre plus radius |
| Shapes.BoundsOrdered | RayTracer/Sphere.cpp:16-35 | triangle bounds are always ordered; sphere bounds are ordered exactly when the radius is not negative |
| Shapes.ExpandCoversShape | RayTracer/AABB.cpp:142-149 | after expanding by a shape, the box contains every triangle vertex, or the centre of a sphere of non-negative radius |
| Shapes.PlaneNormal | enc_temp_folder/355ac0471f32ff1c9ecc86a47c2c8a/Triangle.cpp:206-209 | the plane normal is perpendicular to both edges from v1 |
| Shapes.FlatTriangle | enc_temp_folder/355ac0471f32ff1c9ecc86a47c2c8a/Triangle.cpp:25-34 | the constructor without normals keeps the vertices and gives all three vertex normals the same value |
| Shapes.FlatNormalPerpendicular | enc_temp_folder/355ac0471f32ff1c9ecc86a47c2c8a/Triangle.cpp:29-33 | without a transform, the flat normal is perpendicular to all three edges |
| Shapes.OverlapOnAxis | enc_temp_folder/355ac0471f32ff1c9ecc86a47c2c8a/Triangle.cpp:95-99 | the box and triangle intervals on one axis overlap (closed intervals; OverlapIffCommonPoint) |
| Shapes.OverlapSymmetric | enc_temp_folder/355ac0471f32ff1c9ecc86a47c2c8a/Triangle.cpp:95-99 | closed-interval overlap is symmetric in its two intervals |
| Shapes.OverlapIffCommonPoint | enc_temp_folder/355ac0471f32ff1c9ecc86a47c2c8a/Triangle.cpp:95-99 | two proper closed intervals overlap exactly when some point lies in both |
| Shapes.TriangleInterval | enc_temp_folder/355ac0471f32ff1c9ecc86a47c2c8a/Triangle.cpp:102-116 | the triangle's interval on an axis has lo <= hi, contains every projected vertex, and both ends are projections |
| Shapes.Widen | enc_temp_folder/355ac0471f32ff1c9ecc86a47c2c8a/Triangle.cpp:136-140 | the corner loop only widens the interval, covers every remaining projection, and each end is the start value or a projection |
| Shapes.BoxInterval | enc_temp_folder/355ac0471f32ff1c9ecc86a47c2c8a/Triangle.cpp:118-143 | the box's interval on an axis has lo <= hi, contains every corner's projection, and both ends are corner projections |
| Shapes.NoSeparatingAxis | RayTracer/SceneObjects.hpp:270-307 | the axis loop succeeds exactly when the intervals overlap on every remaining axis |
| Shapes.TriangleInside | enc_temp_folder/355ac0471f32ff1c9ecc86a47c2c8a/Triangle.cpp:56-93 | the triangle touches a box exactly when the box is proper and none of the 13 axes separates them |
| Shapes.AxisOrderIrrelevant | enc_temp_folder/355ac0471f32ff1c9ecc86a47c2c8a/Triangle.cpp:56-93 | testing the same axes in any order gives the same answer |
| Shapes.EdgeCrossIsPlaneNormal | enc_temp_folder/355ac0471f32ff1c9ecc86a47c2c8a/Triangle.cpp:146-160 | cross(e1, e2) equals calculatePlaneNormal(), so totalArea = dot(n, n) / 2 |
| Shapes.TotalArea | enc_temp_folder/355ac0471f32ff1c9ecc86a47c2c8a/Triangle.cpp:160 | totalArea = dot(cross(e1, e2), n) / 2; positive for a non-degenerate triangle by TotalAreaPositive |
| Shapes.TotalAreaPositive | enc_temp_folder/355ac0471f32ff1c9ecc86a47c2c8a/Triangle.cpp:160 | totalArea is positive whenever the plane normal is nonzero |
| Shapes.NotParallelToZero | enc_temp_folder/355ac0471f32ff1c9ecc86a47c2c8a/Triangle.cpp:150 | passing the parallel test implies the normal is nonzero, so every later division is by a nonzero value |
| Shapes.HalvedQuotientSign | enc_temp_folder/355ac0471f32ff1c9ecc86a47c2c8a/Triangle.cpp:161-163 | with a positive total area, each normalised signed area has the sign of its numerator |
| Shapes.TriangleHit | enc_temp_folder/355ac0471f32ff1c9ecc86a47c2c8a/Triangle.cpp:145-168 | a ray near-parallel to the plane misses; a hit carries the normalised plane normal (as the `Intersection` constructor stores it) and no object index |
| Shapes.TriangleIntersect | enc_temp_folder/355ac0471f32ff1c9ecc86a47c2c8a/Triangle.cpp:150-166 | with |dot(dir, n)| < 0.00001 there is no hit; a hit carries the normalised plane normal, which under a faithful sqrt is a unit vector perpendicular to both edges from v1 and on the plane normal's side |
| Shapes.LegacyTriangleIntersect | RayTracer/SceneObjects.hpp:359-383 | the older variant misses when |dot(dir, n)| < 0.01; a hit carries cross(e1, e2) normalised, which is the normalised plane normal: under a faithful sqrt a unit vector perpendicular to both edges from v1 |
| Shapes.TriangleHitExactly | enc_temp_folder/355ac0471f32ff1c9ecc86a47c2c8a/Triangle.cpp:150-166 | a hit happens exactly when the ray is not near-parallel, the plane is at least minT ahead, and the plane point is inside or on every edge; the point then lies on the plane and the distance is its distance from the origin |
| Shapes.LegacyTriangleHitsAgree | RayTracer/SceneObjects.hpp:359-383 | whatever the older variant hits, Triangle.cpp hits with the identical result |
| Shapes.Discriminant | RayTracer/Sphere.cpp:76-78 | b^2 - 4ac; NegativeDiscriminantNoRoot and DiscriminantRoots state what its sign means |
| Shapes.NegativeDiscriminantNoRoot | RayTracer/Sphere.cpp:76-78 | with b^2 - 4ac < 0 the quadratic has no real root |
| Shapes.DiscriminantRoots | RayTracer/Sphere.cpp:58-63 | with s^2 = b^2 - 4ac the textbook values (-b ± s) / (2a) are roots |
| Shapes.SphereQuadraticMeaning | RayTracer/Sphere.cpp:55-57 | the quadratic's value at t is the squared distance of the ray point from the centre minus radius^2 |
| Shapes.SphereRoot | RayTracer/Sphere.cpp:58-68 | no hit with a negative discriminant; otherwise, with x1, x2 = ((-b ± sqrt d) / 2) * a, no hit exactly when either is below 0.005, and a hit is one of them, no larger than either, and at least 0.005: the smaller root or nothing, never the larger in its place |
| Shapes.PickRoot | RayTracer/Sphere.cpp:62-68 | with x1, x2 = ((-b ± s) / 2) * a: no result exactly when min(x1, x2) < 0.005; otherwise the result is one of them and no larger than either, so the smaller root below 0.005 is rejected, never replaced by the larger |
| Shapes.SqrtOfSquare | RayTracer/Sphere.cpp:58-63 | a faithful square root of k * k is k, for k >= 0 |
| Shapes.SphereRootOnSphere | RayTracer/Sphere.cpp:55-69 | with a unit local direction the chosen root is a point on the sphere |
| Shapes.SphereMissIsGenuine | RayTracer/Sphere.cpp:59-61 | with a negative discriminant no point of the ray's line is on the sphere |
| Shapes.RayFromInsideMisses | RayTracer/Sphere.cpp:64-68 | a ray from the centre of the unit sphere misses it, though the point at distance 1 is on the surface |
| Shapes.NonUnitDirectionScalesRoot | RayTracer/Sphere.cpp:62-63 | evaluated at a = 4 (a direction Sphere::intersect never passes, see UnitDirectionMasksPrecedence) the formula as written picks 32, far beyond the sphere, whose near surface is at distance 2 |
| Shapes.UnitDirectionMasksPrecedence | RayTracer/Sphere.cpp:54-68 | with a unit local direction, as Sphere::intersect makes it by normalising, the roots as written are the textbook smaller root (-b ± sqrt d) / (2a) with the same 0.005 threshold |
| Shapes.ConcreteQuadratic | RayTracer/Sphere.cpp:55-58 | the coefficients and discriminant of the two example rays about the unit sphere |
| Shapes.ConcreteRoots | RayTracer/Sphere.cpp:62-68 | the root choice on the two example quadratics |
| Shapes.SphereIntersect | RayTracer/Sphere.cpp:53-74 | a hit exists exactly when the local ray has a root; a hit has no object index and, with a faithful sqrt, a non-negative distance and a normal that is a unit vector (or zero, for a degenerate transform) |
| Shapes.Normalize | RayTracer/SceneObjects.hpp:80 | glm::normalize, none for the zero vector; NormalizeIsUnit states it succeeds exactly on non-zero vectors with a unit result |
| Shapes.NormalizeIsUnit | RayTracer/SceneObjects.hpp:80 | with a faithful sqrt, normalize succeeds exactly on non-zero vectors and gives the unit vector v / length(v) |
| Shapes.HitNormal | RayTracer/SceneObjects.hpp:80 | the normal an intersection keeps is, with a faithful sqrt, a unit vector that normalize yields for a non-zero input, and zero for the zero vector |
| Shapes.HitNormalOfPlane | RayTracer/SceneObjects.hpp:80 | the kept normal of a non-degenerate triangle's plane normal is a unit vector perpendicular to both edges from v1, on the plane normal's side |
| Shapes.ClampCoord | RayTracer/Sphere.cpp:40-42 | the clamped coordinate lies in [lo, hi] when lo <= hi and is the coordinate itself when already inside |
| Shapes.ClampedPoint | RayTracer/Sphere.cpp:40-42 | the clamped point lies in an ordered box and equals the centre when the box contains the centre |
| Shapes.SphereInside | RayTracer/Sphere.cpp:37-51 | never inside the empty box; inside whenever the box contains the centre or the clamped point is nearer than the radius |
| Shapes.ClampCoordNearest | RayTracer/Sphere.cpp:40-42 | on one axis the clamped coordinate is at least as near the centre as any coordinate in the range |
| Shapes.ClampedPointNearest | RayTracer/Sphere.cpp:40-47 | the clamped point is the point of the box nearest the centre |
| Shapes.SphereInsideWhenTouching | RayTracer/Sphere.cpp:37-51 | if any point of the box is strictly within the radius of the centre, the sphere is inside the box |
| Shapes.Intersect | RayTracer/SceneObjects.hpp:412-417 | the dispatch on the shape's kind returns a hit with no object index; with a faithful sqrt its normal is a unit vector (or zero), and a triangle's is the unit plane normal |
| Shapes.LegacyIntersect | RayTracer/SceneObjects.hpp:412-417 | any hit of the older dispatch is also the hit of the current one |
| Shapes.Inside | RayTracer/SceneObjects.hpp:253-267 | the touch test dispatches on the shape kind, and no shape touches the empty box |
| Partition.SplitDue | RayTracer/Partition.cpp:47-56 | the split test is size / count > 5; a non-empty list no larger than its count never passes it |
| Partition.Insert | RayTracer/Partition.cpp:47-66 | a leaf appends the object unconditionally and splits only when the test passes; an interior node keeps its own list; the box and count never change |
| Partition.InsertForwards | RayTracer/Partition.cpp:57-65 | an interior node forwards the object to each child whose box it touches, possibly both, and leaves the others unchanged |
| Partition.Split | RayTracer/Partition.cpp:72-87 | only a childless node splits: its children get the two box halves, a count equal to its size and all of its objects; the parent keeps its list |
| Partition.Fill | RayTracer/Partition.cpp:76-85 | the split loop leaves both children holding exactly the parent's objects appended, so the sibling-redirection branches never fire |
| Partition.SplitChildrenNonEmpty | RayTracer/Partition.cpp:76-84 | after splitting a non-empty leaf, both children are non-empty leaves |
| Partition.LaterInsertSplits | RayTracer/Partition.cpp:47-56 | after construction an insertion can still split: a leaf counted for 1 object splits at its sixth |
| Partition.IsEmpty | RayTracer/Partition.h:24-26 | a node is empty when it holds no objects (used by SplitChildrenNonEmpty) |
| Partition.IsLeaf | RayTracer/Partition.h:27-29 | a node is a leaf when both children are null (used by Insert, Split and InsertForwards) |
| Partition.LeafScan | RayTracer/Partition.h:30-42 | findClosestIntersection over a node's objects: the whole-list Scan, whose contract states the nearest hit |
| Partition.Scan | RayTracer/Partition.h:30-42 | the leaf scan has no hit iff no object hits; otherwise its distance is minimal, ties go to the lowest position, the value is that object's own result, and objectIndex is that leaf-local position |
| Partition.Nearer | RayTracer/Partition.cpp:33-44 | no hit iff neither child hits; otherwise the valid result with the smaller distance, the left one on ties |
| Partition.Query | RayTracer/Partition.cpp:26-45 | no hit for a null node or a missed box; a leaf whose box is hit delegates to its leaf scan |
| Partition.QueryIsNearestReached | RayTracer/Partition.cpp:26-45 | the query has no hit iff no object in a reached leaf is hit; otherwise it returns the distance of one of them, which is no greater than any of theirs |
| Partition.Enclose | RayTracer/Partition.cpp:7-11 | the root box is empty exactly for no objects and otherwise covers every object's bounds |
| Partition.InsertAll | RayTracer/Partition.cpp:11-14 | inserting a list keeps the root's box and count |
| Partition.InsertAllAppends | RayTracer/Partition.cpp:11-14 | inserting a list into a leaf whose count allows it appends the list without splitting |
| Partition.Build | RayTracer/Partition.cpp:5-15 | the constructor's root is counted for all objects, over the enclosing box |
| Partition.BuildIsOneLeaf | RayTracer/Partition.cpp:5-15 | the constructor never splits: the root is one leaf holding every object in input order |
| Partition.AddObject | RayTracer/Partition.cpp:68-70 | inserting at the root keeps the root's box |
| Partition.FindClosest | RayTracer/Partition.cpp:22-24 | findClosestintersection starts the query at the root; QueryIsNearestReached and BuildThenQuery state its result |
| Partition.BuildThenQuery | RayTracer/Partition.cpp:22-24 | on a built tree the closest hit is the leaf scan over all objects when the root box is hit, and none otherwise; an empty list never hits |
| Colors.Truncate | RayTracer/SceneObjects.hpp:29-39 | the (int) cast rounds toward zero: within one unit below a non-negative value and within one unit above a negative one |
| Colors.Clamp | RayTracer/SceneObjects.hpp:29-39 | the clamped value lies in [lo, hi] and is unchanged when already inside |
| Colors.ToByte | RayTracer/SceneObjects.hpp:29-39 | a channel byte lies in [0, 255]; it is 255 when the channel is >= 1, 0 when channel * 255 < 1, and otherwise the integer part of channel * 255 |
| Colors.ToByteMonotone | RayTracer/SceneObjects.hpp:29-39 | a larger channel never gives a smaller byte |
| Colors.GetR | RayTracer/Color.cpp:21-23 | getR lies in [0, 255] |
| Colors.GetG | RayTracer/Color.cpp:25-27 | getG lies in [0, 255] |
| Colors.GetB | RayTracer/Color.cpp:29-31 | getB lies in [0, 255] |
| Colors.Plus | RayTracer/Color.cpp:33-36 | componentwise sum; commutative, associative, black is its identity (PlusCommutative, PlusAssociative, BlackIsIdentity) |
| Colors.PlusAssign | RayTracer/Color.cpp:38-43 | the three sequential channel updates of +=; PlusAssignIsPlus shows it equals + |
| Colors.GetAsFloat | RayTracer/Color.cpp:45-47 | each channel divided by 255; GetAsFloatRoundTrip shows multiplying back restores it |
| Colors.BytesInRange | RayTracer/Color.cpp:21-31 | getR, getG and getB always lie in [0, 255] |
| Colors.PlusAssignIsPlus | RayTracer/Color.cpp:38-43 | += leaves the value + returns |
| Colors.PlusCommutative | RayTracer/Color.cpp:33-36 | componentwise + is commutative |
| Colors.PlusAssociative | RayTracer/Color.cpp:33-36 | componentwise + is associative |
| Colors.BlackIsIdentity | RayTracer/SceneObjects.hpp:41-44 | the default colour is the identity of + |
| Colors.GetAsFloatRoundTrip | RayTracer/Color.cpp:45-47 | getAsFloat divides each channel by 255: multiplying back gives the channel |
| Preview.TriangleWithNormal | RayTracer/main.cpp:45-58 | -1 when the ray is within 0.1 of parallel to the plane; otherwise the plane distance (of any sign) when the three xy side tests of edges v1->v3, v3->v2, v2->v1 agree, and -1 when they do not |
| Preview.IntersectTriangle | RayTracer/main.cpp:43-59 | a degenerate triangle misses; otherwise the result is the test against the unit normal |
| Preview.LeftOf | RayTracer/main.cpp:51-53 | one edge's side test, on the xy projection only (PreviewTriangleEdgeOn shows the consequence) |
| Preview.PreviewTriangleHitOnPlane | RayTracer/main.cpp:45-56 | when the ray is not near-parallel and the three edge tests agree, the returned distance puts the point on the triangle's plane |
| Preview.NormalizeUnit | RayTracer/main.cpp:44 | normalising a unit vector returns it unchanged |
| Preview.NormalOfXY | RayTracer/main.cpp:44 | the unit normal of the triangle (0,0,0), (1,0,0), (0,1,0) is (0,0,1) |
| Preview.NormalOfYZ | RayTracer/main.cpp:44 | the unit normal of the triangle (0,0,0), (0,1,0), (0,0,1) is (1,0,0) |
| Preview.PreviewTriangleBehindRay | RayTracer/main.cpp:45-58 | a triangle behind the ray's origin is reported at distance -2, no different from a miss |
| Preview.BehindRayWithNormal | RayTracer/main.cpp:45-56 | the plane distance of the behind-the-ray example is -2 and the edge tests agree |
| Preview.PreviewTriangleEdgeOn | RayTracer/main.cpp:45-56 | the xy-projected edge test accepts an edge-on triangle at distance 1, though the hit point (0,5,5) is far outside it |
| Preview.EdgeOnWithNormal | RayTracer/main.cpp:45-56 | with the normal (1,0,0) the edge-on example returns 1 |
| Preview.EdgeOnSteps | RayTracer/main.cpp:46-47 | the edge-on example's plane distance is 1 and its plane point is (0,5,5) |
| Preview.EdgeOnSideTests | RayTracer/main.cpp:51-53 | all three edge tests of the edge-on example are false, so they agree |
| Preview.PreviewPick | RayTracer/main.cpp:70-77 | the result is one of the two roots; the smaller when both are >= 0, else the larger, which may still be negative |
| Preview.IntersectSphere | RayTracer/main.cpp:61-78 | -1 when the discriminant is negative; otherwise the root choice on the square root of the discriminant |
| Preview.PreviewSphereHitOnSphere | RayTracer/main.cpp:61-78 | with a unit direction, a non-negative result is a point on the sphere |
| Preview.PreviewRayFromInsideHits | RayTracer/main.cpp:70-77 | unlike Sphere.cpp, a ray from the centre of the unit sphere hits it at distance 1 |
| Preview.HitValue | RayTracer/main.cpp:80-85 | a triangle is answered by intersectTriangle, any other object by intersectSphere |
| Preview.HitValues | RayTracer/main.cpp:92-93 | the hit values are the per-object intersection results, in object order |
| Preview.ClosestUnique | RayTracer/main.cpp:87-100 | at most one index meets the closest-object characterisation |
| Preview.ClosestIndex | RayTracer/main.cpp:92-98 | the scan's result is -1 or an object position |
| Preview.ClosestIndexIsClosest | RayTracer/main.cpp:87-100 | the scan returns -1 iff no hit value is >= 0; otherwise a non-negative hit no greater than any other non-negative hit, at the lowest such position |
| Preview.FindClosestObjectIndex | RayTracer/main.cpp:87-100 | the loop returns -1 iff no hit is >= 0, and otherwise the lowest position of the smallest non-negative hit |
| Preview.PixelColor | RayTracer/main.cpp:201-207 | background for a negative index, the object's colour otherwise; PixelShowsClosest states the colour a pixel gets |
| Preview.PixelShowsClosest | RayTracer/main.cpp:201-207 | a pixel gets the background colour iff no object is hit ahead, and otherwise the colour of the closest object |
| Preview.Byte | RayTracer/main.cpp:209-211 | a BYTE store lies in [0, 255] and keeps values already in range |
| Preview.OffsetFormula | RayTracer/main.cpp:209-211 | the offset of channel c of pixel (i, j) is i*w*3 + j*3 + c |
| Preview.CellRowsOrdered | RayTracer/main.cpp:198-199 | every pixel of a later row comes after every pixel of an earlier one |
| Preview.CellShift | RayTracer/main.cpp:199 | within a row, pixel numbers advance with the column |
| Preview.OffsetsDistinct | RayTracer/main.cpp:209-211 | distinct (pixel, channel) pairs have distinct offsets, all below w*h*3 |
| Preview.ShadePixel | RayTracer/main.cpp:200-211 | one pass stores the pixel's blue, green and red bytes at its three offsets and changes no other pixel |
| Preview.RenderRow | RayTracer/main.cpp:199-212 | after a row, that row and every earlier row hold their bytes |
| Preview.Render | RayTracer/main.cpp:198-213 | the buffer has w*h*3 bytes, and every offset i*w*3 + j*3 + c holds channel c (B, G, R) of the pixel's colour |
| Scene.Initial | RayTracer/Scene.cpp:264-268 | the stack is [identity]; there are no lights or objects; attenuation is (1,0,0), maxDepth 5, output "test.png", ambient 0.2 per channel |
| Scene.ReadVals | RayTracer/Scene.cpp:251-261 | readvals succeeds iff the line has at least n numbers, and then yields its first n |
| Scene.ToUnsigned | RayTracer/Scene.cpp:137-138 | storing an int in an unsigned width wraps modulo 2^32 and keeps values already in range |
| Scene.PreMultiplyTop | RayTracer/Scene.cpp:202-219 | only the top entry changes, and it becomes M * top |
| Scene.KeywordOf | RayTracer/Scene.cpp:35-233 | the first word of a line selects at most one command; SpellingRecognised and RecognisedIsSpelling state that the chain is exactly the inverse of the command spellings, and any other word selects nothing (Scene.UnknownSkipped) |
| Scene.SpellingRecognised | RayTracer/Scene.cpp:35-233 | a consistency check on the model's command chain: every command is recognised by its spelling, so no test shadows a later one |
| Scene.RecognisedIsSpelling | RayTracer/Scene.cpp:35-233 | a consistency check on the model's command chain: a recognised first word is exactly that command's spelling, so no command answers to two words |
| Scene.AddObject | RayTracer/Scene.cpp:159-201 | an object line changes the state exactly when fewer than 200 objects are stored and the line has enough numbers; it then appends one object and changes nothing else; a sphere stores centre (args 0-2) and radius (arg 3), a tri the untransformed vertices read from the slots its three numbers name, beside the top transform |
| Scene.AddLight | RayTracer/Scene.cpp:35-58 | a light line either changes nothing, or, below the cap of 100, appends exactly one light and changes nothing else |
| Scene.VertexStep | RayTracer/Scene.cpp:66-96 | the vertex lines change only the vertex and vertex-normal storage and their indices |
| Scene.SettingStep | RayTracer/Scene.cpp:59-158 | setting lines leave the stack, the lights and the objects alone |
| Scene.StackStep | RayTracer/Scene.cpp:202-230 | transform lines change only the stack, which never becomes empty |
| Scene.Step | RayTracer/Scene.cpp:30-233 | every line keeps the stack non-empty and the caps of 100 lights and 200 objects, and appends at most one light and one object, keeping the earlier ones |
| Scene.Run | RayTracer/Scene.cpp:29-235 | a whole file keeps the invariant, and lights and objects only accumulate |
| Scene.Load | RayTracer/Scene.cpp:11-242 | a loaded scene has a non-empty stack, at most 100 lights and at most 200 objects |
| Scene.FailedReadChangesNothing | RayTracer/Scene.cpp:251-261 | a command whose readvals fails leaves every part of the state unchanged |
| Scene.IsPointLight | RayTracer/SceneObjects.hpp:68 | a light is a point light when w > 0; LightAppended shows this holds exactly for lights from point lines |
| Scene.LightAppended | RayTracer/Scene.cpp:35-58 | below 100 lights, a light line appends one light with w = 0 for directional and w = 1 for point, so it is a point light iff it came from a point line |
| Scene.LightsCapped | RayTracer/Scene.cpp:36-38 | with 100 lights stored, light lines are ignored |
| Scene.ObjectsCapped | RayTracer/Scene.cpp:160-162 | with 200 objects stored, object lines are ignored |
| Scene.ObjectAppended | RayTracer/Scene.cpp:159-201 | below 200 objects, an object line appends one object with the current material and the top transform, and nothing else changes; a sphere line stores centre (args 0-2) and radius (arg 3), a tri line the untransformed vertices in `verts` at the truncated first three numbers |
| Scene.TriNormalSlots | RayTracer/Scene.cpp:186-199 | trinormal reads its untransformed vertices from the slots named by values 0, 2, 4 and its untransformed normals from values 1, 3, 5 |
| Scene.VertexNormalFillsTwoSlots | RayTracer/Scene.cpp:88-96 | vertexnormal fills two consecutive slots, advances the index by two and leaves every other slot alone |
| Scene.PushThenPop | RayTracer/Scene.cpp:220-230 | pushTransform duplicates the top, and a popTransform after it restores the state |
| Scene.PopGuarded | RayTracer/Scene.cpp:223-230 | popTransform is refused on a one-entry stack and otherwise removes exactly the top |
| Scene.TransformReplacesTop | RayTracer/Scene.cpp:202-219 | translate, scale and rotate replace only the top, by M * top |
| Scene.MaterialSet | RayTracer/Scene.cpp:104-127 | a material line replaces that one colour of the current material and changes nothing else |
| Scene.UnknownSkipped | RayTracer/Scene.cpp:30-233 | unknown commands, blank lines and comments change nothing |
| Scene.RunConcat | RayTracer/Scene.cpp:29-235 | running two runs of lines is running the first, then the second from where the first stopped |
| Scene.RunOnlyAppends | RayTracer/Scene.cpp:29-235 | earlier lights and objects stay a prefix of the lists after any number of lines |

## Left out

- File I/O and tokenising in `Scene::Scene` (`ifstream`, `getline`, `stringstream`, stderr messages). A line is given already parsed as a command name, its numbers and an optional word. A blank or `#` line is `Ignored`.
- Unchecked indexing and allocation in the scene reader. `new glm::vec3[n]` with a negative size, and writing or reading `verts`/`vertNorms` outside their allocation, are undefined or throw in the source. `Scene.Runnable` makes the caller rule these out instead of modelling a crash.
- Uninitialised values: `shininess`, the scene size and the camera before their lines. They are `Option`s that start as `None`. The material colours `diffuse`, `specular` and `emission` start as the default black `Color`.
- Camera ray generation (`Camera.cpp`): `tan`/`radians`/`normalize` geometry. The preview renderer takes the ray of each pixel as a parameter, and the `camera` line is stored as its ten numbers.
- Scene.AddObject: a `tri` or `trinormal` object's `prim` holds the untransformed slot values, with the top transform stored beside them in `transform`. The source then calls `transformVerts` (v := transform * (v, 1)) and, for `trinormal`, `transformNorms` (n := inverse(transpose(transform)) * (n, 0)) (`RayTracer/SceneObjects.hpp:194-203`, called at `RayTracer/Scene.cpp:181`, `194` and `195`). Those products are not applied, because matrices here are terms. The same holds for `Scene.ObjectAppended` and `Scene.TriNormalSlots`.
- Scene.Runnable: a `tri` or `trinormal` must name slots that a `vertex` or `vertexnormal` line has already written (`Scene.Readable`'s `.Some?` conjunct). The source also reads a slot that is allocated but never written, which yields an indeterminate `glm::vec3`; the model does not give that case a value.
- `Transform.h`: matrices are terms, not 4x4 arrays. Vertex and normal transformation in the shape constructors, and the sphere's inverse transform and world-space distance, are the maps of `Shapes.Frame` or a `normalToWorld` parameter.
- Image output (`Renderer.cpp`, FreeImage, `std::cin.get`) and the test fixtures `getTestSceneObjects`/`getTestSceneCamera` in `main.cpp`. `main.cpp`'s fixed 640x480 image size becomes the parameters `w` and `h`.
- Floating point: rounding, NaN and infinities. Reals are exact and epsilons are real constants. The preview triangle test on a degenerate triangle (a NaN normal in the source, so every comparison is false) is modelled as no hit.
- Pointer ownership and leaked allocations in the partition. The tree is an immutable datatype, and a null child is `Null`.
- The `Shape` base class defaults and the declaration-only headers: a `Sphere | Triangle` sum type replaces them.
- `Sphere::isInside` has two further disjuncts, the surface point towards `getMidPoint` and `radius > length(getMidPoint - center)`. They need `normalize` and `length` of the buggy midpoint. `Shapes.SphereInside` models them through the `sqrt` parameter, but no lemma states more than the contained-centre and clamped-point cases.
- Shapes.SphereIntersect: the reported distance and normal are computed through the frame's maps, so only the existence of a hit, its object index, the sign of its distance and the unit length of its normal are stated.
- Shapes.Frame: `toLocal` is any map from rays to rays. `Sphere::intersect` normalises the local direction, but `Shapes.SphereIntersect` does not require a unit local direction. `Shapes.SphereRootOnSphere` and `Shapes.UnitDirectionMasksPrecedence` assume one.
- Colors.ToByte: `(int)(channel * 255)` is undefined behaviour in C++ when the product is outside the `int` range (typical x86 code yields INT_MIN, which then clamps to 0). The model truncates the exact real, so a channel of at least 2^31 / 255 gives 255 here.
- Colors.Truncate: the same out-of-range `(int)` conversion is undefined in the scene reader's `maxverts`, `maxvertnorms`, `size` and `maxdepth`. The model's `Truncate` never overflows.
- Scene.SettingStep: `size`, `maxdepth`, `output` and `camera` store their values, but no lemma states more about them than that the stack, lights and objects are untouched.
