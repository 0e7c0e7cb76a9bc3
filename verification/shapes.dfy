/**
 * Spheres and triangles: their bounds, the box-overlap tests the partition
 * uses to place them, and their ray intersections.  The virtual classes
 * Sphere (RayTracer/Sphere.cpp) and Triangle (Triangle.cpp) and the older
 * tagged struct Shape of RayTracer/SceneObjects.hpp become one sum type.
 */
module Shapes {
  import opened Wrappers
  import opened Geometry
  import opened Boxes

  /**
   * A sphere's object transform, as the three maps its intersection uses:
   * world ray to (normalised) local ray, local point to world point, and
   * local normal to world normal.  Matrix inversion and normalisation stay
   * inside these maps.
   */
  datatype Frame = Frame(toLocal: Ray -> Ray, pointToWorld: Vec3 -> Vec3, normalToWorld: Vec3 -> Vec3)

  /** Triangle vertices are stored already transformed to world space, as both constructors do. */
  datatype Shape =
    | Sphere(center: Vec3, radius: real, frame: Frame)
    | Triangle(v1: Vec3, v2: Vec3, v3: Vec3, n1: Vec3, n2: Vec3, n3: Vec3)

  // ---------------------------------------------------------------------------
  // Bounds: getMinX .. getMaxZ

  /** The low corner of a shape's bounds. */
  function Lo(s: Shape): (lo: Vec3)
    ensures s.Triangle? ==> Ordered(lo, s.v1) && Ordered(lo, s.v2) && Ordered(lo, s.v3)
    ensures s.Triangle? ==> lo.x in {s.v1.x, s.v2.x, s.v3.x} && lo.y in {s.v1.y, s.v2.y, s.v3.y} && lo.z in {s.v1.z, s.v2.z, s.v3.z}
    ensures s.Sphere? ==> Add(lo, Vec3(s.radius, s.radius, s.radius)) == s.center
  {
    match s
    case Sphere(c, r, _) => Vec3(c.x - r, c.y - r, c.z - r)
    case Triangle(v1, v2, v3, _, _, _) =>
      Vec3(Min(v3.x, Min(v1.x, v2.x)), Min(v3.y, Min(v1.y, v2.y)), Min(v3.z, Min(v1.z, v2.z)))
  }

  /** The high corner of a shape's bounds. */
  function Hi(s: Shape): (hi: Vec3)
    ensures s.Triangle? ==> Ordered(s.v1, hi) && Ordered(s.v2, hi) && Ordered(s.v3, hi)
    ensures s.Triangle? ==> hi.x in {s.v1.x, s.v2.x, s.v3.x} && hi.y in {s.v1.y, s.v2.y, s.v3.y} && hi.z in {s.v1.z, s.v2.z, s.v3.z}
    ensures s.Sphere? ==> Sub(hi, Vec3(s.radius, s.radius, s.radius)) == s.center
  {
    match s
    case Sphere(c, r, _) => Vec3(c.x + r, c.y + r, c.z + r)
    case Triangle(v1, v2, v3, _, _, _) =>
      Vec3(Max(v3.x, Max(v1.x, v2.x)), Max(v3.y, Max(v1.y, v2.y)), Max(v3.z, Max(v1.z, v2.z)))
  }

  /** A triangle's bounds are ordered; a sphere's are exactly when its radius is not negative. */
  lemma BoundsOrdered(s: Shape)
    ensures s.Triangle? ==> Ordered(Lo(s), Hi(s))
    ensures s.Sphere? ==> (Ordered(Lo(s), Hi(s)) <==> s.radius >= 0.0)
  {
  }

  /** Expanding a box by a shape makes it contain every vertex of a triangle and the centre of a sphere of non-negative radius. */
  lemma ExpandCoversShape(box: Aabb, s: Shape)
    ensures s.Triangle? ==>
      var b := Expand(box, Lo(s), Hi(s));
      Contains(b, s.v1) && Contains(b, s.v2) && Contains(b, s.v3)
    ensures s.Sphere? && s.radius >= 0.0 ==> Contains(Expand(box, Lo(s), Hi(s)), s.center)
  {
  }

  // ---------------------------------------------------------------------------
  // Flat-shaded triangles

  /** calculatePlaneNormal: the (unnormalised) normal of the plane through the three vertices. */
  function PlaneNormal(v1: Vec3, v2: Vec3, v3: Vec3): (n: Vec3)
    ensures Dot(n, Sub(v2, v1)) == 0.0 && Dot(n, Sub(v3, v1)) == 0.0
  {
    CrossOrthogonal(Sub(v2, v1), Sub(v3, v1));
    Cross(Sub(v2, v1), Sub(v3, v1))
  }

  /** u is a unit vector perpendicular to two edges of the triangle and on the same side as its plane normal. */
  predicate UnitPlaneNormal(u: Vec3, v1: Vec3, v2: Vec3, v3: Vec3) {
    && Dot(u, u) == 1.0
    && Dot(u, Sub(v2, v1)) == 0.0
    && Dot(u, Sub(v3, v1)) == 0.0
    && Dot(u, PlaneNormal(v1, v2, v3)) > 0.0
  }

  /** A positive multiple of the plane normal keeps its perpendicularity and side. */
  lemma ScaledPlaneNormal(k: real, v1: Vec3, v2: Vec3, v3: Vec3)
    requires k > 0.0 && PlaneNormal(v1, v2, v3) != Zero
    ensures var n := PlaneNormal(v1, v2, v3);
      Dot(Scale(k, n), Sub(v2, v1)) == 0.0 && Dot(Scale(k, n), Sub(v3, v1)) == 0.0 && Dot(Scale(k, n), n) > 0.0
  {
    var n := PlaneNormal(v1, v2, v3);
    assert Dot(Scale(k, n), Sub(v2, v1)) == k * Dot(n, Sub(v2, v1));
    assert Dot(Scale(k, n), Sub(v3, v1)) == k * Dot(n, Sub(v3, v1));
    assert Dot(Scale(k, n), n) == Product(k, Dot(n, n));
    DotSelfNonNegative(n);
    ProductPositive(k, Dot(n, n));
  }

  /** The normal a triangle hit keeps is the unit plane normal, once the plane normal is non-zero. */
  lemma HitNormalOfPlane(v1: Vec3, v2: Vec3, v3: Vec3, sqrt: real -> real)
    ensures IsSqrt(sqrt) && PlaneNormal(v1, v2, v3) != Zero ==>
      UnitPlaneNormal(HitNormal(PlaneNormal(v1, v2, v3), sqrt), v1, v2, v3)
  {
    var n := PlaneNormal(v1, v2, v3);
    if IsSqrt(sqrt) && n != Zero {
      NormalizeIsUnit(n, sqrt);
      ScaledPlaneNormal(1.0 / Length(n, sqrt), v1, v2, v3);
    }
  }

  /**
   * The Triangle constructor without vertex normals: all three normals are
   * the plane normal carried through the transform's inverse transpose.
   */
  function FlatTriangle(v1: Vec3, v2: Vec3, v3: Vec3, normalToWorld: Vec3 -> Vec3): (s: Shape)
    ensures s.Triangle? && s.v1 == v1 && s.v2 == v2 && s.v3 == v3
    ensures s.n1 == s.n2 == s.n3
  {
    var n := normalToWorld(PlaneNormal(v1, v2, v3));
    Triangle(v1, v2, v3, n, n, n)
  }

  /** Without a transform the flat normal is perpendicular to every edge of the triangle. */
  lemma FlatNormalPerpendicular(v1: Vec3, v2: Vec3, v3: Vec3)
    ensures var s := FlatTriangle(v1, v2, v3, v => v);
      Dot(s.n1, Sub(v2, v1)) == 0.0 && Dot(s.n1, Sub(v3, v2)) == 0.0 && Dot(s.n1, Sub(v1, v3)) == 0.0
  {
    var n := PlaneNormal(v1, v2, v3);
    assert Dot(n, Sub(v3, v2)) == Dot(n, Sub(v3, v1)) - Dot(n, Sub(v2, v1));
    assert Dot(n, Sub(v1, v3)) == -Dot(n, Sub(v3, v1));
  }

  // ---------------------------------------------------------------------------
  // Projection intervals and the separating-axis test (TriangleAABBCollide / isInside)

  /** A glm::vec2 used as a closed interval: x is the low end, y the high end. */
  datatype Interval = Interval(lo: real, hi: real)

  predicate InInterval(p: real, a: Interval) {
    a.lo <= p <= a.hi
  }

  /** The closed intervals share a point (OverlapOnAxis). */
  predicate Overlap(a: Interval, b: Interval) {
    b.lo <= a.hi && a.lo <= b.hi
  }

  /** Closed-interval overlap is symmetric. */
  lemma OverlapSymmetric(a: Interval, b: Interval)
    ensures Overlap(a, b) == Overlap(b, a)
  {
  }

  /** Two non-empty closed intervals overlap exactly when some point lies in both. */
  lemma OverlapIffCommonPoint(a: Interval, b: Interval)
    requires a.lo <= a.hi && b.lo <= b.hi
    ensures Overlap(a, b) <==> exists p :: InInterval(p, a) && InInterval(p, b)
  {
    if Overlap(a, b) {
      var p := Max(a.lo, b.lo);
      assert InInterval(p, a) && InInterval(p, b);
    }
  }

  /** GetInterval(axis) of a triangle: the range of its vertices' projections. */
  function TriangleInterval(v1: Vec3, v2: Vec3, v3: Vec3, axis: Vec3): (r: Interval)
    ensures r.lo <= r.hi
    ensures r.lo <= Dot(axis, v1) <= r.hi && r.lo <= Dot(axis, v2) <= r.hi && r.lo <= Dot(axis, v3) <= r.hi
    ensures r.lo in {Dot(axis, v1), Dot(axis, v2), Dot(axis, v3)}
    ensures r.hi in {Dot(axis, v1), Dot(axis, v2), Dot(axis, v3)}
  {
    var p1, p2, p3 := Dot(axis, v1), Dot(axis, v2), Dot(axis, v3);
    Interval(Min(Min(p1, p2), p3), Max(Max(p1, p2), p3))
  }

  /** The eight corners of a box, in the order GetInterval(box, axis) lists them. */
  function Corners(min: Vec3, max: Vec3): (cs: seq<Vec3>)
    ensures |cs| == 8
  {
    [Vec3(min.x, max.y, max.z), Vec3(min.x, max.y, min.z), Vec3(min.x, min.y, max.z), Vec3(min.x, min.y, min.z),
     Vec3(max.x, max.y, max.z), Vec3(max.x, max.y, min.z), Vec3(max.x, min.y, max.z), Vec3(max.x, min.y, min.z)]
  }

  function Projections(cs: seq<Vec3>, axis: Vec3): (ps: seq<real>)
    ensures |ps| == |cs|
    ensures forall k :: 0 <= k < |cs| ==> ps[k] == Dot(axis, cs[k])
  {
    seq(|cs|, k requires 0 <= k < |cs| => Dot(axis, cs[k]))
  }

  /** The widening loop: from position i on, widen acc to take in ps[i]. */
  function Widen(ps: seq<real>, i: nat, acc: Interval): (r: Interval)
    requires i <= |ps|
    requires acc.lo <= acc.hi
    ensures r.lo <= r.hi
    ensures r.lo <= acc.lo && acc.hi <= r.hi
    ensures forall k :: i <= k < |ps| ==> r.lo <= ps[k] <= r.hi
    ensures r.lo == acc.lo || exists k :: i <= k < |ps| && r.lo == ps[k]
    ensures r.hi == acc.hi || exists k :: i <= k < |ps| && r.hi == ps[k]
    decreases |ps| - i
  {
    if i == |ps| then acc
    else
      var p := ps[i];
      Widen(ps, i + 1, Interval(if p < acc.lo then p else acc.lo, if p > acc.hi then p else acc.hi))
  }

  /** GetInterval(box, axis): the range of the box corners' projections, starting from the first corner. */
  function BoxInterval(min: Vec3, max: Vec3, axis: Vec3): (r: Interval)
    ensures r.lo <= r.hi
    ensures forall c :: c in Corners(min, max) ==> r.lo <= Dot(axis, c) <= r.hi
    ensures exists c :: c in Corners(min, max) && r.lo == Dot(axis, c)
    ensures exists c :: c in Corners(min, max) && r.hi == Dot(axis, c)
  {
    var cs := Corners(min, max);
    var ps := Projections(cs, axis);
    var r := Widen(ps, 1, Interval(ps[0], ps[0]));
    assert forall c :: c in cs ==> exists k :: 0 <= k < 8 && cs[k] == c;
    r
  }

  /** OverlapOnAxis(box, axis). */
  predicate OverlapOnAxis(min: Vec3, max: Vec3, v1: Vec3, v2: Vec3, v3: Vec3, axis: Vec3) {
    Overlap(BoxInterval(min, max, axis), TriangleInterval(v1, v2, v3, axis))
  }

  /** The 13 candidate axes, in test order: box normals, triangle normal, then the 9 edge cross products. */
  function SatAxes(v1: Vec3, v2: Vec3, v3: Vec3): (axes: seq<Vec3>)
    ensures |axes| == 13
  {
    var f0, f1, f2 := Sub(v2, v1), Sub(v3, v2), Sub(v1, v3);
    var u0, u1, u2 := Vec3(1.0, 0.0, 0.0), Vec3(0.0, 1.0, 0.0), Vec3(0.0, 0.0, 1.0);
    [u0, u1, u2, Cross(f0, f1),
     Cross(u0, f0), Cross(u0, f1), Cross(u0, f2),
     Cross(u1, f0), Cross(u1, f1), Cross(u1, f2),
     Cross(u2, f0), Cross(u2, f1), Cross(u2, f2)]
  }

  /** The test loop from position i: stop with false at the first separating axis. */
  function NoSeparatingAxis(min: Vec3, max: Vec3, v1: Vec3, v2: Vec3, v3: Vec3, axes: seq<Vec3>, i: nat): (r: bool)
    requires i <= |axes|
    ensures r <==> forall k :: i <= k < |axes| ==> OverlapOnAxis(min, max, v1, v2, v3, axes[k])
    decreases |axes| - i
  {
    if i == |axes| then true
    else if !OverlapOnAxis(min, max, v1, v2, v3, axes[i]) then false
    else NoSeparatingAxis(min, max, v1, v2, v3, axes, i + 1)
  }

  /**
   * Triangle::isInside and TriangleAABBCollide.  For the empty box the
   * first axis already projects to NaN, so the test answers false.
   */
  function TriangleInside(v1: Vec3, v2: Vec3, v3: Vec3, box: Aabb): (r: bool)
    ensures r <==> box.Box? && forall a :: a in SatAxes(v1, v2, v3) ==> OverlapOnAxis(box.min, box.max, v1, v2, v3, a)
  {
    match box
    case EmptyBox => false
    case Box(min, max) =>
      var axes := SatAxes(v1, v2, v3);
      assert forall a :: a in axes ==> exists k :: 0 <= k < |axes| && axes[k] == a;
      NoSeparatingAxis(min, max, v1, v2, v3, axes, 0)
  }

  /** Testing the axes in any other order gives the same answer. */
  lemma {:induction false} AxisOrderIrrelevant(min: Vec3, max: Vec3, v1: Vec3, v2: Vec3, v3: Vec3, axes: seq<Vec3>, other: seq<Vec3>)
    requires multiset(axes) == multiset(other)
    ensures NoSeparatingAxis(min, max, v1, v2, v3, axes, 0) == NoSeparatingAxis(min, max, v1, v2, v3, other, 0)
  {
    forall a | a in axes
      ensures a in other
    {
      assert a in multiset(axes);
    }
    forall a | a in other
      ensures a in axes
    {
      assert a in multiset(other);
    }
    if NoSeparatingAxis(min, max, v1, v2, v3, axes, 0) {
      forall k | 0 <= k < |other|
        ensures OverlapOnAxis(min, max, v1, v2, v3, other[k])
      {
        assert other[k] in axes;
      }
    }
    if NoSeparatingAxis(min, max, v1, v2, v3, other, 0) {
      forall k | 0 <= k < |axes|
        ensures OverlapOnAxis(min, max, v1, v2, v3, axes[k])
      {
        assert axes[k] in other;
      }
    }
  }

  // ---------------------------------------------------------------------------
  // Ray / triangle

  /** Triangle.cpp's thresholds: near-parallel rays and hits closer than this are rejected. */
  const ParallelEpsilon: real := 0.00001
  const MinTriangleHit: real := 0.00001
  /** The thresholds of intersectTriangle in SceneObjects.hpp. */
  const LegacyParallelEpsilon: real := 0.01
  const LegacyMinTriangleHit: real := 0.005

  /** The normal both variants build from their edges e1 = v3 - v2 and e2 = v1 - v3 is the plane normal. */
  lemma EdgeCrossIsPlaneNormal(v1: Vec3, v2: Vec3, v3: Vec3)
    ensures Cross(Sub(v3, v2), Sub(v1, v3)) == PlaneNormal(v1, v2, v3)
  {
  }

  /** Where the ray meets the triangle's plane, as a multiple of the direction. */
  function PlaneHitTime(v1: Vec3, n: Vec3, ray: Ray): real
    requires Dot(ray.dir, n) != 0.0
  {
    (Dot(v1, n) - Dot(ray.origin, n)) / Dot(ray.dir, n)
  }

  /** p lies on the inner side of (or on) all three edges, measured along the normal n. */
  predicate InsideEdges(v1: Vec3, v2: Vec3, v3: Vec3, n: Vec3, p: Vec3) {
    && Dot(Cross(Sub(v3, v2), Sub(p, v3)), n) >= 0.0
    && Dot(Cross(Sub(v1, v3), Sub(p, v1)), n) >= 0.0
    && Dot(Cross(Sub(v2, v1), Sub(p, v2)), n) >= 0.0
  }

  /** Dividing by 2 and then by a positive area keeps the sign. */
  lemma HalvedQuotientSign(x: real, area: real)
    requires area > 0.0
    ensures (x / 2.0 / area >= 0.0) <==> (x >= 0.0)
  {
    var q := x / 2.0 / area;
    assert q * area == x / 2.0;
    if q < 0.0 {
      ProductPositive(-q, area);
    } else if q > 0.0 {
      ProductPositive(q, area);
    }
  }

  /** totalArea as both variants compute it from their edges: half of dot(cross(e1, e2), n). */
  function TotalArea(v1: Vec3, v2: Vec3, v3: Vec3, n: Vec3): real {
    Dot(Cross(Sub(v3, v2), Sub(v1, v3)), n) / 2.0
  }

  /** totalArea is |n|^2 / 2, positive for a non-degenerate triangle. */
  lemma TotalAreaPositive(v1: Vec3, v2: Vec3, v3: Vec3)
    requires PlaneNormal(v1, v2, v3) != Zero
    ensures TotalArea(v1, v2, v3, PlaneNormal(v1, v2, v3)) > 0.0
  {
    var n := PlaneNormal(v1, v2, v3);
    EdgeCrossIsPlaneNormal(v1, v2, v3);
    assert TotalArea(v1, v2, v3, n) == Dot(n, n) / 2.0;
    DotSelfNonNegative(n);
  }

  /** A direction not within eps > 0 of perpendicular to n rules out n = 0. */
  lemma NotParallelToZero(dir: Vec3, n: Vec3, eps: real)
    requires eps > 0.0
    requires !EpsilonEqual(Dot(dir, n), 0.0, eps)
    ensures n != Zero
  {
  }

  /** The three normalised signed-area tests b0, b1, b2. */
  predicate AreaTests(v1: Vec3, v2: Vec3, v3: Vec3, n: Vec3, p: Vec3, totalArea: real)
    requires totalArea != 0.0
  {
    && Dot(Cross(Sub(v3, v2), Sub(p, v3)), n) / 2.0 / totalArea >= 0.0
    && Dot(Cross(Sub(v1, v3), Sub(p, v1)), n) / 2.0 / totalArea >= 0.0
    && Dot(Cross(Sub(v2, v1), Sub(p, v2)), n) / 2.0 / totalArea >= 0.0
  }

  /**
   * The body shared by both triangle intersections.  totalArea is
   * dot(n, n) / 2, positive once the parallel test has passed, so neither
   * division is by zero.
   */
  function TriangleHit(v1: Vec3, v2: Vec3, v3: Vec3, n: Vec3, ray: Ray, parallelEps: real, minT: real, sqrt: real -> real): (r: Intersection)
    requires n == PlaneNormal(v1, v2, v3)
    requires parallelEps > 0.0
    ensures EpsilonEqual(Dot(ray.dir, n), 0.0, parallelEps) ==> r.None?
    ensures r.Some? ==> r.value.normal == HitNormal(n, sqrt) && r.value.objectIndex == -1
  {
    if EpsilonEqual(Dot(ray.dir, n), 0.0, parallelEps) then None
    else
      NotParallelToZero(ray.dir, n, parallelEps);
      var t := PlaneHitTime(v1, n, ray);
      if t < minT then None
      else
        var p := PointAt(ray, t);
        TotalAreaPositive(v1, v2, v3);
        if AreaTests(v1, v2, v3, n, p, TotalArea(v1, v2, v3, n)) then Some(Hit(Distance(p, ray.origin, sqrt), -1, HitNormal(n, sqrt))) else None
  }

  /** Triangle::intersect. */
  function TriangleIntersect(v1: Vec3, v2: Vec3, v3: Vec3, ray: Ray, sqrt: real -> real): (r: Intersection)
    ensures Abs(Dot(ray.dir, PlaneNormal(v1, v2, v3))) < ParallelEpsilon ==> r.None?
    ensures r.Some? ==> r.value.normal == HitNormal(PlaneNormal(v1, v2, v3), sqrt)
    ensures IsSqrt(sqrt) && r.Some? ==> UnitPlaneNormal(r.value.normal, v1, v2, v3)
  {
    var r := TriangleHit(v1, v2, v3, PlaneNormal(v1, v2, v3), ray, ParallelEpsilon, MinTriangleHit, sqrt);
    if r.Some? then
      NotParallelToZero(ray.dir, PlaneNormal(v1, v2, v3), ParallelEpsilon);
      HitNormalOfPlane(v1, v2, v3, sqrt);
      r
    else r
  }

  /** Shape::intersectTriangle of SceneObjects.hpp: the normal is cross(e1, e2), the thresholds are coarser. */
  function LegacyTriangleIntersect(v1: Vec3, v2: Vec3, v3: Vec3, ray: Ray, sqrt: real -> real): (r: Intersection)
    ensures Abs(Dot(ray.dir, PlaneNormal(v1, v2, v3))) < LegacyParallelEpsilon ==> r.None?
    ensures r.Some? ==> r.value.normal == HitNormal(PlaneNormal(v1, v2, v3), sqrt)
    ensures IsSqrt(sqrt) && r.Some? ==> UnitPlaneNormal(r.value.normal, v1, v2, v3)
  {
    var n := Cross(Sub(v3, v2), Sub(v1, v3));
    EdgeCrossIsPlaneNormal(v1, v2, v3);
    var r := TriangleHit(v1, v2, v3, n, ray, LegacyParallelEpsilon, LegacyMinTriangleHit, sqrt);
    if r.Some? then
      NotParallelToZero(ray.dir, n, LegacyParallelEpsilon);
      HitNormalOfPlane(v1, v2, v3, sqrt);
      r
    else r
  }

  /**
   * A triangle hit happens exactly when the ray is not near-parallel, the
   * plane is at least minT ahead, and the plane point is on the inner side of
   * or on every edge; it then lies on the plane and the reported distance is
   * that point's distance from the origin.
   */
  lemma TriangleHitExactly(v1: Vec3, v2: Vec3, v3: Vec3, ray: Ray, parallelEps: real, minT: real, sqrt: real -> real)
    requires parallelEps > 0.0
    ensures var n := PlaneNormal(v1, v2, v3);
      var r := TriangleHit(v1, v2, v3, n, ray, parallelEps, minT, sqrt);
      r.Some? <==>
        && !EpsilonEqual(Dot(ray.dir, n), 0.0, parallelEps)
        && PlaneHitTime(v1, n, ray) >= minT
        && InsideEdges(v1, v2, v3, n, PointAt(ray, PlaneHitTime(v1, n, ray)))
    ensures var n := PlaneNormal(v1, v2, v3);
      var r := TriangleHit(v1, v2, v3, n, ray, parallelEps, minT, sqrt);
      r.Some? ==>
        var p := PointAt(ray, PlaneHitTime(v1, n, ray));
        Dot(p, n) == Dot(v1, n) && r.value.dist == Distance(p, ray.origin, sqrt)
  {
    var n := PlaneNormal(v1, v2, v3);
    if !EpsilonEqual(Dot(ray.dir, n), 0.0, parallelEps) {
      NotParallelToZero(ray.dir, n, parallelEps);
      var t := PlaneHitTime(v1, n, ray);
      var p := PointAt(ray, t);
      TotalAreaPositive(v1, v2, v3);
      var totalArea := TotalArea(v1, v2, v3, n);
      HalvedQuotientSign(Dot(Cross(Sub(v3, v2), Sub(p, v3)), n), totalArea);
      HalvedQuotientSign(Dot(Cross(Sub(v1, v3), Sub(p, v1)), n), totalArea);
      HalvedQuotientSign(Dot(Cross(Sub(v2, v1), Sub(p, v2)), n), totalArea);
      DotAlongRay(ray, t, n);
      QuotientTimesDivisor(Dot(v1, n) - Dot(ray.origin, n), Dot(ray.dir, n));
    }
  }

  /** Moving t along the ray moves the projection onto n by t * dot(dir, n). */
  lemma DotAlongRay(ray: Ray, t: real, n: Vec3)
    ensures Dot(PointAt(ray, t), n) == Dot(ray.origin, n) + t * Dot(ray.dir, n)
  {
  }

  lemma QuotientTimesDivisor(x: real, d: real)
    requires d != 0.0
    ensures x / d * d == x
  {
  }

  /** Whatever the older variant hits, Triangle.cpp hits identically: its thresholds only reject less. */
  lemma LegacyTriangleHitsAgree(v1: Vec3, v2: Vec3, v3: Vec3, ray: Ray, sqrt: real -> real)
    ensures LegacyTriangleIntersect(v1, v2, v3, ray, sqrt).Some? ==>
      TriangleIntersect(v1, v2, v3, ray, sqrt) == LegacyTriangleIntersect(v1, v2, v3, ray, sqrt)
  {
    EdgeCrossIsPlaneNormal(v1, v2, v3);
  }

  // ---------------------------------------------------------------------------
  // Ray / sphere

  /** Hits nearer than this along the local ray are rejected. */
  const MinSphereHit: real := 0.005

  /** calculateDiscriminant. */
  function Discriminant(a: real, b: real, c: real): real {
    b * b - 4.0 * a * c
  }

  /** With a negative discriminant the quadratic has no real root. */
  lemma NegativeDiscriminantNoRoot(a: real, b: real, c: real, t: real)
    requires Discriminant(a, b, c) < 0.0
    ensures a * t * t + b * t + c != 0.0
  {
    var w := 2.0 * a * t + b;
    assert Product(w, w) == 4.0 * a * (a * t * t + b * t + c) + Discriminant(a, b, c);
    SquareNonNegative(w);
  }

  /** A square root of the discriminant gives the textbook roots. */
  lemma DiscriminantRoots(a: real, b: real, c: real, s: real)
    requires a != 0.0
    requires s * s == Discriminant(a, b, c)
    ensures var t := (-b + s) / (2.0 * a); a * t * t + b * t + c == 0.0
    ensures var t := (-b - s) / (2.0 * a); a * t * t + b * t + c == 0.0
  {
    var t1 := (-b + s) / (2.0 * a);
    var t2 := (-b - s) / (2.0 * a);
    assert 2.0 * a * t1 == -b + s;
    assert 2.0 * a * t2 == -b - s;
    assert 4.0 * a * (a * t1 * t1 + b * t1 + c) == (2.0 * a * t1 + b) * (2.0 * a * t1 + b) - Discriminant(a, b, c);
    assert 4.0 * a * (a * t2 * t2 + b * t2 + c) == (2.0 * a * t2 + b) * (2.0 * a * t2 + b) - Discriminant(a, b, c);
  }

  /** The coefficients a, b, c of |origin + t dir - center|^2 - radius^2 as a polynomial in t. */
  datatype Quadratic = Quadratic(a: real, b: real, c: real)

  function SphereQuadratic(center: Vec3, radius: real, ray: Ray): Quadratic {
    var oc := Sub(ray.origin, center);
    Quadratic(Dot(ray.dir, ray.dir), 2.0 * Dot(ray.dir, oc), Dot(oc, oc) - radius * radius)
  }

  /** The quadratic's value at t is the squared distance of the ray point from the centre, minus radius^2. */
  lemma SphereQuadraticMeaning(center: Vec3, radius: real, ray: Ray, t: real)
    ensures var q := SphereQuadratic(center, radius, ray);
      var p := PointAt(ray, t);
      q.a * t * t + q.b * t + q.c == Dot(Sub(p, center), Sub(p, center)) - radius * radius
  {
  }

  /**
   * The root Sphere::intersect picks on the local ray: none when the
   * discriminant is negative; otherwise the smaller of
   * ((-b + sqrt d) / 2) * a and ((-b - sqrt d) / 2) * a -- the `/ 2.0f * a`
   * multiplies by a -- rejected outright when below MinSphereHit.
   */
  function SphereRoot(center: Vec3, radius: real, ray: Ray, sqrt: real -> real): (r: Option<real>)
    ensures var q := SphereQuadratic(center, radius, ray); Discriminant(q.a, q.b, q.c) < 0.0 ==> r.None?
    ensures r.Some? ==> r.value >= MinSphereHit
    ensures r.Some? ==>
      var q := SphereQuadratic(center, radius, ray);
      var s := sqrt(Discriminant(q.a, q.b, q.c));
      r.value == (-q.b + s) / 2.0 * q.a || r.value == (-q.b - s) / 2.0 * q.a
    ensures var q := SphereQuadratic(center, radius, ray);
      var d := Discriminant(q.a, q.b, q.c);
      var s := sqrt(d);
      var x1, x2 := (-q.b + s) / 2.0 * q.a, (-q.b - s) / 2.0 * q.a;
      d >= 0.0 ==>
        && (r.None? <==> x1 < MinSphereHit || x2 < MinSphereHit)
        && (r.Some? ==> r.value <= x1 && r.value <= x2)
  {
    var q := SphereQuadratic(center, radius, ray);
    var discrim := Discriminant(q.a, q.b, q.c);
    if discrim < 0.0 then None else PickRoot(q, sqrt(discrim))
  }

  /**
   * The root choice once s, the discriminant's square root, is known: the
   * smaller root, or none when it is below MinSphereHit -- the larger root
   * is never used in its place.
   */
  function PickRoot(q: Quadratic, s: real): (r: Option<real>)
    ensures r.Some? ==> r.value >= MinSphereHit
    ensures r.Some? ==> r.value == (-q.b + s) / 2.0 * q.a || r.value == (-q.b - s) / 2.0 * q.a
    ensures var x1, x2 := (-q.b + s) / 2.0 * q.a, (-q.b - s) / 2.0 * q.a;
      && (r.None? <==> x1 < MinSphereHit || x2 < MinSphereHit)
      && (r.Some? ==> r.value <= x1 && r.value <= x2)
  {
    var x1 := (-q.b + s) / 2.0 * q.a;
    var x2 := (-q.b - s) / 2.0 * q.a;
    var t := Min(x1, x2);
    if t < MinSphereHit then None else Some(t)
  }

  /**
   * The textbook choice: the smaller of (-b +- sqrt(d)) / (2a), rejected
   * below the same threshold.
   */
  function NearestRoot(q: Quadratic, sqrt: real -> real): Option<real> {
    var discrim := Discriminant(q.a, q.b, q.c);
    if discrim < 0.0 || q.a == 0.0 then None
    else
      var t := Min((-q.b + sqrt(discrim)) / (2.0 * q.a), (-q.b - sqrt(discrim)) / (2.0 * q.a));
      if t < MinSphereHit then None else Some(t)
  }

  /**
   * Sphere::intersect normalises the local direction, so a = 1 and its
   * `/ 2.0f * a` gives the textbook root: the precedence slip never shows.
   */
  lemma UnitDirectionMasksPrecedence(center: Vec3, radius: real, ray: Ray, sqrt: real -> real)
    requires Dot(ray.dir, ray.dir) == 1.0
    ensures SphereRoot(center, radius, ray, sqrt) == NearestRoot(SphereQuadratic(center, radius, ray), sqrt)
  {
  }

  /** A faithful square root of k * k is k, for k >= 0. */
  lemma SqrtOfSquare(sqrt: real -> real, k: real)
    requires IsSqrt(sqrt)
    requires k >= 0.0
    ensures sqrt(k * k) == k
  {
    var s := sqrt(k * k);
    assert s >= 0.0 && s * s == k * k;
    if s > k {
      ProductPositive(s - k, s + k);
      assert false;
    } else if s < k {
      ProductPositive(k - s, k + s);
      assert false;
    }
  }

  /** When the local direction is a unit vector the chosen root lies on the sphere. */
  lemma SphereRootOnSphere(center: Vec3, radius: real, ray: Ray, sqrt: real -> real)
    requires IsSqrt(sqrt)
    requires Dot(ray.dir, ray.dir) == 1.0
    requires SphereRoot(center, radius, ray, sqrt).Some?
    ensures var p := PointAt(ray, SphereRoot(center, radius, ray, sqrt).value);
      Dot(Sub(p, center), Sub(p, center)) == radius * radius
  {
    var q := SphereQuadratic(center, radius, ray);
    var d := Discriminant(q.a, q.b, q.c);
    var s := sqrt(d);
    assert s * s == d;
    DiscriminantRoots(q.a, q.b, q.c, s);
    var t := SphereRoot(center, radius, ray, sqrt).value;
    assert t == (-q.b + s) / (2.0 * q.a) || t == (-q.b - s) / (2.0 * q.a);
    assert q.a * t * t + q.b * t + q.c == 0.0;
    SphereQuadraticMeaning(center, radius, ray, t);
  }

  /** With a negative discriminant the local ray's line never meets the sphere's surface. */
  lemma SphereMissIsGenuine(center: Vec3, radius: real, ray: Ray, t: real)
    requires var q := SphereQuadratic(center, radius, ray); Discriminant(q.a, q.b, q.c) < 0.0
    ensures var p := PointAt(ray, t); Dot(Sub(p, center), Sub(p, center)) != radius * radius
  {
    var q := SphereQuadratic(center, radius, ray);
    NegativeDiscriminantNoRoot(q.a, q.b, q.c, t);
    SphereQuadraticMeaning(center, radius, ray, t);
  }

  /**
   * A ray starting at the centre of the unit sphere misses it: the smaller
   * root is -1 and is rejected, although the larger root 1 is on the sphere.
   */
  lemma RayFromInsideMisses(sqrt: real -> real)
    requires sqrt(4.0) == 2.0
    ensures SphereRoot(Zero, 1.0, Ray(Zero, Vec3(1.0, 0.0, 0.0)), sqrt).None?
    ensures PointAt(Ray(Zero, Vec3(1.0, 0.0, 0.0)), 1.0) == Vec3(1.0, 0.0, 0.0)
  {
    var ray := Ray(Zero, Vec3(1.0, 0.0, 0.0));
    assert PointAt(ray, 1.0) == Vec3(1.0, 0.0, 0.0);
    var q := Quadratic(1.0, 0.0, -1.0);
    assert SphereRoot(Zero, 1.0, ray, sqrt) == PickRoot(q, sqrt(4.0)) by {
      ConcreteQuadratic(ray, q);
    }
    ConcreteRoots();
  }

  /**
   * With a direction of length 2 the `/ 2.0f * a` roots are scaled by a = 4:
   * the chosen root 32 is far beyond the sphere, whose near surface is at 2.
   */
  lemma NonUnitDirectionScalesRoot(sqrt: real -> real)
    requires sqrt(16.0) == 4.0
    ensures var ray := Ray(Vec3(-5.0, 0.0, 0.0), Vec3(2.0, 0.0, 0.0));
      && SphereRoot(Zero, 1.0, ray, sqrt) == Some(32.0)
      && PointAt(ray, 32.0) == Vec3(59.0, 0.0, 0.0)
      && PointAt(ray, 2.0) == Vec3(-1.0, 0.0, 0.0)
  {
    var ray := Ray(Vec3(-5.0, 0.0, 0.0), Vec3(2.0, 0.0, 0.0));
    assert PointAt(ray, 32.0) == Vec3(59.0, 0.0, 0.0);
    assert PointAt(ray, 2.0) == Vec3(-1.0, 0.0, 0.0);
    var q := Quadratic(4.0, -20.0, 24.0);
    assert SphereRoot(Zero, 1.0, ray, sqrt) == PickRoot(q, sqrt(16.0)) by {
      ConcreteQuadratic(ray, q);
    }
    ConcreteRoots();
  }

  /** The coefficients of the two example rays about the unit sphere at the origin (no square roots involved). */
  lemma ConcreteQuadratic(ray: Ray, q: Quadratic)
    requires || (ray == Ray(Vec3(-5.0, 0.0, 0.0), Vec3(2.0, 0.0, 0.0)) && q == Quadratic(4.0, -20.0, 24.0))
             || (ray == Ray(Zero, Vec3(1.0, 0.0, 0.0)) && q == Quadratic(1.0, 0.0, -1.0))
    ensures SphereQuadratic(Zero, 1.0, ray) == q
    ensures Discriminant(q.a, q.b, q.c) == (if q.a == 4.0 then 16.0 else 4.0)
  {
  }

  /** The root choices of the two examples (no square roots involved). */
  lemma ConcreteRoots()
    ensures PickRoot(Quadratic(4.0, -20.0, 24.0), 4.0) == Some(32.0)
    ensures PickRoot(Quadratic(1.0, 0.0, -1.0), 2.0).None?
  {
  }

  /** Sphere::intersect: root on the local ray, then the hit point and normal mapped back to world space. */
  function SphereIntersect(center: Vec3, radius: real, frame: Frame, ray: Ray, sqrt: real -> real): (r: Intersection)
    ensures r.Some? <==> SphereRoot(center, radius, frame.toLocal(ray), sqrt).Some?
    ensures r.Some? ==> r.value.objectIndex == -1
    ensures IsSqrt(sqrt) && r.Some? ==> r.value.dist >= 0.0
    ensures IsSqrt(sqrt) && r.Some? ==> r.value.normal == Zero || Dot(r.value.normal, r.value.normal) == 1.0
  {
    var local := frame.toLocal(ray);
    match SphereRoot(center, radius, local, sqrt)
    case None => None
    case Some(t) =>
      var p := PointAt(local, t);
      var normal := HitNormal(frame.normalToWorld(Sub(p, center)), sqrt);
      DotSelfNonNegative(Sub(frame.pointToWorld(p), ray.origin));
      Some(Hit(Distance(frame.pointToWorld(p), ray.origin, sqrt), -1, normal))
  }

  // ---------------------------------------------------------------------------
  // Sphere against box (Sphere::isInside)

  /** One coordinate of the centre clamped into [lo, hi]: max(lo, min(c, hi)). */
  function ClampCoord(c: real, lo: real, hi: real): (r: real)
    ensures lo <= hi ==> lo <= r <= hi
    ensures lo <= c <= hi ==> r == c
  {
    Max(lo, Min(c, hi))
  }

  /** The point of the box nearest the centre. */
  function ClampedPoint(c: Vec3, min: Vec3, max: Vec3): (p: Vec3)
    ensures Ordered(min, max) ==> Contains(Box(min, max), p)
    ensures Contains(Box(min, max), c) ==> p == c
  {
    Vec3(ClampCoord(c.x, min.x, max.x), ClampCoord(c.y, min.y, max.y), ClampCoord(c.z, min.z, max.z))
  }

  /** glm::normalize; the zero vector normalises to NaN, which no box contains, so it is None here. */
  function Normalize(v: Vec3, sqrt: real -> real): Option<Vec3> {
    var len := Length(v, sqrt);
    if len == 0.0 then None else Some(Scale(1.0 / len, v))
  }

  /** A square with the scale factor pulled out: |k v|^2 = k^2 |v|^2. */
  lemma DotScaleSelf(k: real, v: Vec3)
    ensures Dot(Scale(k, v), Scale(k, v)) == Product(k, k) * Dot(v, v)
  {
  }

  /** Scaling a non-zero v by the reciprocal of a non-negative square root of |v|^2 gives a unit vector. */
  lemma ReciprocalScaleIsUnit(v: Vec3, len: real)
    requires v != Zero && len >= 0.0 && Product(len, len) == Dot(v, v)
    ensures len > 0.0
    ensures Dot(Scale(1.0 / len, v), Scale(1.0 / len, v)) == 1.0
  {
    DotSelfNonNegative(v);
    assert len != 0.0;
    var k := 1.0 / len;
    DotScaleSelf(k, v);
    assert Product(k, k) * Product(len, len) == Product(k * len, k * len);
    assert k * len == 1.0;
  }

  /** A faithful square root makes Length a non-negative root of |v|^2. */
  lemma LengthSquared(v: Vec3, sqrt: real -> real)
    requires IsSqrt(sqrt)
    ensures 0.0 <= Length(v, sqrt) && Product(Length(v, sqrt), Length(v, sqrt)) == Dot(v, v)
  {
    DotSelfNonNegative(v);
    assert 0.0 <= sqrt(Dot(v, v)) && sqrt(Dot(v, v)) * sqrt(Dot(v, v)) == Dot(v, v);
  }

  /** Normalize, given only that Length squares to |v|^2. */
  lemma NormalizeByLength(v: Vec3, sqrt: real -> real)
    requires 0.0 <= Length(v, sqrt) && Product(Length(v, sqrt), Length(v, sqrt)) == Dot(v, v)
    ensures Normalize(v, sqrt).Some? <==> v != Zero
    ensures v != Zero ==>
      && Length(v, sqrt) > 0.0
      && Normalize(v, sqrt).value == Scale(1.0 / Length(v, sqrt), v)
      && Dot(Normalize(v, sqrt).value, Normalize(v, sqrt).value) == 1.0
  {
    var len := Length(v, sqrt);
    if v == Zero {
      if len != 0.0 {
        SquarePositive(len);
      }
    } else {
      ReciprocalScaleIsUnit(v, len);
    }
  }

  /** Under a faithful square root exactly the non-zero vectors normalise, and to unit vectors pointing the same way. */
  lemma NormalizeIsUnit(v: Vec3, sqrt: real -> real)
    ensures IsSqrt(sqrt) ==> (Normalize(v, sqrt).Some? <==> v != Zero)
    ensures IsSqrt(sqrt) && v != Zero ==>
      && Length(v, sqrt) > 0.0
      && Normalize(v, sqrt).value == Scale(1.0 / Length(v, sqrt), v)
      && Dot(Normalize(v, sqrt).value, Normalize(v, sqrt).value) == 1.0
  {
    if IsSqrt(sqrt) {
      LengthSquared(v, sqrt);
      NormalizeByLength(v, sqrt);
    }
  }

  /**
   * The normal an Intersection keeps: the constructor stores
   * glm::normalize of the normal it is given.  The zero vector has no
   * direction (glm yields NaN); Zero stands for it.
   */
  function HitNormal(v: Vec3, sqrt: real -> real): (u: Vec3)
    ensures IsSqrt(sqrt) && v != Zero ==> Dot(u, u) == 1.0 && Normalize(v, sqrt) == Some(u)
    ensures IsSqrt(sqrt) && v == Zero ==> u == Zero
  {
    NormalizeIsUnit(v, sqrt);
    match Normalize(v, sqrt)
    case Some(u) => u
    case None => Zero
  }

  /**
   * Sphere::isInside: the box contains the centre, or the point at radius
   * from the centre towards the box's midpoint, or the midpoint is within the
   * radius, or the clamped point is closer than the radius.
   */
  function SphereInside(center: Vec3, radius: real, box: Aabb, sqrt: real -> real): (r: bool)
    ensures box.EmptyBox? ==> !r
    ensures Contains(box, center) ==> r
    ensures box.Box? && Distance(ClampedPoint(center, box.min, box.max), center, sqrt) < radius ==> r
  {
    match box
    case EmptyBox => false
    case Box(min, max) =>
      var p := ClampedPoint(center, min, max);
      var distance := Distance(p, center, sqrt);
      var towardsMid := Sub(MidPoint(min, max), center);
      var probe := match Normalize(towardsMid, sqrt)
        case None => false
        case Some(u) => Contains(box, Add(Scale(radius, u), center));
      Contains(box, center) || probe || radius > Length(towardsMid, sqrt) || distance < radius
  }

  lemma SquareMonotone(a: real, b: real)
    requires 0.0 <= a <= b
    ensures Product(a, a) <= Product(b, b)
  {
    if a < b {
      ProductPositive(b - a, b + a);
      assert Product(b - a, b + a) == Product(b, b) - Product(a, a);
    }
  }

  /** Clamping a coordinate into [lo, hi] brings it no further from c than any q in [lo, hi]. */
  lemma ClampCoordNearest(c: real, lo: real, hi: real, q: real)
    requires lo <= q <= hi
    ensures var d := ClampCoord(c, lo, hi) - c; Product(d, d) <= Product(q - c, q - c)
  {
    var d := ClampCoord(c, lo, hi) - c;
    if c < lo {
      SquareMonotone(d, q - c);
    } else if c > hi {
      SquareMonotone(-d, c - q);
      assert Product(d, d) == Product(-d, -d);
      assert Product(q - c, q - c) == Product(c - q, c - q);
    } else {
      SquareNonNegative(q - c);
    }
  }

  /** The clamped point is the point of the box nearest the centre. */
  lemma ClampedPointNearest(center: Vec3, min: Vec3, max: Vec3, q: Vec3)
    requires Contains(Box(min, max), q)
    ensures var dp := Sub(ClampedPoint(center, min, max), center);
      Dot(dp, dp) <= Dot(Sub(q, center), Sub(q, center))
  {
    var dp, dq := Sub(ClampedPoint(center, min, max), center), Sub(q, center);
    ClampCoordNearest(center.x, min.x, max.x, q.x);
    ClampCoordNearest(center.y, min.y, max.y, q.y);
    ClampCoordNearest(center.z, min.z, max.z, q.z);
    DotSelfAsProducts(dp);
    DotSelfAsProducts(dq);
  }

  /** A square root of something below r^2 is below r. */
  lemma SqrtBelow(sqrt: real -> real, d: real, r: real)
    requires IsSqrt(sqrt)
    requires 0.0 <= d < Product(r, r) && r > 0.0
    ensures sqrt(d) < r
  {
    var s := sqrt(d);
    assert s >= 0.0 && s * s == d;
    if s >= r {
      SquareMonotone(r, s);
      assert false;
    }
  }

  /**
   * No false negatives: if any point of a box is strictly within the
   * radius of the centre, isInside holds (via the clamped point).
   */
  lemma SphereInsideWhenTouching(center: Vec3, radius: real, min: Vec3, max: Vec3, q: Vec3, sqrt: real -> real)
    requires IsSqrt(sqrt)
    requires Contains(Box(min, max), q)
    requires Dot(Sub(q, center), Sub(q, center)) < Product(radius, radius)
    requires radius > 0.0
    ensures SphereInside(center, radius, Box(min, max), sqrt)
  {
    var dp := Sub(ClampedPoint(center, min, max), center);
    ClampedPointNearest(center, min, max, q);
    DotSelfNonNegative(dp);
    SqrtBelow(sqrt, Dot(dp, dp), radius);
  }

  // ---------------------------------------------------------------------------
  // Dispatch

  /** Shape::intersect: the sphere or triangle intersection (Sphere.cpp, Triangle.cpp). */
  function Intersect(s: Shape, ray: Ray, sqrt: real -> real): (r: Intersection)
    ensures r.Some? ==> r.value.objectIndex == -1
    ensures IsSqrt(sqrt) && r.Some? && s.Triangle? ==> UnitPlaneNormal(r.value.normal, s.v1, s.v2, s.v3)
    ensures IsSqrt(sqrt) && r.Some? ==> r.value.normal == Zero || Dot(r.value.normal, r.value.normal) == 1.0
  {
    match s
    case Sphere(c, radius, frame) => SphereIntersect(c, radius, frame, ray, sqrt)
    case Triangle(v1, v2, v3, _, _, _) => TriangleIntersect(v1, v2, v3, ray, sqrt)
  }

  /** Shape::intersect of SceneObjects.hpp, with its own triangle intersection. */
  function LegacyIntersect(s: Shape, ray: Ray, sqrt: real -> real): (r: Intersection)
    ensures r.Some? ==> r.value.objectIndex == -1
    ensures r.Some? ==> Intersect(s, ray, sqrt) == r
  {
    match s
    case Sphere(c, radius, frame) => SphereIntersect(c, radius, frame, ray, sqrt)
    case Triangle(v1, v2, v3, _, _, _) =>
      LegacyTriangleHitsAgree(v1, v2, v3, ray, sqrt);
      LegacyTriangleIntersect(v1, v2, v3, ray, sqrt)
  }

  /** Shape::isInside / AABB::contains(shape): does the shape touch the box. */
  function Inside(s: Shape, box: Aabb, sqrt: real -> real): (r: bool)
    ensures box.EmptyBox? ==> !r
  {
    match s
    case Sphere(c, radius, _) => SphereInside(c, radius, box, sqrt)
    case Triangle(v1, v2, v3, _, _, _) => TriangleInside(v1, v2, v3, box)
  }
}
