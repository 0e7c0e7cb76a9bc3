/**
 * Axis-aligned bounding boxes, as RayTracer/AABB.cpp implements them, plus
 * the older struct AABB of RayTracer/SceneObjects.hpp where it differs.
 *
 * The default-constructed box has min = +infinity and max = -infinity on
 * every axis; it is the datatype case EmptyBox here.  Its IEEE behaviour is
 * written out case by case: AABB::intersect reports no hit for it (the hit
 * distance comes out as +infinity), the older bool intersect answers true,
 * it contains no point, and expanding it by a shape yields the shape's bounds.
 */
module Boxes {
  import opened Wrappers
  import opened Geometry

  datatype Axis = X | Y | Z

  datatype Aabb = EmptyBox | Box(min: Vec3, max: Vec3)

  function Coord(v: Vec3, a: Axis): real {
    match a
    case X => v.x
    case Y => v.y
    case Z => v.z
  }

  /** Direction components within this distance of 0 are replaced ... */
  const SlabEpsilon: real := 0.0001
  /** ... by this small positive divisor. */
  const SlabSubstitute: real := 0.00001

  /** The divisor one slab uses for a direction component. */
  function SlabDivisor(d: real): (r: real)
    ensures r != 0.0
    ensures r == d || r == SlabSubstitute
    ensures Abs(r) >= SlabSubstitute
  {
    if EpsilonEqual(d, 0.0, SlabEpsilon) then SlabSubstitute else d
  }

  /**
   * t1..t6 of the slab test: where the ray, its direction adjusted by
   * SlabDivisor, crosses the planes min.x, max.x, min.y, max.y, min.z, max.z.
   */
  function SlabTimes(min: Vec3, max: Vec3, ray: Ray): (ts: seq<real>)
    ensures |ts| == 6
    ensures ts[0] * SlabDivisor(ray.dir.x) == min.x - ray.origin.x
    ensures ts[1] * SlabDivisor(ray.dir.x) == max.x - ray.origin.x
    ensures ts[2] * SlabDivisor(ray.dir.y) == min.y - ray.origin.y
    ensures ts[3] * SlabDivisor(ray.dir.y) == max.y - ray.origin.y
    ensures ts[4] * SlabDivisor(ray.dir.z) == min.z - ray.origin.z
    ensures ts[5] * SlabDivisor(ray.dir.z) == max.z - ray.origin.z
  {
    var dx, dy, dz := SlabDivisor(ray.dir.x), SlabDivisor(ray.dir.y), SlabDivisor(ray.dir.z);
    [(min.x - ray.origin.x) / dx, (max.x - ray.origin.x) / dx,
     (min.y - ray.origin.y) / dy, (max.y - ray.origin.y) / dy,
     (min.z - ray.origin.z) / dz, (max.z - ray.origin.z) / dz]
  }

  /** The latest entry time over the three slabs. */
  function EntryTime(ts: seq<real>): (t: real)
    requires |ts| == 6
    ensures t >= Min(ts[0], ts[1]) && t >= Min(ts[2], ts[3]) && t >= Min(ts[4], ts[5])
    ensures t in ts
  {
    Max(Max(Min(ts[0], ts[1]), Min(ts[2], ts[3])), Min(ts[4], ts[5]))
  }

  /** The earliest exit time over the three slabs. */
  function ExitTime(ts: seq<real>): (t: real)
    requires |ts| == 6
    ensures t <= Max(ts[0], ts[1]) && t <= Max(ts[2], ts[3]) && t <= Max(ts[4], ts[5])
    ensures t in ts
  {
    Min(Min(Max(ts[0], ts[1]), Max(ts[2], ts[3])), Max(ts[4], ts[5]))
  }

  /** The outward normals paired with t1..t6. */
  function FaceNormal(i: nat): Vec3
    requires i < 6
  {
    [Vec3(-1.0, 0.0, 0.0), Vec3(1.0, 0.0, 0.0),
     Vec3(0.0, -1.0, 0.0), Vec3(0.0, 1.0, 0.0),
     Vec3(0.0, 0.0, -1.0), Vec3(0.0, 0.0, 1.0)][i]
  }

  const NormalEpsilon: real := 0.0001

  /**
   * The normal-selecting loop: from position i on, every t[k] within
   * NormalEpsilon of t overwrites the choice made so far.
   */
  function ScanNormals(ts: seq<real>, t: real, i: nat, chosen: Option<nat>): (r: Option<nat>)
    requires i <= |ts|
    requires chosen.Some? ==> chosen.value < |ts|
    ensures chosen.Some? ==> r.Some?
    ensures r.Some? ==> r.value < |ts|
    decreases |ts| - i
  {
    if i == |ts| then chosen
    else ScanNormals(ts, t, i + 1, if EpsilonEqual(t, ts[i], NormalEpsilon) then Some(i) else chosen)
  }

  /** AABB::intersect.  The hit distance is the entry time, or the exit time when the origin is inside. */
  function Intersect(box: Aabb, ray: Ray): (r: Intersection)
    ensures box.EmptyBox? ==> r.None?
    ensures r.Some? ==> r.value.dist >= 0.0 && r.value.objectIndex == -1
  {
    match box
    case EmptyBox => None
    case Box(min, max) =>
      var ts := SlabTimes(min, max, ray);
      var tmin, tmax := EntryTime(ts), ExitTime(ts);
      if tmax < 0.0 then None
      else if tmin > tmax then None
      else
        var t := if tmin < 0.0 then tmax else tmin;
        var normal := match ScanNormals(ts, t, 0, None)
          case Some(k) => FaceNormal(k)
          case None => Zero;
        Some(Hit(t, -1, normal))
  }

  /** The box test reports no hit exactly when the slab interval is behind the origin or empty. */
  lemma IntersectMissesExactly(min: Vec3, max: Vec3, ray: Ray)
    ensures var ts := SlabTimes(min, max, ray);
      Intersect(Box(min, max), ray).None? <==> ExitTime(ts) < 0.0 || EntryTime(ts) > ExitTime(ts)
  {
  }

  /** A reported distance is the entry time if that is not negative, otherwise the exit time; it lies in [0, exit]. */
  lemma IntersectDistance(min: Vec3, max: Vec3, ray: Ray)
    requires Intersect(Box(min, max), ray).Some?
    ensures var ts := SlabTimes(min, max, ray);
      var h := Intersect(Box(min, max), ray).value;
      && h.dist == (if EntryTime(ts) >= 0.0 then EntryTime(ts) else ExitTime(ts))
      && 0.0 <= h.dist <= ExitTime(ts)
      && EntryTime(ts) <= h.dist
      && h.objectIndex == -1
  {
  }

  /** The scan's choice is the last position within NormalEpsilon of t. */
  lemma {:induction false} ScanNormalsLast(ts: seq<real>, t: real, i: nat, chosen: Option<nat>)
    requires i <= |ts|
    requires chosen.Some? ==> chosen.value < i && EpsilonEqual(t, ts[chosen.value], NormalEpsilon)
    requires chosen.Some? ==> forall j :: chosen.value < j < i ==> !EpsilonEqual(t, ts[j], NormalEpsilon)
    requires chosen.None? ==> forall j :: 0 <= j < i ==> !EpsilonEqual(t, ts[j], NormalEpsilon)
    ensures var r := ScanNormals(ts, t, i, chosen);
      match r
      case Some(k) =>
        && k < |ts| && EpsilonEqual(t, ts[k], NormalEpsilon)
        && forall j :: k < j < |ts| ==> !EpsilonEqual(t, ts[j], NormalEpsilon)
      case None => forall j :: 0 <= j < |ts| ==> !EpsilonEqual(t, ts[j], NormalEpsilon)
    decreases |ts| - i
  {
    if i < |ts| {
      var next := if EpsilonEqual(t, ts[i], NormalEpsilon) then Some(i) else chosen;
      ScanNormalsLast(ts, t, i + 1, next);
    }
  }

  /**
   * The reported normal is the face normal of the last t1..t6 within
   * NormalEpsilon of the hit distance.  Such a face always exists, because
   * the distance is itself one of t1..t6, so the normal is never left unset.
   */
  lemma IntersectNormal(min: Vec3, max: Vec3, ray: Ray)
    requires Intersect(Box(min, max), ray).Some?
    ensures var ts := SlabTimes(min, max, ray);
      var h := Intersect(Box(min, max), ray).value;
      exists k :: 0 <= k < 6 && h.normal == FaceNormal(k)
        && EpsilonEqual(h.dist, ts[k], NormalEpsilon)
        && forall j :: k < j < 6 ==> !EpsilonEqual(h.dist, ts[j], NormalEpsilon)
  {
    var ts := SlabTimes(min, max, ray);
    var tmin, tmax := EntryTime(ts), ExitTime(ts);
    var t := if tmin < 0.0 then tmax else tmin;
    assert t in ts;
    var i :| 0 <= i < 6 && ts[i] == t;
    assert EpsilonEqual(t, ts[i], NormalEpsilon);
    ScanNormalsLast(ts, t, 0, None);
    var k := ScanNormals(ts, t, 0, None).value;
    assert Intersect(Box(min, max), ray).value.normal == FaceNormal(k);
  }

  /** The older bool AABB::intersect of SceneObjects.hpp. */
  function LegacyIntersects(box: Aabb, ray: Ray): bool {
    match box
    case EmptyBox => true
    case Box(min, max) =>
      var ts := SlabTimes(min, max, ray);
      !(ExitTime(ts) < 0.0) && !(EntryTime(ts) > ExitTime(ts))
  }

  /** On a proper box the bool test agrees with the Intersection-returning one; on the empty box they disagree. */
  lemma LegacyIntersectsAgrees(box: Aabb, ray: Ray)
    ensures box.Box? ==> (LegacyIntersects(box, ray) <==> Intersect(box, ray).Some?)
    ensures box.EmptyBox? ==> LegacyIntersects(box, ray) && Intersect(box, ray).None?
  {
  }

  /** AABB::contains(point): inclusive on all six faces. */
  function Contains(box: Aabb, p: Vec3): (r: bool)
    ensures r ==> box.Box? && Ordered(box.min, box.max)
  {
    match box
    case EmptyBox => false
    case Box(min, max) =>
      p.x <= max.x && p.x >= min.x && p.y <= max.y && p.y >= min.y && p.z <= max.z && p.z >= min.z
  }

  predicate Ordered(lo: Vec3, hi: Vec3) {
    lo.x <= hi.x && lo.y <= hi.y && lo.z <= hi.z
  }

  /** With min <= max both corners are inside (faces count as inside). */
  lemma ContainsCorners(min: Vec3, max: Vec3)
    requires Ordered(min, max)
    ensures Contains(Box(min, max), min) && Contains(Box(min, max), max)
  {
  }

  function Extent(min: Vec3, max: Vec3, a: Axis): real {
    Coord(max, a) - Coord(min, a)
  }

  /**
   * AABB::getLongestAxis: an axis of greatest extent, Z preferred on ties,
   * then Y.  (On the empty box every extent is -infinity, so Z.)
   */
  function LongestAxis(box: Aabb): (a: Axis)
    ensures box.Box? ==> forall b :: Extent(box.min, box.max, a) >= Extent(box.min, box.max, b)
    ensures box.Box? && a == Y ==> Extent(box.min, box.max, Y) > Extent(box.min, box.max, Z)
    ensures box.Box? && a == X ==>
      Extent(box.min, box.max, X) > Extent(box.min, box.max, Y) && Extent(box.min, box.max, X) > Extent(box.min, box.max, Z)
    ensures box.EmptyBox? ==> a == Z
  {
    match box
    case EmptyBox => Z
    case Box(min, max) =>
      var longest := Max(max.z - min.z, Max(max.x - min.x, max.y - min.y));
      if max.z - min.z == longest then Z
      else if max.y - min.y == longest then Y
      else X
  }

  /**
   * The older getLongestAxis of SceneObjects.hpp: it compares the max
   * corner's coordinates, not the extents, with the same Z, Y, X priority.
   */
  function LegacyLongestAxis(box: Aabb): (a: Axis)
    ensures box.Box? ==> forall b :: Coord(box.max, a) >= Coord(box.max, b)
    ensures box.Box? && a == Y ==> box.max.y > box.max.z
    ensures box.Box? && a == X ==> box.max.x > box.max.y && box.max.x > box.max.z
    ensures box.EmptyBox? ==> a == Z
  {
    match box
    case EmptyBox => Z
    case Box(min, max) =>
      var largest := Max(max.z, Max(max.x, max.y));
      if max.z == largest then Z
      else if max.y == largest then Y
      else X
  }

  /** The two longest-axis rules disagree on a box whose long side lies on X but whose max corner peaks in Z. */
  lemma LongestAxisRulesDiffer()
    ensures var b := Box(Vec3(-10.0, 0.0, 0.0), Vec3(1.0, 1.0, 2.0));
      LongestAxis(b) == X && LegacyLongestAxis(b) == Z
  {
  }

  /** getMidPoint as written: `max - min / 2`, division binding tighter than subtraction. */
  function MidPoint(min: Vec3, max: Vec3): Vec3 {
    Sub(max, Scale(0.5, min))
  }

  /** The true centre of a box. */
  function Centre(min: Vec3, max: Vec3): Vec3 {
    Scale(0.5, Add(min, max))
  }

  /** getMidPoint agrees with the centre exactly when max = 2 * min on every axis. */
  lemma MidPointIsCentreOnlyWhenMaxDoublesMin(min: Vec3, max: Vec3)
    ensures MidPoint(min, max) == Centre(min, max) <==> max == Scale(2.0, min)
  {
  }

  function AxisIndex(a: Axis): nat {
    match a
    case X => 0
    case Y => 1
    case Z => 2
  }

  /**
   * A switch whose cases have no `break`: execution enters at case `i`
   * and runs every later case, so the last assignment wins.
   */
  function RunCasesFrom(cases: seq<Vec3>, i: nat, current: Vec3): Vec3
    requires i <= |cases|
    decreases |cases| - i
  {
    if i == |cases| then current else RunCasesFrom(cases, i + 1, cases[i])
  }

  lemma {:induction false} RunCasesFromLast(cases: seq<Vec3>, i: nat, current: Vec3)
    requires i < |cases|
    ensures RunCasesFrom(cases, i, current) == cases[|cases| - 1]
    decreases |cases| - i
  {
    if i + 1 < |cases| {
      RunCasesFromLast(cases, i + 1, cases[i]);
    }
  }

  /** The left half's max corner: the switch of splitLeft, entered at the given axis. */
  function SplitLeftMax(min: Vec3, max: Vec3, a: Axis): Vec3 {
    var mid := MidPoint(min, max);
    RunCasesFrom([Vec3(mid.x, max.y, max.z), Vec3(max.x, mid.y, max.z), Vec3(max.x, max.y, mid.z)], AxisIndex(a), Zero)
  }

  /** The right half's min corner: the switch of splitRight, entered at the given axis. */
  function SplitRightMin(min: Vec3, max: Vec3, a: Axis): Vec3 {
    var mid := MidPoint(min, max);
    RunCasesFrom([Vec3(mid.x, min.y, min.z), Vec3(min.x, mid.y, min.z), Vec3(min.x, min.y, mid.z)], AxisIndex(a), Zero)
  }

  /** The cut plane every split actually uses: z = max.z - min.z / 2. */
  function CutZ(min: Vec3, max: Vec3): real {
    max.z - min.z / 2.0
  }

  /**
   * AABB::splitLeft.  Because the switch falls through, the result is the
   * Z case whatever the longest axis: only max.z moves, to the cut plane.
   * (Both halves of the empty box stay empty.)
   */
  function SplitLeft(box: Aabb): (r: Aabb)
    ensures box.Box? ==> r == Box(box.min, Vec3(box.max.x, box.max.y, CutZ(box.min, box.max)))
    ensures box.EmptyBox? ==> r.EmptyBox?
  {
    match box
    case EmptyBox => EmptyBox
    case Box(min, max) =>
      var mid := MidPoint(min, max);
      RunCasesFromLast([Vec3(mid.x, max.y, max.z), Vec3(max.x, mid.y, max.z), Vec3(max.x, max.y, mid.z)], AxisIndex(LongestAxis(box)), Zero);
      Box(min, SplitLeftMax(min, max, LongestAxis(box)))
  }

  /** AABB::splitRight: only min.z moves, to the same cut plane. */
  function SplitRight(box: Aabb): (r: Aabb)
    ensures box.Box? ==> r == Box(Vec3(box.min.x, box.min.y, CutZ(box.min, box.max)), box.max)
    ensures box.EmptyBox? ==> r.EmptyBox?
  {
    match box
    case EmptyBox => EmptyBox
    case Box(min, max) =>
      var mid := MidPoint(min, max);
      RunCasesFromLast([Vec3(mid.x, min.y, min.z), Vec3(min.x, mid.y, min.z), Vec3(min.x, min.y, mid.z)], AxisIndex(LongestAxis(box)), Zero);
      Box(SplitRightMin(min, max, LongestAxis(box)), max)
  }

  /** The older split of SceneObjects.hpp enters its switch at the legacy longest axis; it falls through the same way. */
  function LegacySplitLeft(box: Aabb): Aabb {
    match box
    case EmptyBox => EmptyBox
    case Box(min, max) => Box(min, SplitLeftMax(min, max, LegacyLongestAxis(box)))
  }

  function LegacySplitRight(box: Aabb): Aabb {
    match box
    case EmptyBox => EmptyBox
    case Box(min, max) => Box(SplitRightMin(min, max, LegacyLongestAxis(box)), max)
  }

  /** Whichever axis the switch is entered at, the split is the Z case, so both AABB variants split identically. */
  lemma SplitIgnoresAxis(box: Aabb)
    ensures LegacySplitLeft(box) == SplitLeft(box)
    ensures LegacySplitRight(box) == SplitRight(box)
  {
    match box
    case EmptyBox =>
    case Box(min, max) =>
      var mid := MidPoint(min, max);
      RunCasesFromLast([Vec3(mid.x, max.y, max.z), Vec3(max.x, mid.y, max.z), Vec3(max.x, max.y, mid.z)], AxisIndex(LegacyLongestAxis(box)), Zero);
      RunCasesFromLast([Vec3(mid.x, min.y, min.z), Vec3(min.x, mid.y, min.z), Vec3(min.x, min.y, mid.z)], AxisIndex(LegacyLongestAxis(box)), Zero);
  }

  /** The halves meet at the cut: left keeps min, max.x and max.y; right keeps max, min.x and min.y. */
  lemma SplitHalvesMeet(min: Vec3, max: Vec3)
    ensures SplitLeft(Box(min, max)).max.z == SplitRight(Box(min, max)).min.z == max.z - min.z / 2.0
    ensures SplitLeft(Box(min, max)).min == min && SplitRight(Box(min, max)).max == max
    ensures SplitLeft(Box(min, max)).max.x == max.x && SplitLeft(Box(min, max)).max.y == max.y
    ensures SplitRight(Box(min, max)).min.x == min.x && SplitRight(Box(min, max)).min.y == min.y
  {
  }

  /** When the cut plane lies within the box, every point of the box lies in one of the halves. */
  lemma SplitCoversWhenCutInside(min: Vec3, max: Vec3, p: Vec3)
    requires min.z <= CutZ(min, max) <= max.z
    requires Contains(Box(min, max), p)
    ensures Contains(SplitLeft(Box(min, max)), p) || Contains(SplitRight(Box(min, max)), p)
  {
  }

  /**
   * Because of the midpoint's precedence the cut can leave the box: for a
   * box spanning z in [-4, 0] it lies at z = 2, so the left half pokes out
   * of its parent and the right half is inverted.
   */
  lemma SplitCanLeaveTheBox()
    ensures var b := Box(Vec3(0.0, 0.0, -4.0), Vec3(1.0, 1.0, 0.0));
      && SplitLeft(b).max.z > b.max.z
      && SplitRight(b).min.z > SplitRight(b).max.z
  {
  }

  /** AABB::expand: widen each side that the shape's bounds [lo, hi] stick out of. */
  function Expand(box: Aabb, lo: Vec3, hi: Vec3): (r: Aabb)
    ensures r.Box?
    ensures r.min.x <= lo.x && r.min.y <= lo.y && r.min.z <= lo.z
    ensures r.max.x >= hi.x && r.max.y >= hi.y && r.max.z >= hi.z
    ensures box.Box? ==> Ordered(r.min, box.min) && Ordered(box.max, r.max)
    ensures box.EmptyBox? ==> r == Box(lo, hi)
  {
    match box
    case EmptyBox => Box(lo, hi)
    case Box(min, max) =>
      Box(Vec3(if lo.x < min.x then lo.x else min.x,
               if lo.y < min.y then lo.y else min.y,
               if lo.z < min.z then lo.z else min.z),
          Vec3(if hi.x > max.x then hi.x else max.x,
               if hi.y > max.y then hi.y else max.y,
               if hi.z > max.z then hi.z else max.z))
  }

  /** Expanding twice by the same bounds changes nothing the second time. */
  lemma ExpandIdempotent(box: Aabb, lo: Vec3, hi: Vec3)
    ensures Expand(Expand(box, lo, hi), lo, hi) == Expand(box, lo, hi)
  {
  }

  /** The order in which two shapes are added does not matter. */
  lemma ExpandCommutes(box: Aabb, lo1: Vec3, hi1: Vec3, lo2: Vec3, hi2: Vec3)
    ensures Expand(Expand(box, lo1, hi1), lo2, hi2) == Expand(Expand(box, lo2, hi2), lo1, hi1)
  {
  }

  /** A point the box contained before expansion is still contained. */
  lemma ExpandKeepsPoints(box: Aabb, lo: Vec3, hi: Vec3, p: Vec3)
    requires Contains(box, p)
    ensures Contains(Expand(box, lo, hi), p)
  {
  }
}
