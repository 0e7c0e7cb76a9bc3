/**
 * The stand-alone preview renderer of RayTracer/main.cpp: its own shape
 * record with an integer colour, float-returning intersections that use -1
 * for "no hit", a linear nearest-object scan and the loop that fills the
 * BGR pixel buffer.  Camera rays are a parameter: the camera is not part of
 * this model.
 */
module Preview {
  import opened Wrappers
  import opened Geometry
  import Shapes

  /** main.cpp's Color: plain ints. */
  datatype Rgb = Rgb(r: int, g: int, b: int)

  datatype Object =
    | Ball(center: Vec3, radius: real, color: Rgb)
    | Tri(v1: Vec3, v2: Vec3, v3: Vec3, color: Rgb)

  /** The "no hit" value of both intersections. */
  const NoHit: real := -1.0

  /** Rays this close to perpendicular to the unit normal are treated as parallel. */
  const PreviewParallelEpsilon: real := 0.1

  /**
   * The side test of one edge, in the xy projection: the dot product of
   * (P - A) with the edge A->B turned a quarter, strictly positive.
   */
  predicate LeftOf(p: Vec3, a: Vec3, b: Vec3) {
    (p.x - a.x) * (a.y - b.y) + (p.y - a.y) * (b.x - a.x) > 0.0
  }

  /**
   * The body of intersectTriangle once the unit normal n is known: the
   * distance along the ray to the plane when the three projected side tests
   * (edges v1->v3, v3->v2, v2->v1) agree, -1 when the ray is within 0.1 of
   * parallel to the plane or the tests disagree.  The distance is not
   * checked for sign.
   */
  function TriangleWithNormal(ray: Ray, v1: Vec3, v2: Vec3, v3: Vec3, n: Vec3): (r: real)
    ensures EpsilonEqual(Dot(ray.dir, n), 0.0, PreviewParallelEpsilon) ==> r == NoHit
    ensures !EpsilonEqual(Dot(ray.dir, n), 0.0, PreviewParallelEpsilon) ==>
      var t := Shapes.PlaneHitTime(v1, n, ray);
      var p := PointAt(ray, t);
      && (LeftOf(p, v1, v3) == LeftOf(p, v3, v2) == LeftOf(p, v2, v1) ==> r == t)
      && (!(LeftOf(p, v1, v3) == LeftOf(p, v3, v2) == LeftOf(p, v2, v1)) ==> r == NoHit)
  {
    if EpsilonEqual(Dot(ray.dir, n), 0.0, PreviewParallelEpsilon) then NoHit
    else
      var distAlongRay := Shapes.PlaneHitTime(v1, n, ray);
      var p := PointAt(ray, distAlongRay);
      var a, c, b := v1, v2, v3;
      var b0 := LeftOf(p, a, b);
      var b1 := LeftOf(p, b, c);
      var b2 := LeftOf(p, c, a);
      if b0 == b1 && b1 == b2 then distAlongRay else NoHit
  }

  /**
   * intersectTriangle: the plane normal is the normalised cross product of
   * the edges v1->v2 and v1->v3; a degenerate triangle has none and misses.
   */
  function IntersectTriangle(ray: Ray, v1: Vec3, v2: Vec3, v3: Vec3, sqrt: real -> real): (r: real)
    ensures Shapes.Normalize(Cross(Sub(v2, v1), Sub(v3, v1)), sqrt).None? ==> r == NoHit
    ensures Shapes.Normalize(Cross(Sub(v2, v1), Sub(v3, v1)), sqrt).Some? ==>
      r == TriangleWithNormal(ray, v1, v2, v3, Shapes.Normalize(Cross(Sub(v2, v1), Sub(v3, v1)), sqrt).value)
  {
    match Shapes.Normalize(Cross(Sub(v2, v1), Sub(v3, v1)), sqrt)
    case None => NoHit
    case Some(n) => TriangleWithNormal(ray, v1, v2, v3, n)
  }

  /** An accepted distance puts the hit point on the triangle's plane. */
  lemma PreviewTriangleHitOnPlane(ray: Ray, v1: Vec3, v2: Vec3, v3: Vec3, n: Vec3)
    requires !EpsilonEqual(Dot(ray.dir, n), 0.0, PreviewParallelEpsilon)
    requires var p := PointAt(ray, Shapes.PlaneHitTime(v1, n, ray));
      LeftOf(p, v1, v3) == LeftOf(p, v3, v2) == LeftOf(p, v2, v1)
    ensures Dot(PointAt(ray, TriangleWithNormal(ray, v1, v2, v3, n)), n) == Dot(v1, n)
  {
    var t := Shapes.PlaneHitTime(v1, n, ray);
    assert TriangleWithNormal(ray, v1, v2, v3, n) == t;
    Shapes.DotAlongRay(ray, t, n);
    Shapes.QuotientTimesDivisor(Dot(v1, n) - Dot(ray.origin, n), Dot(ray.dir, n));
  }

  /** A vector of squared length 1 normalises to itself. */
  lemma NormalizeUnit(n: Vec3, sqrt: real -> real)
    requires sqrt(1.0) == 1.0
    requires Dot(n, n) == 1.0
    ensures Shapes.Normalize(n, sqrt) == Some(n)
  {
    assert Length(n, sqrt) == 1.0;
    assert Scale(1.0 / 1.0, n) == n;
  }

  /**
   * The unit normal of the example triangle with corners at the origin, x
   * and y.  The corners are named parameters so that Normalize is never
   * unfolded on literal arguments.
   */
  lemma NormalOfXY(v1: Vec3, v2: Vec3, v3: Vec3, sqrt: real -> real)
    requires sqrt(1.0) == 1.0
    requires v1 == Zero && v2 == Vec3(1.0, 0.0, 0.0) && v3 == Vec3(0.0, 1.0, 0.0)
    ensures Shapes.Normalize(Cross(Sub(v2, v1), Sub(v3, v1)), sqrt) == Some(Vec3(0.0, 0.0, 1.0))
  {
    NormalizeUnit(Vec3(0.0, 0.0, 1.0), sqrt);
  }

  /** The unit normal of the example triangle with corners at the origin, y and z. */
  lemma NormalOfYZ(v1: Vec3, v2: Vec3, v3: Vec3, sqrt: real -> real)
    requires sqrt(1.0) == 1.0
    requires v1 == Zero && v2 == Vec3(0.0, 1.0, 0.0) && v3 == Vec3(0.0, 0.0, 1.0)
    ensures Shapes.Normalize(Cross(Sub(v2, v1), Sub(v3, v1)), sqrt) == Some(Vec3(1.0, 0.0, 0.0))
  {
    NormalizeUnit(Vec3(1.0, 0.0, 0.0), sqrt);
  }

  /**
   * The distance is not checked for sign: a triangle two units behind the
   * ray's origin is answered with -2, which only the closest-object scan's
   * `>= 0` filter discards.
   */
  lemma PreviewTriangleBehindRay(sqrt: real -> real)
    requires sqrt(1.0) == 1.0
    ensures IntersectTriangle(Ray(Vec3(0.2, 0.2, 2.0), Vec3(0.0, 0.0, 1.0)),
                              Zero, Vec3(1.0, 0.0, 0.0), Vec3(0.0, 1.0, 0.0), sqrt) == -2.0
  {
    var ray := Ray(Vec3(0.2, 0.2, 2.0), Vec3(0.0, 0.0, 1.0));
    var v1, v2, v3 := Zero, Vec3(1.0, 0.0, 0.0), Vec3(0.0, 1.0, 0.0);
    var n := Vec3(0.0, 0.0, 1.0);
    assert IntersectTriangle(ray, v1, v2, v3, sqrt) == TriangleWithNormal(ray, v1, v2, v3, n) by {
      NormalOfXY(v1, v2, v3, sqrt);
    }
    BehindRayWithNormal();
  }

  lemma BehindRayWithNormal()
    ensures TriangleWithNormal(Ray(Vec3(0.2, 0.2, 2.0), Vec3(0.0, 0.0, 1.0)),
                               Zero, Vec3(1.0, 0.0, 0.0), Vec3(0.0, 1.0, 0.0), Vec3(0.0, 0.0, 1.0)) == -2.0
  {
    var ray, n := Ray(Vec3(0.2, 0.2, 2.0), Vec3(0.0, 0.0, 1.0)), Vec3(0.0, 0.0, 1.0);
    assert Dot(ray.dir, n) == 1.0;
    assert Shapes.PlaneHitTime(Zero, n, ray) == -2.0;
    assert PointAt(ray, -2.0) == Vec3(0.2, 0.2, 0.0);
  }

  /**
   * The side tests look only at x and y: for a triangle in the plane x = 0
   * every test is 0, never `> 0`, so the three always agree and a ray meeting
   * that plane at (0, 5, 5), far outside the triangle, is reported as a hit.
   */
  lemma PreviewTriangleEdgeOn(sqrt: real -> real)
    requires sqrt(1.0) == 1.0
    ensures IntersectTriangle(Ray(Vec3(-1.0, 5.0, 5.0), Vec3(1.0, 0.0, 0.0)),
                              Zero, Vec3(0.0, 1.0, 0.0), Vec3(0.0, 0.0, 1.0), sqrt) == 1.0
    ensures PointAt(Ray(Vec3(-1.0, 5.0, 5.0), Vec3(1.0, 0.0, 0.0)), 1.0) == Vec3(0.0, 5.0, 5.0)
  {
    var ray := Ray(Vec3(-1.0, 5.0, 5.0), Vec3(1.0, 0.0, 0.0));
    var v1, v2, v3 := Zero, Vec3(0.0, 1.0, 0.0), Vec3(0.0, 0.0, 1.0);
    var n := Vec3(1.0, 0.0, 0.0);
    assert IntersectTriangle(ray, v1, v2, v3, sqrt) == TriangleWithNormal(ray, v1, v2, v3, n) by {
      NormalOfYZ(v1, v2, v3, sqrt);
    }
    EdgeOnWithNormal();
  }

  lemma EdgeOnWithNormal()
    ensures TriangleWithNormal(Ray(Vec3(-1.0, 5.0, 5.0), Vec3(1.0, 0.0, 0.0)),
                               Zero, Vec3(0.0, 1.0, 0.0), Vec3(0.0, 0.0, 1.0), Vec3(1.0, 0.0, 0.0)) == 1.0
    ensures PointAt(Ray(Vec3(-1.0, 5.0, 5.0), Vec3(1.0, 0.0, 0.0)), 1.0) == Vec3(0.0, 5.0, 5.0)
  {
    EdgeOnSteps();
    EdgeOnSideTests();
  }

  /** The plane distance and hit point of the edge-on example. */
  lemma EdgeOnSteps()
    ensures Shapes.PlaneHitTime(Zero, Vec3(1.0, 0.0, 0.0), Ray(Vec3(-1.0, 5.0, 5.0), Vec3(1.0, 0.0, 0.0))) == 1.0
    ensures PointAt(Ray(Vec3(-1.0, 5.0, 5.0), Vec3(1.0, 0.0, 0.0)), 1.0) == Vec3(0.0, 5.0, 5.0)
  {
  }

  /** All three side tests of the edge-on example are 0, so none is `> 0`. */
  lemma EdgeOnSideTests()
    ensures !LeftOf(Vec3(0.0, 5.0, 5.0), Zero, Vec3(0.0, 0.0, 1.0))
    ensures !LeftOf(Vec3(0.0, 5.0, 5.0), Vec3(0.0, 0.0, 1.0), Vec3(0.0, 1.0, 0.0))
    ensures !LeftOf(Vec3(0.0, 5.0, 5.0), Vec3(0.0, 1.0, 0.0), Zero)
  {
  }

  /** The two roots of intersectSphere, with the same `/ 2 * a` as Sphere.cpp's. */
  function RootPlus(q: Shapes.Quadratic, s: real): real {
    (-q.b + s) / 2.0 * q.a
  }

  function RootMinus(q: Shapes.Quadratic, s: real): real {
    (-q.b - s) / 2.0 * q.a
  }

  /**
   * The root choice of intersectSphere, given the square root s of the
   * discriminant: the smaller root when both are non-negative, else the
   * larger, which may itself be negative.
   */
  function PreviewPick(q: Shapes.Quadratic, s: real): (r: real)
    ensures r == RootPlus(q, s) || r == RootMinus(q, s)
    ensures RootPlus(q, s) >= 0.0 && RootMinus(q, s) >= 0.0 ==> r <= RootPlus(q, s) && r <= RootMinus(q, s)
    ensures RootPlus(q, s) < 0.0 || RootMinus(q, s) < 0.0 ==> r >= RootPlus(q, s) && r >= RootMinus(q, s)
  {
    var x1 := RootPlus(q, s);
    var x2 := RootMinus(q, s);
    if x1 >= 0.0 && x2 >= 0.0 then Min(x1, x2) else Max(x1, x2)
  }

  /** intersectSphere: -1 for a negative discriminant, else the root PreviewPick chooses. */
  function IntersectSphere(ray: Ray, center: Vec3, radius: real, sqrt: real -> real): (r: real)
    ensures var q := Shapes.SphereQuadratic(center, radius, ray);
      var d := Shapes.Discriminant(q.a, q.b, q.c);
      && (d < 0.0 ==> r == NoHit)
      && (d >= 0.0 ==> r == PreviewPick(q, sqrt(d)))
  {
    var q := Shapes.SphereQuadratic(center, radius, ray);
    var discrim := Shapes.Discriminant(q.a, q.b, q.c);
    if discrim < 0.0 then NoHit else PreviewPick(q, sqrt(discrim))
  }

  /** With a unit direction, any non-negative answer of intersectSphere is a point of the sphere. */
  lemma PreviewSphereHitOnSphere(ray: Ray, center: Vec3, radius: real, sqrt: real -> real)
    requires IsSqrt(sqrt)
    requires Dot(ray.dir, ray.dir) == 1.0
    requires IntersectSphere(ray, center, radius, sqrt) >= 0.0
    ensures var p := PointAt(ray, IntersectSphere(ray, center, radius, sqrt));
      Dot(Sub(p, center), Sub(p, center)) == radius * radius
  {
    var q := Shapes.SphereQuadratic(center, radius, ray);
    var d := Shapes.Discriminant(q.a, q.b, q.c);
    var s := sqrt(d);
    var t := IntersectSphere(ray, center, radius, sqrt);
    assert q.a == 1.0;
    assert d >= 0.0 && t == PreviewPick(q, s);
    assert s * s == d;
    Shapes.DiscriminantRoots(q.a, q.b, q.c, s);
    assert RootPlus(q, s) == (-q.b + s) / (2.0 * q.a) && RootMinus(q, s) == (-q.b - s) / (2.0 * q.a);
    assert q.a * t * t + q.b * t + q.c == 0.0;
    Shapes.SphereQuadraticMeaning(center, radius, ray, t);
  }

  /**
   * Unlike Sphere::intersect, a ray starting at the centre of the unit
   * sphere does hit it here: the larger root, 1, is returned.
   */
  lemma PreviewRayFromInsideHits(sqrt: real -> real)
    requires sqrt(4.0) == 2.0
    ensures IntersectSphere(Ray(Zero, Vec3(1.0, 0.0, 0.0)), Zero, 1.0, sqrt) == 1.0
  {
    var ray := Ray(Zero, Vec3(1.0, 0.0, 0.0));
    var q := Shapes.Quadratic(1.0, 0.0, -1.0);
    assert IntersectSphere(ray, Zero, 1.0, sqrt) == PreviewPick(q, sqrt(4.0)) by {
      Shapes.ConcreteQuadratic(ray, q);
    }
    assert PreviewPick(q, 2.0) == 1.0;
  }

  /** main.cpp's intersect: dispatch on the kind of object. */
  function HitValue(ray: Ray, o: Object, sqrt: real -> real): (r: real)
    ensures o.Tri? ==> r == IntersectTriangle(ray, o.v1, o.v2, o.v3, sqrt)
    ensures o.Ball? ==> r == IntersectSphere(ray, o.center, o.radius, sqrt)
  {
    match o
    case Ball(c, radius, _) => IntersectSphere(ray, c, radius, sqrt)
    case Tri(v1, v2, v3, _) => IntersectTriangle(ray, v1, v2, v3, sqrt)
  }

  function HitValues(ray: Ray, objects: seq<Object>, sqrt: real -> real): (hits: seq<real>)
    ensures |hits| == |objects|
    ensures forall k :: 0 <= k < |objects| ==> hits[k] == HitValue(ray, objects[k], sqrt)
  {
    seq(|objects|, k requires 0 <= k < |objects| => HitValue(ray, objects[k], sqrt))
  }

  /**
   * What findClosestObjectIndex returns: -1 when no hit value is
   * non-negative; otherwise the position of the smallest non-negative value,
   * the earliest one on ties.
   */
  predicate IsClosest(hits: seq<real>, index: int) {
    if forall k :: 0 <= k < |hits| ==> hits[k] < 0.0 then index == -1
    else
      && 0 <= index < |hits|
      && hits[index] >= 0.0
      && (forall k :: 0 <= k < |hits| && hits[k] >= 0.0 ==> hits[index] <= hits[k])
      && (forall k :: 0 <= k < index && hits[k] >= 0.0 ==> hits[k] > hits[index])
  }

  /** The characterisation pins the index down. */
  lemma ClosestUnique(hits: seq<real>, a: int, b: int)
    requires IsClosest(hits, a) && IsClosest(hits, b)
    ensures a == b
  {
  }

  /** A reference definition of the scan: the closest index of the prefix, then the last value considered. */
  function ClosestIndex(hits: seq<real>): (r: int)
    ensures -1 <= r < |hits|
    decreases |hits|
  {
    if |hits| == 0 then -1
    else
      var p := ClosestIndex(hits[..|hits| - 1]);
      var h := hits[|hits| - 1];
      if h >= 0.0 && (p == -1 || h < hits[p]) then |hits| - 1 else p
  }

  lemma {:induction false} ClosestIndexIsClosest(hits: seq<real>)
    ensures IsClosest(hits, ClosestIndex(hits))
    decreases |hits|
  {
    if |hits| > 0 {
      var init := hits[..|hits| - 1];
      ClosestIndexIsClosest(init);
      assert forall k :: 0 <= k < |init| ==> init[k] == hits[k];
    }
  }

  /** findClosestObjectIndex. */
  method FindClosestObjectIndex(ray: Ray, objects: seq<Object>, sqrt: real -> real) returns (index: int)
    ensures IsClosest(HitValues(ray, objects, sqrt), index)
    ensures -1 <= index < |objects|
    ensures index == ClosestIndex(HitValues(ray, objects, sqrt))
  {
    ghost var hits := HitValues(ray, objects, sqrt);
    index := -1;
    var closestHit := -1.0;
    var i := 0;
    while i < |objects|
      invariant 0 <= i <= |objects|
      invariant -1 <= index < i
      invariant index == -1 <==> forall k :: 0 <= k < i ==> hits[k] < 0.0
      invariant index == -1 ==> closestHit == -1.0
      invariant index != -1 ==> closestHit == hits[index] && closestHit >= 0.0
      invariant forall k :: 0 <= k < i && hits[k] >= 0.0 ==> closestHit <= hits[k]
      invariant forall k :: 0 <= k < index && hits[k] >= 0.0 ==> hits[k] > closestHit
    {
      var hit := HitValue(ray, objects[i], sqrt);
      if hit >= 0.0 && (hit < closestHit || closestHit < 0.0) {
        closestHit := hit;
        index := i;
      }
      i := i + 1;
    }
    ClosestIndexIsClosest(hits);
    ClosestUnique(hits, index, ClosestIndex(hits));
  }

  /** The colour a pixel takes for a given closest index. */
  function PixelColor(objects: seq<Object>, background: Rgb, index: int): Rgb
    requires index < |objects|
  {
    if index < 0 then background else objects[index].color
  }

  /**
   * A pixel shows the background exactly when no object's hit value along
   * its ray is non-negative, and otherwise the colour of the closest object.
   */
  lemma PixelShowsClosest(ray: Ray, objects: seq<Object>, background: Rgb, sqrt: real -> real)
    ensures var hits := HitValues(ray, objects, sqrt);
      var index := ClosestIndex(hits);
      && ((forall k :: 0 <= k < |hits| ==> hits[k] < 0.0) <==> PixelColor(objects, background, index) == background && index < 0)
      && (index >= 0 ==> IsClosest(hits, index) && PixelColor(objects, background, index) == objects[index].color)
  {
    ClosestIndexIsClosest(HitValues(ray, objects, sqrt));
  }

  /** A BYTE store keeps the low 8 bits of the int. */
  function Byte(v: int): (b: int)
    ensures 0 <= b < 256
    ensures 0 <= v < 256 ==> b == v
  {
    v % 256
  }

  /** The row-major number of pixel (row i, column j): i full rows of w, then j. */
  function Cell(w: nat, i: nat, j: nat): nat
    decreases i
  {
    if i == 0 then j else Cell(w, i - 1, j) + w
  }

  /** The buffer offset of channel c (0 = blue, 1 = green, 2 = red) of pixel (row i, column j). */
  function Offset(w: nat, i: nat, j: nat, c: nat): nat {
    Cell(w, i, j) * 3 + c
  }

  /** The cell number is main's `i * w + j`, so the offset is `i*w*3 + j*3 + c`. */
  lemma {:induction false} OffsetFormula(w: nat, i: nat, j: nat, c: nat)
    ensures Cell(w, i, j) == i * w + j
    ensures Offset(w, i, j, c) == i * w * 3 + j * 3 + c
    decreases i
  {
    if i > 0 {
      OffsetFormula(w, i - 1, j, c);
      assert (i - 1) * w + w == i * w;
    }
  }

  /** Cells grow with the row by w at a time. */
  lemma {:induction false} CellRowsOrdered(w: nat, i: nat, i2: nat, j: nat, j2: nat)
    requires i < i2 && j < w
    ensures Cell(w, i, j) < Cell(w, i2, j2)
    decreases i2
  {
    if i2 - 1 > i {
      CellRowsOrdered(w, i, i2 - 1, j, j2);
    } else {
      CellShift(w, i, j, j2);
    }
  }

  lemma {:induction false} CellShift(w: nat, i: nat, j: nat, j2: nat)
    ensures Cell(w, i, j2) == Cell(w, i, j) + j2 - j
    decreases i
  {
    if i > 0 {
      CellShift(w, i - 1, j, j2);
    }
  }

  /** Offsets of distinct (pixel, channel) triples differ, and all lie below the buffer's end. */
  lemma OffsetsDistinct(w: nat, h: nat, i: nat, j: nat, c: nat, i2: nat, j2: nat, c2: nat)
    requires i < h && j < w && c < 3 && i2 < h && j2 < w && c2 < 3
    requires (i, j, c) != (i2, j2, c2)
    ensures Offset(w, i, j, c) != Offset(w, i2, j2, c2)
    ensures Offset(w, i, j, c) < Cell(w, h, 0) * 3
  {
    CellRowsOrdered(w, i, h, j, 0);
    if i < i2 {
      CellRowsOrdered(w, i, i2, j, j2);
    } else if i2 < i {
      CellRowsOrdered(w, i2, i, j2, j);
    } else {
      CellShift(w, i, j, j2);
    }
  }

  function Channel(color: Rgb, c: nat): int
    requires c < 3
  {
    if c == 0 then color.b else if c == 1 then color.g else color.r
  }

  /** The byte main stores for channel c of pixel (i, j). */
  function PixelByte(rays: (nat, nat) -> Ray, objects: seq<Object>, background: Rgb, sqrt: real -> real,
                     i: nat, j: nat, c: nat): int
    requires c < 3
  {
    var index := ClosestIndex(HitValues(rays(i, j), objects, sqrt));
    Byte(Channel(PixelColor(objects, background, index), c))
  }

  /**
   * One pass of the pixel loop's body: the closest object along the ray of
   * pixel (i, j), its colour or the background, stored as blue, green, red.
   */
  method ShadePixel(pixels: seq<int>, w: nat, h: nat, i: nat, j: nat, rays: (nat, nat) -> Ray,
                    objects: seq<Object>, background: Rgb, sqrt: real -> real)
    returns (out: seq<int>)
    requires i < h && j < w && |pixels| == Cell(w, h, 0) * 3
    ensures |out| == |pixels|
    ensures forall c: nat :: c < 3 ==>
      Offset(w, i, j, c) < |out| && out[Offset(w, i, j, c)] == PixelByte(rays, objects, background, sqrt, i, j, c)
    ensures forall ii: nat, jj: nat, c: nat :: ii < h && jj < w && c < 3 && (ii, jj) != (i, j) ==>
      Offset(w, ii, jj, c) < |out| && out[Offset(w, ii, jj, c)] == pixels[Offset(w, ii, jj, c)]
  {
    var closestIndex := FindClosestObjectIndex(rays(i, j), objects, sqrt);
    var color := if closestIndex < 0 then background else objects[closestIndex].color;
    forall ii: nat, jj: nat, c: nat, c2: nat | ii < h && jj < w && c < 3 && c2 < 3 && (ii, jj, c) != (i, j, c2)
      ensures Offset(w, ii, jj, c) != Offset(w, i, j, c2) && Offset(w, ii, jj, c) < Cell(w, h, 0) * 3
    {
      OffsetsDistinct(w, h, ii, jj, c, i, j, c2);
    }
    OffsetsDistinct(w, h, i, j, 0, i, j, 1);
    out := pixels[Offset(w, i, j, 0) := Byte(color.b)];
    out := out[Offset(w, i, j, 1) := Byte(color.g)];
    out := out[Offset(w, i, j, 2) := Byte(color.r)];
  }

  /** The cells of row i before column j hold their bytes. */
  predicate RowDone(pixels: seq<int>, w: nat, i: nat, j: nat, rays: (nat, nat) -> Ray,
                    objects: seq<Object>, background: Rgb, sqrt: real -> real)
  {
    forall jj: nat, c: nat :: jj < j && jj < w && c < 3 ==>
      Offset(w, i, jj, c) < |pixels| && pixels[Offset(w, i, jj, c)] == PixelByte(rays, objects, background, sqrt, i, jj, c)
  }

  /** The inner loop of main's pixel loop: every column of row i, left to right. */
  method RenderRow(pixels: seq<int>, w: nat, h: nat, i: nat, rays: (nat, nat) -> Ray,
                   objects: seq<Object>, background: Rgb, sqrt: real -> real)
    returns (out: seq<int>)
    requires i < h && |pixels| == Cell(w, h, 0) * 3
    requires forall ii: nat :: ii < i ==> RowDone(pixels, w, ii, w, rays, objects, background, sqrt)
    ensures |out| == |pixels|
    ensures forall ii: nat :: ii <= i ==> RowDone(out, w, ii, w, rays, objects, background, sqrt)
  {
    out := pixels;
    var j := 0;
    while j < w
      invariant 0 <= j <= w
      invariant |out| == |pixels|
      invariant forall ii: nat :: ii < i ==> RowDone(out, w, ii, w, rays, objects, background, sqrt)
      invariant RowDone(out, w, i, j, rays, objects, background, sqrt)
    {
      ghost var before := out;
      out := ShadePixel(out, w, h, i, j, rays, objects, background, sqrt);
      forall ii: nat | ii < i
        ensures RowDone(out, w, ii, w, rays, objects, background, sqrt)
      {
        assert RowDone(before, w, ii, w, rays, objects, background, sqrt);
      }
      assert RowDone(before, w, i, j, rays, objects, background, sqrt);
      j := j + 1;
    }
  }

  /**
   * The pixel loop of main: for every row i and column j, find the closest
   * object along that pixel's ray and store its colour (the background when
   * there is none) as blue, green, red bytes at i*w*3 + j*3 + 0, 1, 2.
   */
  method Render(w: nat, h: nat, rays: (nat, nat) -> Ray, objects: seq<Object>, background: Rgb, sqrt: real -> real)
    returns (pixels: seq<int>)
    ensures |pixels| == w * h * 3
    ensures forall i: nat, j: nat, c: nat :: i < h && j < w && c < 3 ==>
      Offset(w, i, j, c) < |pixels| && pixels[Offset(w, i, j, c)] == PixelByte(rays, objects, background, sqrt, i, j, c)
  {
    OffsetFormula(w, h, 0, 0);
    pixels := seq(Cell(w, h, 0) * 3, _ => 0);
    var i := 0;
    while i < h
      invariant 0 <= i <= h
      invariant |pixels| == Cell(w, h, 0) * 3
      invariant forall ii: nat :: ii < i ==> RowDone(pixels, w, ii, w, rays, objects, background, sqrt)
    {
      pixels := RenderRow(pixels, w, h, i, rays, objects, background, sqrt);
      i := i + 1;
    }
    forall i: nat, j: nat, c: nat | i < h && j < w && c < 3
      ensures Offset(w, i, j, c) < |pixels| && pixels[Offset(w, i, j, c)] == PixelByte(rays, objects, background, sqrt, i, j, c)
    {
      assert RowDone(pixels, w, i, w, rays, objects, background, sqrt);
    }
  }
}
