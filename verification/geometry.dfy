/**
 * Exact-real stand-ins for the glm vector types the renderer is built on:
 * a 3-vector with polynomial dot and cross products, rays, and the
 * Intersection record.  Square roots are not definable over Dafny's reals,
 * so every operation that needs one takes the square root as a parameter;
 * `IsSqrt` states what a faithful one must satisfy.
 */
module Geometry {
  import opened Wrappers

  datatype Vec3 = Vec3(x: real, y: real, z: real)

  const Zero := Vec3(0.0, 0.0, 0.0)

  function Add(a: Vec3, b: Vec3): Vec3 {
    Vec3(a.x + b.x, a.y + b.y, a.z + b.z)
  }

  function Sub(a: Vec3, b: Vec3): Vec3 {
    Vec3(a.x - b.x, a.y - b.y, a.z - b.z)
  }

  function Scale(k: real, a: Vec3): Vec3 {
    Vec3(k * a.x, k * a.y, k * a.z)
  }

  function Dot(a: Vec3, b: Vec3): real {
    a.x * b.x + a.y * b.y + a.z * b.z
  }

  function Cross(a: Vec3, b: Vec3): Vec3 {
    Vec3(a.y * b.z - a.z * b.y, a.z * b.x - a.x * b.z, a.x * b.y - a.y * b.x)
  }

  function Min(a: real, b: real): (m: real)
    ensures m <= a && m <= b
    ensures m == a || m == b
  {
    if b < a then b else a
  }

  function Max(a: real, b: real): (m: real)
    ensures m >= a && m >= b
    ensures m == a || m == b
  {
    if a < b then b else a
  }

  function Abs(a: real): real {
    if a < 0.0 then -a else a
  }

  /** glm::epsilonEqual for scalars: |a - b| < eps. */
  predicate EpsilonEqual(a: real, b: real, eps: real) {
    Abs(a - b) < eps
  }

  /** What a faithful square root satisfies on the non-negative reals. */
  ghost predicate IsSqrt(sqrt: real -> real) {
    forall v :: 0.0 <= v ==> 0.0 <= sqrt(v) && sqrt(v) * sqrt(v) == v
  }

  /** glm::length and glm::distance, in terms of the supplied square root. */
  function Length(v: Vec3, sqrt: real -> real): real {
    sqrt(Dot(v, v))
  }

  function Distance(a: Vec3, b: Vec3, sqrt: real -> real): real {
    Length(Sub(a, b), sqrt)
  }

  /** A ray: origin and direction (the source normalises the direction on construction). */
  datatype Ray = Ray(origin: Vec3, dir: Vec3)

  function PointAt(ray: Ray, t: real): Vec3 {
    Add(ray.origin, Scale(t, ray.dir))
  }

  /**
   * A valid (finite-distance) intersection.  `objectIndex` is -1 unless a
   * scan over a list of objects has stamped the list position into it.
   */
  datatype Hit = Hit(dist: real, objectIndex: int, normal: Vec3)

  /** None is the default-constructed Intersection, whose distance is +infinity. */
  type Intersection = Option<Hit>

  /**
   * Intersection::isValidIntersection: the distance is finite, which holds
   * of every intersection except the default-constructed one.
   */
  function IsValid(i: Intersection): (v: bool)
    ensures v <==> i != None
  {
    i.Some?
  }

  /** A vector's squared length is non-negative, and zero only for the zero vector. */
  lemma DotSelfNonNegative(v: Vec3)
    ensures Dot(v, v) >= 0.0
    ensures Dot(v, v) == 0.0 <==> v == Zero
  {
    assert Dot(v, v) == Product(v.x, v.x) + Product(v.y, v.y) + Product(v.z, v.z);
    SquareNonNegative(v.x);
    SquareNonNegative(v.y);
    SquareNonNegative(v.z);
    if v.x != 0.0 {
      SquarePositive(v.x);
    }
    if v.y != 0.0 {
      SquarePositive(v.y);
    }
    if v.z != 0.0 {
      SquarePositive(v.z);
    }
  }

  // Sign facts about squares are proved over this named product: the solver
  // settles linear facts about `Product(a, a)` terms reliably, where it gives
  // up on the same facts stated over raw `a * a` monomials.
  function Product(a: real, b: real): real {
    a * b
  }

  lemma DotSelfAsProducts(v: Vec3)
    ensures Dot(v, v) == Product(v.x, v.x) + Product(v.y, v.y) + Product(v.z, v.z)
  {
  }

  lemma ProductPositive(a: real, b: real)
    requires a > 0.0 && b > 0.0
    ensures Product(a, b) > 0.0
  {
  }

  lemma SquarePositive(a: real)
    requires a != 0.0
    ensures Product(a, a) > 0.0
  {
    if a > 0.0 {
      ProductPositive(a, a);
    } else {
      ProductPositive(-a, -a);
      assert Product(a, a) == Product(-a, -a);
    }
  }

  lemma SquareNonNegative(a: real)
    ensures Product(a, a) >= 0.0
  {
    if a != 0.0 {
      SquarePositive(a);
    }
  }

  /** The cross product is orthogonal to both of its arguments. */
  lemma CrossOrthogonal(a: Vec3, b: Vec3)
    ensures Dot(Cross(a, b), a) == 0.0
    ensures Dot(Cross(a, b), b) == 0.0
  {
  }
}
