/**
 * Hit records and ray-sphere intersection (src/geometry/mod.rs).
 *
 * `SphereHit` is the value-level specification of `Sphere::hit`: the hit, if
 * any, that the method writes into the record. The lemmas below it show that
 * the answer is exactly the nearest point of the ray on the sphere strictly
 * inside the interval, which is what the world's nearest-hit scan relies on.
 */
module Geometry {
  import opened Options
  import opened Vectors
  import opened Intervals
  import opened Rays

  /** The values a successful hit writes: point, oriented normal and ray parameter. */
  datatype HitInfo = HitInfo(p: Vec3, normal: Vec3, t: real)

  /**
   * The normal `set_face_normal` stores: `outward` when it already faces the
   * incoming ray (negative dot product with the direction), else `-1 * outward`.
   */
  function FaceNormal(direction: Vec3, outward: Vec3): (n: Vec3)
    ensures n == outward || n == Mul(From(-1.0), outward)
    ensures Dot(direction, n) <= 0.0
    ensures Dot(direction, outward) < 0.0 ==> n == outward
    ensures Dot(direction, outward) >= 0.0 ==> n == Mul(From(-1.0), outward)
  {
    var frontFace := Dot(direction, outward) < 0.0;
    if frontFace then outward else Mul(From(-1.0), outward)
  }

  /** `HitRecord`: owned by the caller of `hit` and written in place through `&mut`. */
  class HitRecord {
    var p: Vec3
    var normal: Vec3
    var t: real
    var frontFace: bool

    /** `HitRecord::default()`. */
    constructor ()
      ensures p == Zero && normal == Zero && t == 0.0 && !frontFace
    {
      p := Zero;
      normal := Zero;
      t := 0.0;
      frontFace := false;
    }

    /** The record's hit values. */
    function Info(): HitInfo
      reads this
    {
      HitInfo(p, normal, t)
    }

    /**
     * `set_face_normal`: orients the normal against the ray. The front-face
     * test goes into a local of its own, so the `frontFace` field, like `p`
     * and `t`, keeps its value.
     */
    method SetFaceNormal(ray: Ray, outward: Vec3)
      modifies this
      ensures normal == FaceNormal(ray.direction, outward)
      ensures p == old(p) && t == old(t) && frontFace == old(frontFace)
    {
      var facing := Dot(ray.direction, outward) < 0.0;
      normal := if facing then outward else Mul(From(-1.0), outward);
    }
  }

  datatype Sphere = Sphere(center: Vec3, radius: real)

  /** A point on the sphere's surface. */
  predicate OnSphere(s: Sphere, p: Vec3) {
    LengthSquared(Sub(p, s.center)) == s.radius * s.radius
  }

  // The coefficients of |origin + t * direction - center|^2 = radius^2
  // written as a * t^2 + 2 * halfB * t + c = 0.

  function QuadA(ray: Ray): real {
    LengthSquared(ray.direction)
  }

  function HalfB(s: Sphere, ray: Ray): real {
    Dot(Sub(ray.origin, s.center), ray.direction)
  }

  function QuadC(s: Sphere, ray: Ray): real {
    LengthSquared(Sub(ray.origin, s.center)) - s.radius * s.radius
  }

  function Discriminant(s: Sphere, ray: Ray): real {
    HalfB(s, ray) * HalfB(s, ray) - QuadA(ray) * QuadC(s, ray)
  }

  /** The smaller root, given the square root of the discriminant. */
  function NearRoot(s: Sphere, ray: Ray, sqrtd: real): real
    requires QuadA(ray) != 0.0
  {
    (-HalfB(s, ray) - sqrtd) / QuadA(ray)
  }

  /** The larger root, given the square root of the discriminant. */
  function FarRoot(s: Sphere, ray: Ray, sqrtd: real): real
    requires QuadA(ray) != 0.0
  {
    (-HalfB(s, ray) + sqrtd) / QuadA(ray)
  }

  /** What `hit` writes for parameter `t`: the point `ray.at(t)` and the radius-scaled normal, oriented. */
  function HitAt(s: Sphere, ray: Ray, t: real): HitInfo
    requires s.radius != 0.0
  {
    var p := At(ray, t);
    HitInfo(p, FaceNormal(ray.direction, Mul(From(1.0 / s.radius), Sub(p, s.center))), t)
  }

  /**
   * `Sphere::hit` on values. A negative discriminant is a miss; otherwise the
   * smaller root is tried first and the larger one only when the smaller is
   * not strictly inside the interval. A zero direction makes both roots 0/0,
   * NaN in f32, which no interval surrounds: a miss.
   */
  function SphereHit(s: Sphere, ray: Ray, iv: Interval, sqrt: real -> real): (r: Option<HitInfo>)
    requires s.radius != 0.0
    ensures Discriminant(s, ray) < 0.0 ==> r.None?
    ensures r.Some? ==> Surrounds(iv, r.value.t)
    ensures r.Some? ==> r.value.p == At(ray, r.value.t) && Dot(ray.direction, r.value.normal) <= 0.0
    ensures r.Some? ==> QuadA(ray) != 0.0 &&
                        var sqrtd := sqrt(Discriminant(s, ray));
                        r.value.t == NearRoot(s, ray, sqrtd) || r.value.t == FarRoot(s, ray, sqrtd)
  {
    var discriminant := Discriminant(s, ray);
    if discriminant < 0.0 || QuadA(ray) == 0.0 then None
    else
      var sqrtd := sqrt(discriminant);
      if Surrounds(iv, NearRoot(s, ray, sqrtd)) then Some(HitAt(s, ray, NearRoot(s, ray, sqrtd)))
      else if Surrounds(iv, FarRoot(s, ray, sqrtd)) then Some(HitAt(s, ray, FarRoot(s, ray, sqrtd)))
      else None
  }

  /**
   * `Sphere::hit`: computes the half-b quadratic, rejects a negative
   * discriminant and then a root outside the interval, and only after both
   * checks writes `t`, `p` and the normal into `rec`. On a miss `rec` is
   * untouched.
   */
  method Hit(s: Sphere, ray: Ray, iv: Interval, rec: HitRecord, sqrt: real -> real) returns (hit: bool)
    requires s.radius != 0.0
    modifies rec
    ensures hit == SphereHit(s, ray, iv, sqrt).Some?
    ensures hit ==> rec.Info() == SphereHit(s, ray, iv, sqrt).value
    ensures rec.frontFace == old(rec.frontFace)
    ensures !hit ==> unchanged(rec)
  {
    var oc := Sub(ray.origin, s.center);
    var a := LengthSquared(ray.direction);
    var halfB := Dot(oc, ray.direction);
    var c := LengthSquared(oc) - s.radius * s.radius;
    var discriminant := halfB * halfB - a * c;
    assert a == QuadA(ray) && halfB == HalfB(s, ray) && c == QuadC(s, ray);
    assert discriminant == Discriminant(s, ray);
    if discriminant < 0.0 {
      return false;
    }
    if a == 0.0 {
      // both roots are 0/0
      return false;
    }
    var sqrtd := sqrt(discriminant);
    assert NearRoot(s, ray, sqrtd) == (-halfB - sqrtd) / a;
    assert FarRoot(s, ray, sqrtd) == (-halfB + sqrtd) / a;

    var root := (-halfB - sqrtd) / a;
    if !Surrounds(iv, root) {
      root := (-halfB + sqrtd) / a;
      if !Surrounds(iv, root) {
        return false;
      }
    }

    rec.t := root;
    rec.p := At(ray, rec.t);
    var outward := Scale(Sub(rec.p, s.center), 1.0 / s.radius);
    rec.SetFaceNormal(ray, outward);
    return true;
  }

  // ---------------------------------------------------------------------
  // The algebra of the half-b quadratic, on plain reals.

  /** The half-b quadratic `a * t^2 + 2 * hb * t + c`. */
  function Quadratic(a: real, hb: real, c: real, t: real): real {
    a * t * t + 2.0 * hb * t + c
  }

  /** A root of the quadratic formula solves the quadratic. */
  lemma QuadraticRootSolves(a: real, hb: real, c: real, sq: real, t: real)
    requires a != 0.0 && sq * sq == hb * hb - a * c
    requires t == (-hb - sq) / a || t == (-hb + sq) / a
    ensures Quadratic(a, hb, c, t) == 0.0
  {
    var w := a * t;
    assert w == -hb - sq || w == -hb + sq by {
      QuotientIsProduct(-hb - sq, a);
      QuotientIsProduct(-hb + sq, a);
    }
    var q := Quadratic(a, hb, c, t);
    assert a * q == w * w + 2.0 * hb * w + a * c;
    assert (w + hb) * (w + hb) == sq * sq;
    assert w * w + 2.0 * hb * w + a * c == 0.0;
    ZeroProduct(a, q);
  }

  /** With a positive leading coefficient, the quadratic formula gives every root. */
  lemma QuadraticRootsAreFormula(a: real, hb: real, c: real, x: real) returns (w: real)
    requires a > 0.0 && Quadratic(a, hb, c, x) == 0.0
    ensures w == a * x + hb && w * w == hb * hb - a * c
  {
    w := a * x + hb;
    assert w * w == a * Quadratic(a, hb, c, x) + hb * hb - a * c;
  }

  lemma ZeroProduct(a: real, b: real)
    requires a * b == 0.0
    ensures a == 0.0 || b == 0.0
  {
  }

  /** Two numbers with the same square, one of them non-negative, agree up to sign. */
  lemma EqualSquares(w: real, sq: real)
    requires sq >= 0.0 && w * w == sq * sq
    ensures w == sq || w == -sq
  {
    assert (w - sq) * (w + sq) == w * w - sq * sq;
    ZeroProduct(w - sq, w + sq);
  }

  /** The squared distance from the centre along the ray, as a polynomial in `t`. */
  lemma DistanceOnRay(s: Sphere, ray: Ray, t: real)
    ensures LengthSquared(Sub(At(ray, t), s.center)) ==
            Quadratic(QuadA(ray), HalfB(s, ray), QuadC(s, ray), t) + s.radius * s.radius
  {
    var d, oc := ray.direction, Sub(ray.origin, s.center);
    var e := Sub(At(ray, t), s.center);
    OffsetOnRay(s, ray, t);
    ExpandedSquares(oc, d, t, e);
    ShiftedConstant(LengthSquared(d), Dot(oc, d), LengthSquared(oc), s.radius * s.radius, t);
    Coefficients(s, ray);
  }

  lemma Coefficients(s: Sphere, ray: Ray)
    ensures var oc := Sub(ray.origin, s.center);
            QuadA(ray) == LengthSquared(ray.direction) && HalfB(s, ray) == Dot(oc, ray.direction) &&
            QuadC(s, ray) == LengthSquared(oc) - s.radius * s.radius
  {
  }

  /** Lowering the constant term lowers the quadratic's value by as much. */
  lemma ShiftedConstant(a: real, hb: real, c: real, k: real, t: real)
    ensures Quadratic(a, hb, c, t) == Quadratic(a, hb, c - k, t) + k
  {
  }

  /** The offset from the centre of the point at parameter `t`. */
  lemma OffsetOnRay(s: Sphere, ray: Ray, t: real)
    ensures var d, oc := ray.direction, Sub(ray.origin, s.center);
            var e := Sub(At(ray, t), s.center);
            e.x == oc.x + t * d.x && e.y == oc.y + t * d.y && e.z == oc.z + t * d.z
  {
  }

  /** `|u + t * v|^2` as a polynomial in `t`. */
  lemma ExpandedSquares(u: Vec3, v: Vec3, t: real, e: Vec3)
    requires e.x == u.x + t * v.x && e.y == u.y + t * v.y && e.z == u.z + t * v.z
    ensures LengthSquared(e) == Quadratic(LengthSquared(v), Dot(u, v), LengthSquared(u), t)
  {
    ExpandedSquare(u.x, v.x, t, e.x);
    ExpandedSquare(u.y, v.y, t, e.y);
    ExpandedSquare(u.z, v.z, t, e.z);
    SumOfQuadratics(v.x * v.x, v.y * v.y, v.z * v.z, u.x * v.x, u.y * v.y, u.z * v.z, u.x * u.x, u.y * u.y, u.z * u.z, t);
  }

  /** Adding three quadratics in `t` adds their coefficients. */
  lemma SumOfQuadratics(a1: real, a2: real, a3: real, b1: real, b2: real, b3: real, c1: real, c2: real, c3: real, t: real)
    ensures Quadratic(a1, b1, c1, t) + Quadratic(a2, b2, c2, t) + Quadratic(a3, b3, c3, t)
            == Quadratic(a1 + a2 + a3, b1 + b2 + b3, c1 + c2 + c3, t)
  {
  }

  lemma ExpandedSquare(u: real, v: real, t: real, e: real)
    requires e == u + t * v
    ensures e * e == Quadratic(v * v, u * v, u * u, t)
  {
  }

  /** The point at parameter `t` is on the sphere exactly when `t` solves the quadratic. */
  lemma OnSphereIffRoot(s: Sphere, ray: Ray, t: real)
    ensures OnSphere(s, At(ray, t)) <==> Quadratic(QuadA(ray), HalfB(s, ray), QuadC(s, ray), t) == 0.0
  {
    var l := LengthSquared(Sub(At(ray, t), s.center));
    var q := Quadratic(QuadA(ray), HalfB(s, ray), QuadC(s, ray), t);
    var k := s.radius * s.radius;
    OnSphereDef(s, At(ray, t));
    DistanceOnRay(s, ray, t);
    ShiftedEquation(l, q, k);
  }

  lemma OnSphereDef(s: Sphere, p: Vec3)
    ensures OnSphere(s, p) <==> LengthSquared(Sub(p, s.center)) == s.radius * s.radius
  {
  }

  lemma ShiftedEquation(l: real, q: real, k: real)
    requires l == q + k
    ensures l == k <==> q == 0.0
  {
  }

  /** With a non-negative root of the discriminant and a > 0, the near root is at most the far root. */
  lemma RootsOrdered(s: Sphere, ray: Ray, sqrtd: real)
    requires QuadA(ray) > 0.0 && sqrtd >= 0.0
    ensures NearRoot(s, ray, sqrtd) <= FarRoot(s, ray, sqrtd)
  {
    var a, hb := QuadA(ray), HalfB(s, ray);
    DivideOrdered(-hb - sqrtd, -hb + sqrtd, a);
  }

  lemma DivideOrdered(x: real, y: real, a: real)
    requires a > 0.0 && x <= y
    ensures x / a <= y / a
  {
  }

  // ---------------------------------------------------------------------
  // What `hit` promises.

  /** On a hit, the recorded point lies on the sphere: `|p - center|^2 == radius^2`. */
  lemma HitOnSphere(s: Sphere, ray: Ray, iv: Interval, sqrt: real -> real)
    requires s.radius != 0.0 && IsSqrt(sqrt)
    requires SphereHit(s, ray, iv, sqrt).Some?
    ensures OnSphere(s, SphereHit(s, ray, iv, sqrt).value.p)
  {
    var h := SphereHit(s, ray, iv, sqrt).value;
    var a, hb, c, d := QuadA(ray), HalfB(s, ray), QuadC(s, ray), Discriminant(s, ray);
    var sq := sqrt(d);
    assert sq * sq == d;
    RootsDef(s, ray, sq);
    QuadraticRootSolves(a, hb, c, sq, h.t);
    OnSphereIffRoot(s, ray, h.t);
  }

  lemma RootsDef(s: Sphere, ray: Ray, sqrtd: real)
    requires QuadA(ray) != 0.0
    ensures var a, hb := QuadA(ray), HalfB(s, ray);
            Discriminant(s, ray) == hb * hb - a * QuadC(s, ray) &&
            NearRoot(s, ray, sqrtd) == (-hb - sqrtd) / a && FarRoot(s, ray, sqrtd) == (-hb + sqrtd) / a
  {
  }

  /**
   * `hit` finds the nearest intersection: for a ray with a non-zero
   * direction, every point of the ray on the sphere whose parameter is
   * strictly inside the interval makes `hit` succeed, with a parameter no
   * larger.
   */
  lemma HitIsNearest(s: Sphere, ray: Ray, iv: Interval, sqrt: real -> real, x: real)
    requires s.radius != 0.0 && IsSqrt(sqrt) && QuadA(ray) > 0.0
    requires Surrounds(iv, x) && OnSphere(s, At(ray, x))
    ensures SphereHit(s, ray, iv, sqrt).Some?
    ensures SphereHit(s, ray, iv, sqrt).value.t <= x
  {
    var a, hb, c, d := QuadA(ray), HalfB(s, ray), QuadC(s, ray), Discriminant(s, ray);
    OnSphereIffRoot(s, ray, x);
    var w := QuadraticRootsAreFormula(a, hb, c, x);
    SquareNonNegative(w);
    var sq := sqrt(d);
    FormulaGivesRoot(a, hb, c, sq, x, w);
    RootsOrdered(s, ray, sq);
  }

  /** Every root of the quadratic is one of the two quotients of the formula. */
  lemma FormulaGivesRoot(a: real, hb: real, c: real, sq: real, x: real, w: real)
    requires a > 0.0 && sq >= 0.0 && sq * sq == hb * hb - a * c
    requires w == a * x + hb && w * w == hb * hb - a * c
    ensures x == (-hb - sq) / a || x == (-hb + sq) / a
  {
    EqualSquares(w, sq);
    RootIsQuotient(a, x, -hb - sq);
    RootIsQuotient(a, x, -hb + sq);
  }

  lemma RootIsQuotient(a: real, x: real, y: real)
    requires a != 0.0
    ensures a * x == y ==> x == y / a
  {
  }

  /**
   * The answer depends on the upper end only through the hit itself: a hit
   * at `t` for upper end `hi1` is the same hit for any upper end above `t`.
   * (Narrowing the interval to a nearer hit, as the world's scan does, therefore
   * never loses a nearer intersection and never invents one.)
   */
  lemma HitSameBelow(s: Sphere, ray: Ray, lo: real, hi1: Bound, hi2: Bound, sqrt: real -> real)
    requires s.radius != 0.0 && IsSqrt(sqrt)
    requires SphereHit(s, ray, Interval(lo, hi1), sqrt).Some?
    requires Below(SphereHit(s, ray, Interval(lo, hi1), sqrt).value.t, hi2)
    ensures SphereHit(s, ray, Interval(lo, hi2), sqrt) == SphereHit(s, ray, Interval(lo, hi1), sqrt)
  {
    var sq := sqrt(Discriminant(s, ray));
    assert sq >= 0.0;
    RootsOrdered(s, ray, sq);
  }

  /**
   * Root preference: the smaller root is the answer whenever the interval
   * surrounds it, and the larger root is answered only when the smaller one
   * is outside.
   */
  lemma NearRootPreferred(s: Sphere, ray: Ray, iv: Interval, sqrt: real -> real)
    requires s.radius != 0.0 && Discriminant(s, ray) >= 0.0 && QuadA(ray) != 0.0
    ensures var sqrtd := sqrt(Discriminant(s, ray));
            Surrounds(iv, NearRoot(s, ray, sqrtd)) ==>
              SphereHit(s, ray, iv, sqrt) == Some(HitAt(s, ray, NearRoot(s, ray, sqrtd)))
    ensures var sqrtd := sqrt(Discriminant(s, ray));
            SphereHit(s, ray, iv, sqrt).Some? && SphereHit(s, ray, iv, sqrt).value.t != NearRoot(s, ray, sqrtd) ==>
              !Surrounds(iv, NearRoot(s, ray, sqrtd))
  {
  }
}
