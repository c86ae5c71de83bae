/**
 * Three-component vectors (points, directions and colours) over the reals,
 * with the componentwise operator set of src/vec3.rs. The random helpers take
 * their random draws as parameters.
 */
module Vectors {
  import opened Options

  datatype Vec3 = Vec3(x: real, y: real, z: real)

  /** `Vec3::default()`: the zero vector (also the colour black). */
  const Zero: Vec3 := Vec3(0.0, 0.0, 0.0)

  /** `Vec3::from(s)`: broadcasts one scalar to all three components. */
  function From(s: real): Vec3 {
    Vec3(s, s, s)
  }

  function Add(a: Vec3, b: Vec3): Vec3 {
    Vec3(a.x + b.x, a.y + b.y, a.z + b.z)
  }

  function Sub(a: Vec3, b: Vec3): Vec3 {
    Vec3(a.x - b.x, a.y - b.y, a.z - b.z)
  }

  /** Componentwise product; `From(s) * v` is how the renderer scales. */
  function Mul(a: Vec3, b: Vec3): Vec3 {
    Vec3(a.x * b.x, a.y * b.y, a.z * b.z)
  }

  /** Componentwise quotient; a zero divisor component (NaN or infinity in f32) is excluded. */
  function Div(a: Vec3, b: Vec3): Vec3
    requires b.x != 0.0 && b.y != 0.0 && b.z != 0.0
  {
    Vec3(a.x / b.x, a.y / b.y, a.z / b.z)
  }

  function Dot(a: Vec3, b: Vec3): real {
    a.x * b.x + a.y * b.y + a.z * b.z
  }

  /** The squared length is the vector's dot product with itself, and never negative. */
  function LengthSquared(v: Vec3): (r: real)
    ensures r == Dot(v, v)
    ensures r >= 0.0
  {
    SquareNonNegative(v.x);
    SquareNonNegative(v.y);
    SquareNonNegative(v.z);
    v.x * v.x + v.y * v.y + v.z * v.z
  }

  lemma SquareNonNegative(a: real)
    ensures a * a >= 0.0
  {
  }

  /** `f` is a square root on the non-negative reals: the stand-in for `f32::sqrt`. */
  ghost predicate IsSqrt(f: real -> real) {
    forall d: real :: d >= 0.0 ==> f(d) >= 0.0 && f(d) * f(d) == d
  }

  /**
   * `Vec3::scale`: takes `self` by value and multiplies its fields one by one.
   * The result is the broadcast product `From(s) * v`.
   */
  method Scale(v: Vec3, s: real) returns (r: Vec3)
    ensures r == Mul(From(s), v)
  {
    r := v;
    r := r.(x := r.x * s);
    r := r.(y := r.y * s);
    r := r.(z := r.z * s);
  }

  /** Adding and then subtracting the same vector, or multiplying and then dividing by it, gives back the original. */
  lemma ComponentwiseInverses(a: Vec3, b: Vec3)
    ensures Sub(Add(a, b), b) == a
    ensures b.x != 0.0 && b.y != 0.0 && b.z != 0.0 ==> Div(Mul(a, b), b) == a
  {
    if b.x != 0.0 && b.y != 0.0 && b.z != 0.0 {
      assert (a.x * b.x) / b.x == a.x;
      assert (a.y * b.y) / b.y == a.y;
      assert (a.z * b.z) / b.z == a.z;
    }
  }

  /**
   * `unit_vector(v)`, with the square root of `length_squared(v)` supplied as
   * `length`: the result has squared length one and points the way `v` does.
   */
  function UnitVector(v: Vec3, length: real): (u: Vec3)
    requires length > 0.0 && length * length == LengthSquared(v)
    ensures LengthSquared(u) == 1.0
    ensures Mul(From(length), u) == v
  {
    var u := Vec3(v.x / length, v.y / length, v.z / length);
    UnitVectorFacts(v, length);
    u
  }

  lemma UnitVectorFacts(v: Vec3, length: real)
    requires length > 0.0 && length * length == LengthSquared(v)
    ensures var u := Vec3(v.x / length, v.y / length, v.z / length);
            LengthSquared(u) == 1.0 && Mul(From(length), u) == v
  {
    var q := 1.0 / length;
    QuotientIsProduct(v.x, length);
    QuotientIsProduct(v.y, length);
    QuotientIsProduct(v.z, length);
    ScaledLengthSquared(v, q);
    InverseSquared(q, length);
  }

  /** Scaling every component by `q` scales the squared length by `q * q`. */
  lemma ScaledLengthSquared(v: Vec3, q: real)
    ensures LengthSquared(Vec3(q * v.x, q * v.y, q * v.z)) == (q * q) * LengthSquared(v)
  {
  }

  lemma QuotientIsProduct(p: real, l: real)
    requires l != 0.0
    ensures p / l == (1.0 / l) * p
    ensures l * (p / l) == p
  {
  }

  lemma InverseSquared(q: real, l: real)
    requires l != 0.0 && q == 1.0 / l
    ensures (q * q) * (l * l) == 1.0
  {
    assert q * l == 1.0;
    assert (q * q) * (l * l) == (q * l) * (q * l);
  }

  /**
   * `random_in_unit_sqhere`: rejection sampling. The candidates that
   * `random_bounded(-1, 1)` would draw are supplied in order; the first one
   * strictly inside the unit sphere is returned. The source loops until it
   * finds one; with finitely many candidates the model reports `None` when
   * every one is rejected.
   */
  method RandomInUnitSphere(candidates: seq<Vec3>) returns (p: Option<Vec3>)
    ensures p.Some? ==> LengthSquared(p.value) < 1.0
    ensures p.None? <==> forall k :: 0 <= k < |candidates| ==> LengthSquared(candidates[k]) >= 1.0
    ensures p.Some? ==> exists k :: 0 <= k < |candidates| && candidates[k] == p.value &&
                                    forall j :: 0 <= j < k ==> LengthSquared(candidates[j]) >= 1.0
  {
    var k := 0;
    while k < |candidates|
      invariant 0 <= k <= |candidates|
      invariant forall j :: 0 <= j < k ==> LengthSquared(candidates[j]) >= 1.0
    {
      var candidate := candidates[k];
      if LengthSquared(candidate) < 1.0 {
        return Some(candidate);
      }
      k := k + 1;
    }
    return None;
  }

  /**
   * `random_unit_vector`: normalises the rejection sample. The zero vector
   * passes the rejection test but has no direction (NaN in f32), so the
   * supplied candidates have positive squared length.
   */
  method RandomUnitVector(candidates: seq<Vec3>, sqrt: real -> real) returns (u: Option<Vec3>)
    requires IsSqrt(sqrt)
    requires forall k :: 0 <= k < |candidates| ==> LengthSquared(candidates[k]) > 0.0
    ensures u.Some? ==> LengthSquared(u.value) == 1.0
    ensures u.None? <==> forall k :: 0 <= k < |candidates| ==> LengthSquared(candidates[k]) >= 1.0
    ensures u.Some? ==> exists k :: 0 <= k < |candidates| && LengthSquared(candidates[k]) < 1.0 &&
                                    (forall j :: 0 <= j < k ==> LengthSquared(candidates[j]) >= 1.0) &&
                                    Mul(From(sqrt(LengthSquared(candidates[k]))), u.value) == candidates[k]
  {
    var p := RandomInUnitSphere(candidates);
    if p.None? {
      return None;
    }
    var v := p.value;
    var length := sqrt(LengthSquared(v));
    assert length >= 0.0 && length * length == LengthSquared(v);
    assert length != 0.0;
    return Some(UnitVector(v, length));
  }

  /**
   * `random_on_hemisphere(normal)`, given the unit vector `u` that
   * `random_unit_vector` drew: `u` itself when it points to the normal's
   * side, otherwise `u` flipped.
   */
  method RandomOnHemisphere(normal: Vec3, u: Vec3) returns (r: Vec3)
    ensures r == u || r == Mul(From(-1.0), u)
    ensures Dot(r, normal) >= 0.0
    ensures Dot(u, normal) > 0.0 ==> r == u
    ensures Dot(u, normal) <= 0.0 ==> r == Mul(From(-1.0), u)
  {
    if Dot(u, normal) > 0.0 {
      r := u;
    } else {
      r := Scale(u, -1.0);
      ScaledDot(u, normal, -1.0);
    }
  }

  /**
   * The laws of the componentwise operators the renderer relies on: `+` is
   * commutative and associative with the zero vector as identity, `From(1)`
   * is the identity of `*`, broadcasts multiply as scalars, `*` distributes
   * over `+`, and `dot` is symmetric with `dot(v, v)` the squared length.
   */
  lemma VectorLaws(a: Vec3, b: Vec3, c: Vec3, s: real, t: real)
    ensures Add(a, b) == Add(b, a) && Add(Add(a, b), c) == Add(a, Add(b, c)) && Add(a, Zero) == a
    ensures Sub(a, a) == Zero && Mul(From(1.0), a) == a && Mul(From(s), From(t)) == From(s * t)
    ensures Mul(a, Add(b, c)) == Add(Mul(a, b), Mul(a, c))
    ensures Dot(a, b) == Dot(b, a) && Dot(a, a) == LengthSquared(a)
  {
  }

  /** Scaling one factor of a dot product scales the product. */
  lemma ScaledDot(u: Vec3, n: Vec3, s: real)
    ensures Dot(Mul(From(s), u), n) == s * Dot(u, n)
  {
    assert (s * u.x) * n.x + (s * u.y) * n.y + (s * u.z) * n.z == s * (u.x * n.x + u.y * n.y + u.z * n.z);
  }
}
