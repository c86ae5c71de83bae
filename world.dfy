/**
 * The scene and its per-ray colour (src/world.rs).
 *
 * The nearest-hit loop of `render_pixel` works for any `Hittable`; `Scan`
 * models it over one hit function per object (what the object answers for
 * a given interval), and the lemmas about it assume only the two properties
 * of `Sphere::hit` it needs. `Shade` is the recursive colour `render_pixel`
 * returns. The method `RenderPixel` runs the loop over a real `HitRecord`
 * and is proved to return `Shade`.
 */
module Scene {
  import opened Options
  import opened Vectors
  import opened Intervals
  import opened Rays
  import opened Geometry

  /** `World<Sphere>`: the list of objects, in the order they are tested. */
  datatype World = World(objects: seq<Sphere>)

  /** Spheres whose normal `(p - center) / radius` is defined. */
  predicate ValidObjects(objects: seq<Sphere>) {
    forall k :: 0 <= k < |objects| ==> objects[k].radius != 0.0
  }

  /** What one `Hittable` answers for the ray at hand, as a function of the interval it is given. */
  type HitFn = Interval -> Option<HitInfo>

  /** The objects' hit functions for one ray. */
  function HitsOf(objects: seq<Sphere>, ray: Ray, sqrt: real -> real): (hits: seq<HitFn>)
    requires ValidObjects(objects)
    ensures |hits| == |objects|
    ensures forall k, i :: 0 <= k < |objects| ==> hits[k](i) == SphereHit(objects[k], ray, i, sqrt)
  {
    seq(|objects|, k requires 0 <= k < |objects| => (i: Interval) => SphereHit(objects[k], ray, i, sqrt))
  }

  /** A hit is only ever reported strictly inside the interval asked about. */
  ghost predicate Answers(hit: HitFn) {
    forall i :: hit(i).Some? ==> Surrounds(i, hit(i).value.t)
  }

  /**
   * Lowering the interval's upper end to `b` keeps exactly the hits nearer
   * than `b`, and keeps them unchanged.
   */
  ghost predicate Narrows(hit: HitFn, iv: Interval) {
    forall b :: Below(b, iv.max) ==>
      var narrowed := hit(Interval(iv.min, Finite(b)));
      (narrowed.Some? <==> hit(iv).Some? && hit(iv).value.t < b) &&
      (narrowed.Some? ==> narrowed == hit(iv))
  }

  /** Every object answers within its interval and narrows as a sphere does. */
  ghost predicate WellBehaved(hits: seq<HitFn>, iv: Interval) {
    forall k :: 0 <= k < |hits| ==> Answers(hits[k]) && Narrows(hits[k], iv)
  }

  /** The upper end of the interval handed to the next object: the last hit's parameter, or the original end. */
  function Closest(found: Option<HitInfo>, max: Bound): Bound {
    if found.Some? then Finite(found.value.t) else max
  }

  /**
   * The record held by the nearest-hit loop after testing the first `n`
   * objects: each object is asked for a hit strictly between the interval's
   * minimum and the closest parameter found so far, and a success replaces
   * the record.
   */
  function Scan(hits: seq<HitFn>, iv: Interval, n: nat): Option<HitInfo>
    requires n <= |hits|
  {
    if n == 0 then None
    else
      var prev := Scan(hits, iv, n - 1);
      var h := hits[n - 1](Interval(iv.min, Closest(prev, iv.max)));
      if h.Some? then h else prev
  }

  /** The nearest hit over the whole world. */
  function Nearest(objects: seq<Sphere>, ray: Ray, iv: Interval, sqrt: real -> real): Option<HitInfo>
    requires ValidObjects(objects)
  {
    Scan(HitsOf(objects, ray, sqrt), iv, |objects|)
  }

  /** `Sphere::hit` answers within its interval and narrows. */
  lemma SpheresBehave(objects: seq<Sphere>, ray: Ray, iv: Interval, sqrt: real -> real)
    requires ValidObjects(objects) && IsSqrt(sqrt)
    ensures WellBehaved(HitsOf(objects, ray, sqrt), iv)
  {
    var hits := HitsOf(objects, ray, sqrt);
    forall k | 0 <= k < |hits|
      ensures Answers(hits[k]) && Narrows(hits[k], iv)
    {
      forall b | Below(b, iv.max)
        ensures var narrowed := hits[k](Interval(iv.min, Finite(b)));
                (narrowed.Some? <==> hits[k](iv).Some? && hits[k](iv).value.t < b) &&
                (narrowed.Some? ==> narrowed == hits[k](iv))
      {
        NarrowedHit(objects[k], ray, iv, sqrt, b);
      }
    }
  }

  /**
   * Asking a sphere with the upper end narrowed to `b` (itself below the
   * original end) gives its hit over the whole interval when that hit is
   * nearer than `b`, and nothing otherwise.
   */
  lemma NarrowedHit(o: Sphere, ray: Ray, iv: Interval, sqrt: real -> real, b: real)
    requires o.radius != 0.0 && IsSqrt(sqrt) && Below(b, iv.max)
    ensures var full := SphereHit(o, ray, iv, sqrt);
            var narrowed := SphereHit(o, ray, Interval(iv.min, Finite(b)), sqrt);
            (narrowed.Some? <==> full.Some? && full.value.t < b) &&
            (narrowed.Some? ==> narrowed == full)
  {
    var full := SphereHit(o, ray, iv, sqrt);
    var narrowed := SphereHit(o, ray, Interval(iv.min, Finite(b)), sqrt);
    if narrowed.Some? {
      HitSameBelow(o, ray, iv.min, Finite(b), iv.max, sqrt);
    } else if full.Some? && full.value.t < b {
      HitSameBelow(o, ray, iv.min, iv.max, Finite(b), sqrt);
    }
  }

  /** The record is always strictly inside the original interval. */
  lemma {:induction false} ScanSurrounded(hits: seq<HitFn>, iv: Interval, n: nat)
    requires n <= |hits| && WellBehaved(hits, iv)
    ensures var r := Scan(hits, iv, n);
            r.Some? ==> Surrounds(iv, r.value.t)
  {
    if n > 0 {
      ScanSurrounded(hits, iv, n - 1);
      assert Answers(hits[n - 1]);
      assert Interval(iv.min, iv.max) == iv;
    }
  }

  /**
   * One pass of the loop: an object that hits on the narrowed interval
   * replaces the record, and its parameter is strictly below the previous
   * `closest_so_far`, so that bound strictly decreases with each accepted
   * hit; an object that misses leaves the record and the bound unchanged.
   */
  lemma ClosestShrinks(hits: seq<HitFn>, iv: Interval, n: nat)
    requires 0 < n <= |hits| && WellBehaved(hits, iv)
    ensures var prev := Scan(hits, iv, n - 1);
            var h := hits[n - 1](Interval(iv.min, Closest(prev, iv.max)));
            (h.Some? ==> Scan(hits, iv, n) == h && Closest(Scan(hits, iv, n), iv.max) == Finite(h.value.t) &&
                         Below(h.value.t, Closest(prev, iv.max))) &&
            (h.None? ==> Scan(hits, iv, n) == prev && Closest(Scan(hits, iv, n), iv.max) == Closest(prev, iv.max))
  {
    assert Answers(hits[n - 1]);
  }

  /** The loop records nothing exactly when no object is hit in the interval. */
  lemma {:induction false} ScanMissesIff(hits: seq<HitFn>, iv: Interval, n: nat)
    requires n <= |hits|
    ensures Scan(hits, iv, n).None? <==> forall k :: 0 <= k < n ==> hits[k](iv).None?
  {
    if n > 0 {
      ScanMissesIff(hits, iv, n - 1);
      assert Interval(iv.min, iv.max) == iv;
    }
  }

  /** No object has a hit nearer than the recorded one. */
  lemma {:induction false} ScanIsNearest(hits: seq<HitFn>, iv: Interval, n: nat)
    requires n <= |hits| && WellBehaved(hits, iv)
    ensures var r := Scan(hits, iv, n);
            r.Some? ==> forall k :: 0 <= k < n && hits[k](iv).Some? ==> r.value.t <= hits[k](iv).value.t
  {
    if n > 0 {
      ScanIsNearest(hits, iv, n - 1);
      var prev := Scan(hits, iv, n - 1);
      assert Narrows(hits[n - 1], iv);
      if prev.None? {
        ScanMissesIff(hits, iv, n - 1);
        assert Interval(iv.min, iv.max) == iv;
      } else {
        ScanSurrounded(hits, iv, n - 1);
        assert Below(prev.value.t, iv.max);
      }
    }
  }

  /**
   * The recorded hit is some object's own hit over the whole interval, and
   * every object before it has a strictly farther one, so among equally
   * near hits the first is kept (a later object at the same distance is not
   * surrounded by the narrowed open interval).
   */
  lemma {:induction false} ScanIsFirst(hits: seq<HitFn>, iv: Interval, n: nat)
    requires n <= |hits| && WellBehaved(hits, iv)
    ensures var r := Scan(hits, iv, n);
            r.Some? ==> exists k :: 0 <= k < n && hits[k](iv) == r &&
                          forall j :: 0 <= j < k && hits[j](iv).Some? ==> r.value.t < hits[j](iv).value.t
  {
    if n > 0 {
      var prev := Scan(hits, iv, n - 1);
      var last := n - 1;
      var r := Scan(hits, iv, n);
      if prev.None? {
        ScanMissesIff(hits, iv, last);
        assert Interval(iv.min, iv.max) == iv;
        if r.Some? {
          assert hits[last](iv) == r;
        }
      } else {
        ScanSurrounded(hits, iv, last);
        assert Narrows(hits[last], iv) && Below(prev.value.t, iv.max);
        var narrowed := hits[last](Interval(iv.min, Finite(prev.value.t)));
        if narrowed.Some? {
          ScanIsNearest(hits, iv, last);
          assert hits[last](iv) == r;
        } else {
          ScanIsFirst(hits, iv, last);
          assert r == prev;
        }
      }
    }
  }

  /**
   * The loop over the world keeps the nearest hit and, among equally near
   * ones, the first:
   * - nothing is recorded exactly when no sphere is hit in the interval;
   * - no sphere has a nearer hit;
   * - the recorded hit is some sphere's own hit over the whole interval,
   *   and every sphere before it has a strictly farther one.
   */
  lemma NearestIsFirstNearest(objects: seq<Sphere>, ray: Ray, iv: Interval, sqrt: real -> real)
    requires ValidObjects(objects) && IsSqrt(sqrt)
    ensures var r := Nearest(objects, ray, iv, sqrt);
            r.None? <==> forall k :: 0 <= k < |objects| ==> SphereHit(objects[k], ray, iv, sqrt).None?
    ensures var r := Nearest(objects, ray, iv, sqrt);
            r.Some? ==> forall k :: 0 <= k < |objects| && SphereHit(objects[k], ray, iv, sqrt).Some? ==>
                          r.value.t <= SphereHit(objects[k], ray, iv, sqrt).value.t
    ensures var r := Nearest(objects, ray, iv, sqrt);
            r.Some? ==> exists k :: 0 <= k < |objects| && SphereHit(objects[k], ray, iv, sqrt) == r &&
                          forall j :: 0 <= j < k && SphereHit(objects[j], ray, iv, sqrt).Some? ==>
                            r.value.t < SphereHit(objects[j], ray, iv, sqrt).value.t
  {
    var hits := HitsOf(objects, ray, sqrt);
    SpheresBehave(objects, ray, iv, sqrt);
    ScanMissesIff(hits, iv, |objects|);
    ScanIsNearest(hits, iv, |objects|);
    ScanIsFirst(hits, iv, |objects|);
  }

  /**
   * What the world's nearest hit means geometrically: it lies on one of the
   * spheres, and no sphere meets the ray at a parameter strictly inside the
   * interval that is nearer (for a ray with a non-zero direction).
   */
  lemma NearestIsClosestIntersection(objects: seq<Sphere>, ray: Ray, iv: Interval, sqrt: real -> real)
    requires ValidObjects(objects) && IsSqrt(sqrt)
    ensures var r := Nearest(objects, ray, iv, sqrt);
            r.Some? ==> Surrounds(iv, r.value.t) && exists k :: 0 <= k < |objects| && OnSphere(objects[k], r.value.p)
    ensures var r := Nearest(objects, ray, iv, sqrt);
            QuadA(ray) > 0.0 ==>
              forall k, x :: 0 <= k < |objects| && Surrounds(iv, x) && OnSphere(objects[k], At(ray, x)) ==>
                r.Some? && r.value.t <= x
  {
    var r := Nearest(objects, ray, iv, sqrt);
    NearestIsFirstNearest(objects, ray, iv, sqrt);
    if r.Some? {
      var k :| 0 <= k < |objects| && SphereHit(objects[k], ray, iv, sqrt) == r;
      HitOnSphere(objects[k], ray, iv, sqrt);
    }
    if QuadA(ray) > 0.0 {
      forall k, x | 0 <= k < |objects| && Surrounds(iv, x) && OnSphere(objects[k], At(ray, x))
        ensures r.Some? && r.value.t <= x
      {
        HitIsNearest(objects[k], ray, iv, sqrt, x);
      }
    }
  }

  /** The order of the objects decides only which of equally near hits is kept, not the distance. */
  lemma NearestOrderIndependent(objects1: seq<Sphere>, objects2: seq<Sphere>, ray: Ray, iv: Interval, sqrt: real -> real)
    requires ValidObjects(objects1) && ValidObjects(objects2) && IsSqrt(sqrt)
    requires multiset(objects1) == multiset(objects2)
    ensures Nearest(objects1, ray, iv, sqrt).Some? == Nearest(objects2, ray, iv, sqrt).Some?
    ensures Nearest(objects1, ray, iv, sqrt).Some? ==>
              Nearest(objects1, ray, iv, sqrt).value.t == Nearest(objects2, ray, iv, sqrt).value.t
  {
    NearestIsFirstNearest(objects1, ray, iv, sqrt);
    NearestIsFirstNearest(objects2, ray, iv, sqrt);
    var r1, r2 := Nearest(objects1, ray, iv, sqrt), Nearest(objects2, ray, iv, sqrt);
    if r1.Some? {
      var k1 :| 0 <= k1 < |objects1| && SphereHit(objects1[k1], ray, iv, sqrt) == r1;
      var k2 := Counterpart(objects1, objects2, k1);
      assert SphereHit(objects2[k2], ray, iv, sqrt) == r1;
    }
    if r2.Some? {
      var k2 :| 0 <= k2 < |objects2| && SphereHit(objects2[k2], ray, iv, sqrt) == r2;
      var k1 := Counterpart(objects2, objects1, k2);
      assert SphereHit(objects1[k1], ray, iv, sqrt) == r2;
    }
  }

  /** An element of a list is found in any list with the same multiset of elements. */
  lemma Counterpart<T>(xs: seq<T>, ys: seq<T>, i: nat) returns (j: nat)
    requires multiset(xs) == multiset(ys) && i < |xs|
    ensures j < |ys| && ys[j] == xs[i]
  {
    assert xs[i] in multiset(ys);
    j :| 0 <= j < |ys| && ys[j] == xs[i];
  }

  /**
   * The sky: a vertical gradient on the direction's `y` (the direction as
   * given, not normalised), white at `y == -1` and `(0.5, 0.7, 1.0)` at
   * `y == 1`.
   */
  function Background(ray: Ray): (color: Vec3)
    ensures color.z == 1.0
    ensures var y := ray.direction.y;
            color == Vec3(0.75 - 0.25 * y, 0.85 - 0.15 * y, 1.0)
    ensures -1.0 <= ray.direction.y <= 1.0 ==>
              0.5 <= color.x <= 1.0 && 0.7 <= color.y <= 1.0
  {
    var a := 0.5 * (ray.direction.y + 1.0);
    Add(Mul(From(1.0 - a), From(1.0)), Mul(From(a), Vec3(0.5, 0.7, 1.0)))
  }

  /** Random unit vectors for the bounces, one per remaining depth. */
  type Scatter = nat -> Vec3

  /**
   * The colour `render_pixel` returns: black once the depth is used up, the
   * sky when nothing is hit, and otherwise a tenth of the colour seen along
   * the bounced ray `(p, normal + scatter(depth))`.
   */
  function Shade(objects: seq<Sphere>, ray: Ray, depth: nat, iv: Interval, sqrt: real -> real, scatter: Scatter): (color: Vec3)
    requires ValidObjects(objects)
    decreases depth
  {
    if depth == 0 then Zero
    else
      match Nearest(objects, ray, iv, sqrt)
      case None => Background(ray)
      case Some(h) => Mul(From(0.1), Shade(objects, Ray(h.p, Add(h.normal, scatter(depth))), depth - 1, iv, sqrt, scatter))
  }

  /** `x` to the power `n`. */
  function Power(x: real, n: nat): real {
    if n == 0 then 1.0 else x * Power(x, n - 1)
  }

  /**
   * An independent account of the path: the number of bounces before the
   * ray escapes to the sky and the escaping ray, or `None` when every ray up
   * to the depth bound hits something.
   */
  function Escape(objects: seq<Sphere>, ray: Ray, depth: nat, iv: Interval, sqrt: real -> real, scatter: Scatter): (r: Option<(nat, Ray)>)
    requires ValidObjects(objects)
    ensures r.Some? ==> r.value.0 < depth
    decreases depth
  {
    if depth == 0 then None
    else
      match Nearest(objects, ray, iv, sqrt)
      case None => Some((0, ray))
      case Some(h) =>
        match Escape(objects, Ray(h.p, Add(h.normal, scatter(depth))), depth - 1, iv, sqrt, scatter)
        case None => None
        case Some((b, r)) => Some((b + 1, r))
  }

  /**
   * Each bounce multiplies by the attenuation 0.1: the colour is the sky
   * seen by the escaping ray scaled by `0.1^bounces`, and black when the
   * depth bound is reached first.
   */
  lemma {:induction false} ShadeIsAttenuatedSky(objects: seq<Sphere>, ray: Ray, depth: nat, iv: Interval, sqrt: real -> real, scatter: Scatter)
    requires ValidObjects(objects)
    ensures var e := Escape(objects, ray, depth, iv, sqrt, scatter);
            Shade(objects, ray, depth, iv, sqrt, scatter) ==
              if e.None? then Zero else Mul(From(Power(0.1, e.value.0)), Background(e.value.1))
    decreases depth
  {
    if depth > 0 {
      var e := Escape(objects, ray, depth, iv, sqrt, scatter);
      var c := Shade(objects, ray, depth, iv, sqrt, scatter);
      var n := Nearest(objects, ray, iv, sqrt);
      if n.None? {
        assert c == Background(ray);
        assert e == Some((0, ray));
        ScaleByOne(Background(ray));
      } else {
        var h := n.value;
        var next := Ray(h.p, Add(h.normal, scatter(depth)));
        var e' := Escape(objects, next, depth - 1, iv, sqrt, scatter);
        var c' := Shade(objects, next, depth - 1, iv, sqrt, scatter);
        assert c == Mul(From(0.1), c');
        ShadeIsAttenuatedSky(objects, next, depth - 1, iv, sqrt, scatter);
        if e'.None? {
          assert e.None?;
          ScaleZero(0.1);
        } else {
          assert e == Some((e'.value.0 + 1, e'.value.1));
          ScaleTwice(0.1, Power(0.1, e'.value.0), Background(e'.value.1));
        }
      }
    }
  }

  lemma ScaleByOne(v: Vec3)
    ensures Mul(From(1.0), v) == v
  {
  }

  lemma ScaleZero(q: real)
    ensures Mul(From(q), Zero) == Zero
  {
  }

  lemma ScaleTwice(q: real, p: real, v: Vec3)
    ensures Mul(From(q), Mul(From(p), v)) == Mul(From(q * p), v)
  {
  }

  /** With no objects every ray sees the sky (while depth remains). */
  lemma EmptyWorldIsSky(ray: Ray, depth: nat, iv: Interval, sqrt: real -> real, scatter: Scatter)
    requires depth > 0
    ensures Shade([], ray, depth, iv, sqrt, scatter) == Background(ray)
  {
  }

  /** At depth one, a ray that hits anything is black: its bounce has no depth left. */
  lemma HitAtLastDepthIsBlack(objects: seq<Sphere>, ray: Ray, iv: Interval, sqrt: real -> real, scatter: Scatter)
    requires ValidObjects(objects) && Nearest(objects, ray, iv, sqrt).Some?
    ensures Shade(objects, ray, 1, iv, sqrt, scatter) == Zero
  {
    var h := Nearest(objects, ray, iv, sqrt).value;
    var next := Ray(h.p, Add(h.normal, scatter(1)));
    assert Shade(objects, next, 0, iv, sqrt, scatter) == Zero;
    assert Shade(objects, ray, 1, iv, sqrt, scatter) == Mul(From(0.1), Shade(objects, next, 0, iv, sqrt, scatter));
    ScaleZero(0.1);
  }

  /**
   * `render_pixel`: returns black at depth 0; otherwise finds the nearest
   * hit with `HitObjects`, then bounces or returns the sky.
   */
  method RenderPixel(world: World, ray: Ray, depth: nat, iv: Interval, sqrt: real -> real, scatter: Scatter) returns (color: Vec3)
    requires ValidObjects(world.objects)
    ensures color == Shade(world.objects, ray, depth, iv, sqrt, scatter)
    decreases depth
  {
    if depth == 0 {
      return Zero;
    }

    var rec := new HitRecord();
    var hitAnything := HitObjects(world, ray, iv, rec, sqrt);

    if hitAnything {
      var direction := Add(rec.normal, scatter(depth));
      var bounced := RenderPixel(world, Ray(rec.p, direction), depth - 1, iv, sqrt, scatter);
      color := Mul(From(0.1), bounced);
    } else {
      var unitDirection := ray.direction;
      var a := 0.5 * (unitDirection.y + 1.0);
      color := Add(Mul(From(1.0 - a), From(1.0)), Mul(From(a), Vec3(0.5, 0.7, 1.0)));
    }
  }

  /**
   * The loop of `render_pixel`: tests every object in order against the
   * interval narrowed to the closest hit so far, writing hits into the one
   * `HitRecord`. Afterwards the record holds the world's nearest hit.
   */
  method HitObjects(world: World, ray: Ray, iv: Interval, rec: HitRecord, sqrt: real -> real) returns (hitAnything: bool)
    requires ValidObjects(world.objects)
    modifies rec
    ensures hitAnything == Nearest(world.objects, ray, iv, sqrt).Some?
    ensures hitAnything ==> rec.Info() == Nearest(world.objects, ray, iv, sqrt).value
    ensures !hitAnything ==> unchanged(rec)
    ensures rec.frontFace == old(rec.frontFace)
  {
    ghost var hits := HitsOf(world.objects, ray, sqrt);
    hitAnything := false;
    var closestSoFar := iv.max;

    for k := 0 to |world.objects|
      invariant hitAnything == Scan(hits, iv, k).Some?
      invariant hitAnything ==> rec.Info() == Scan(hits, iv, k).value
      invariant closestSoFar == Closest(Scan(hits, iv, k), iv.max)
      invariant !hitAnything ==> unchanged(rec)
      invariant rec.frontFace == old(rec.frontFace)
    {
      var hit := Hit(world.objects[k], ray, Interval(iv.min, closestSoFar), rec, sqrt);
      if hit {
        hitAnything := true;
        closestSoFar := Finite(rec.t);
      }
    }
  }
}
