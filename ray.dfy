/** Rays: an origin and a direction, with the point at parameter `t`. */
module Rays {
  import opened Vectors

  datatype Ray = Ray(origin: Vec3, direction: Vec3)

  /** `ray.at(t)`: the point `origin + t * direction`. */
  function At(ray: Ray, t: real): Vec3 {
    Add(ray.origin, Mul(From(t), ray.direction))
  }

  /** The ray starts at its origin and moves `t` directions away from it at parameter `t`. */
  lemma AtLaws(ray: Ray, t: real)
    ensures At(ray, 0.0) == ray.origin
    ensures Sub(At(ray, t), ray.origin) == Mul(From(t), ray.direction)
    ensures At(ray, t) == Add(ray.origin, Vec3(t * ray.direction.x, t * ray.direction.y, t * ray.direction.z))
  {
  }
}
