# A verified model of the `balls` ray tracer core

`balls` is a small CPU path tracer written in Rust. A pinhole camera sends
jittered sample rays through every pixel of an image. A world of spheres
answers each ray with a colour. On a hit it bounces the ray off the nearest
sphere and keeps a tenth of the colour seen along the bounced ray. On a miss
it returns a sky gradient. The camera averages the samples of each pixel,
gamma-encodes them and writes them out as 0..255 channel values.

This project models that core in Dafny. It has one module per source file:

- `Vectors` (vec3.dfy): the vector type, its operators and the random helpers.
- `Intervals` (interval.dfy): `contains`, `surrounds` and `clamp`. The upper end may be `+inf`.
- `Geometry` (geometry.dfy): `HitRecord`, `set_face_normal` and `Sphere::hit`.
- `Scene` (world.dfy): the nearest-hit loop and `render_pixel`.
- `Cameras` (camera.dfy): `Camera::new`, `get_ray`, `pixel_sample_square`, `render_color` and `render`.
- `Rays` (ray.dfy) and `Options` (options.dfy): the ray and optional-value helpers they share.

Modelling conventions:

- `f32` arithmetic is real arithmetic.
- `f32::sqrt` is a parameter `sqrt: real -> real`. Lemmas that need it to be a square root ask for `IsSqrt(sqrt)`.
- Random draws come in as parameters:
  - the candidates of the rejection sampler;
  - the two uniform samples of `pixel_sample_square`;
  - the unit vectors added to bounce normals.
- Rust's float-to-integer casts are written out: truncation toward zero, then saturation.

Where the model has a real `HitRecord` written through `&mut`, it is a class:

- `Hit` is the method that writes it.
- `HitObjects` is the method that runs the loop over it, and `RenderPixel` calls it and recurses.
- Each method is proved to agree with a value-level specification (`SphereHit`, `Nearest`, `Shade`). The lemmas state their properties about that specification.
- `Render`, `RenderRow` and `TracePixel` are `render`'s three nested loops. They are proved to produce `PixelColor` for every pixel.

The model follows the code in two places where a reader might expect otherwise:

- `set_face_normal` computes the front-face test into a local variable. It never stores it in the record's `front_face` field.
- The sky gradient uses the ray direction's raw `y` component. It does not normalise it first.

## Model

| member | source | states |
|---|---|---|
| Vectors.LengthSquared | src/vec3.rs:38-40 | the squared length is the dot product of the vector with itself and is never negative |
| Vectors.From | src/vec3.rs:63-71 | definition: the scalar broadcast to all three components; its laws are in `Vectors.VectorLaws` |
| Vectors.Add | src/vec3.rs:73-82 | definition: componentwise sum |
| Vectors.Sub | src/vec3.rs:83-92 | definition: componentwise difference |
| Vectors.Mul | src/vec3.rs:105-115 | definition: componentwise product, also used for scaling by `From(s)` |
| Vectors.Div | src/vec3.rs:94-104 | definition: componentwise quotient, for divisors with no zero component |
| Vectors.Dot | src/vec3.rs:34-36 | definition: the sum of the componentwise products |
| Vectors.VectorLaws | src/vec3.rs:34-115 | `+` is commutative and associative with identity zero; `v - v` is zero; `From(1)` is the identity of `*`; broadcasts multiply as scalars; `*` distributes over `+`; `dot` is symmetric and `dot(v, v)` is the squared length |
| Vectors.ScaledDot | src/vec3.rs:34-36 | scaling one factor of a dot product by `s` scales the product by `s` |
| Vectors.Scale | src/vec3.rs:27-32 | scaling field by field in place equals the broadcast product `From(s) * v` |
| Vectors.ComponentwiseInverses | src/vec3.rs:73-115 | subtracting undoes adding; dividing undoes multiplying when no component of the divisor is zero |
| Vectors.UnitVector | src/vec3.rs:123-126 | the result has squared length 1, and multiplying it by the length gives back the input |
| Vectors.RandomInUnitSphere | src/vec3.rs:128-135 | returns the first candidate strictly inside the unit sphere; every earlier candidate was rejected; no result exactly when every candidate is rejected |
| Vectors.RandomUnitVector | src/vec3.rs:137-139 | any result has squared length 1 and is the first accepted candidate divided by its length (scaling the result by that length gives the candidate back); no result exactly when the sampler rejects every candidate |
| Vectors.RandomOnHemisphere | src/vec3.rs:141-148 | the result lies on the normal's side: `u` itself when `dot(u, normal) > 0`, and `-u` otherwise, including when the dot product is zero |
| Rays.At | src/geometry/mod.rs:69 | definition: the point `origin + t * direction` |
| Rays.AtLaws | src/geometry/mod.rs:69 | the ray is at its origin for `t = 0`, and `at(t) - origin` is `t` times the direction |
| Intervals.Contains | src/interval.rs:25-27 | the closed test holds exactly for the points that `clamp` leaves unchanged |
| Intervals.Surrounds | src/interval.rs:29-31 | the open test implies the closed test, and such points are unchanged by `clamp` |
| Intervals.Clamp | src/interval.rs:33-41 | returns `x` exactly when `x` lies in the closed interval; for an ordered interval the result is always inside it |
| Intervals.ClampIdempotent | src/interval.rs:33-41 | clamping into an ordered interval lands inside it, so clamping twice equals clamping once |
| Geometry.FaceNormal | src/geometry/mod.rs:14-17 | the stored normal is the outward normal or its negation and always faces the incoming ray; the outward normal is kept exactly when it already faces the ray (negative dot product), and negated otherwise, including a grazing ray with a zero dot product |
| Geometry.HitRecord.constructor | src/geometry/mod.rs:5-11 | `HitRecord::default()`: all fields zero or false |
| Geometry.HitRecord.SetFaceNormal | src/geometry/mod.rs:14-17 | writes the oriented normal; point, parameter and front-face flag keep their values |
| Geometry.SphereHit | src/geometry/mod.rs:47-74 | a negative discriminant is a miss; a hit's parameter is strictly inside the interval; the hit point is `ray.at(t)`; its normal faces the ray; `t` is one of the two quadratic-formula roots |
| Geometry.Hit | src/geometry/mod.rs:48-74 | the method succeeds exactly when `SphereHit` reports a hit and then holds that hit in the record; on a miss the record is untouched |
| Geometry.QuadraticRootSolves | src/geometry/mod.rs:53-62 | both half-b formula roots solve `a t^2 + 2 hb t + c = 0` |
| Geometry.QuadraticRootsAreFormula | src/geometry/mod.rs:53-62 | every root of the quadratic with `a > 0` satisfies `(a x + hb)^2 = hb^2 - a c` |
| Geometry.DistanceOnRay | src/geometry/mod.rs:49-52 | the squared distance from the centre to `ray.at(t)` equals the quadratic in `t` built from `a`, `half_b` and `c`, plus `r^2` |
| Geometry.OnSphereIffRoot | src/geometry/mod.rs:49-53 | `ray.at(t)` lies on the sphere exactly when `t` is a root of that quadratic |
| Geometry.RootsOrdered | src/geometry/mod.rs:60-62 | for `a > 0` the root tried first is never larger than the one tried second |
| Geometry.HitOnSphere | src/geometry/mod.rs:58-70 | a reported hit point lies on the sphere's surface |
| Geometry.HitIsNearest | src/geometry/mod.rs:53-66 | for a non-zero direction, every ray point on the sphere strictly inside the interval makes `hit` succeed, with a parameter no larger |
| Geometry.HitSameBelow | src/geometry/mod.rs:60-66 | a hit at `t` is the same hit for any other upper end above `t` |
| Geometry.NearRootPreferred | src/geometry/mod.rs:60-66 | the smaller root is answered whenever the interval surrounds it; the larger root is answered only when the smaller one is outside |
| Scene.NarrowedHit | src/world.rs:36-40 | lowering a sphere's upper end to `b` keeps exactly the hits nearer than `b`, and keeps them unchanged |
| Scene.SpheresBehave | src/world.rs:36-40 | every sphere answers only strictly inside the interval and narrows as above |
| Scene.Scan | src/world.rs:32-41 | definition: the record after the loop has tested the first `n` objects, each against the interval narrowed to the closest hit so far |
| Scene.Nearest | src/world.rs:32-41 | definition: the record after the loop has tested every object |
| Scene.ClosestShrinks | src/world.rs:34-41 | a hit on the narrowed interval replaces the record and lies strictly below the previous `closest_so_far`, so that bound strictly decreases with each accepted hit; a miss leaves both unchanged |
| Scene.ScanSurrounded | src/world.rs:32-41 | the hit the loop keeps is always strictly inside the original interval |
| Scene.ScanMissesIff | src/world.rs:32-41 | the loop keeps nothing exactly when no object is hit in the whole interval |
| Scene.ScanIsNearest | src/world.rs:32-41 | no object has a hit nearer than the one the loop keeps |
| Scene.ScanIsFirst | src/world.rs:32-41 | the kept hit is some object's own hit over the whole interval, and every object before it has a strictly farther hit (ties go to the first) |
| Scene.NearestIsFirstNearest | src/world.rs:32-41 | the three properties above for the world's spheres, stated in terms of `Sphere::hit` |
| Scene.NearestIsClosestIntersection | src/world.rs:32-41 | the kept hit lies on one of the spheres; for a non-zero direction, no sphere meets the ray strictly inside the interval any nearer |
| Scene.NearestOrderIndependent | src/world.rs:36-41 | reordering the objects may change which of several equally near hits is kept, but not whether there is a hit or at what distance |
| Scene.Background | src/world.rs:46-50 | the sky is `(0.75 - 0.25 y, 0.85 - 0.15 y, 1)` for direction component `y`: white at `y = -1`, `(0.5, 0.7, 1.0)` at `y = 1`, and between the two for `y` in [-1, 1] |
| Scene.Shade | src/world.rs:27-54 | definition: the value `render_pixel` returns; black at depth 0, the sky on a miss, a tenth of the bounced colour on a hit; its properties are in `Scene.ShadeIsAttenuatedSky`, `Scene.EmptyWorldIsSky` and `Scene.HitAtLastDepthIsBlack` |
| Scene.Escape | src/world.rs:28-45 | the path's bounce count is always below the depth bound |
| Scene.ShadeIsAttenuatedSky | src/world.rs:27-54 | the pixel colour is the sky seen by the escaping ray scaled by `0.1^bounces`, or black when the depth runs out first |
| Scene.EmptyWorldIsSky | src/world.rs:43-50 | with no objects and depth left, every ray sees the sky |
| Scene.HitAtLastDepthIsBlack | src/world.rs:28-45 | at depth 1, a ray that hits anything is black |
| Scene.RenderPixel | src/world.rs:27-54 | the loop over a shared `HitRecord` (`HitObjects`), with the recursion, returns exactly `Shade` |
| Scene.HitObjects | src/world.rs:32-41 | the loop over the objects, writing into one `HitRecord`, reports a hit exactly when `Nearest` has one, and then leaves that hit in the record; a total miss leaves the record unchanged, and `front_face` is never written |
| Cameras.TruncTowardZero | src/camera.rs:25-28 | the integer part toward zero: in `(q - 1, q]` for non-negative `q`, in `[q, q + 1)` for negative `q` |
| Cameras.AsI32 | src/camera.rs:25 | `as i32`: always within i32; equals the truncation whenever that fits, and saturates to `i32::MAX` above and `i32::MIN` below |
| Cameras.AsU32 | src/camera.rs:28 | `as u32`: 0 below 1; for non-negative values the floor, saturated at `u32::MAX` |
| Cameras.ImageHeight | src/camera.rs:25-29 | the image height is at least 1 |
| Cameras.ImageHeightIsFloor | src/camera.rs:25-29 | the height is 1 when width over aspect ratio is below 1; otherwise that quotient rounded down and saturated at `u32::MAX`, and never above the quotient; `u32::MAX` for a zero aspect ratio |
| Cameras.NewCamera | src/camera.rs:24-62 | the camera sits at the origin with focal length 1 and viewport height 2; the pixel steps divide the viewport evenly; pixel (0, 0) is half a step in from the upper-left corner; zero sample counts and depths become 10 |
| Cameras.CameraAt | src/camera.rs:31-61 | the same viewport geometry for any eye position and image size |
| Cameras.Viewport | src/camera.rs:35-47 | the steps across and down are the viewport's width and height over the pixel counts; pixel (0, 0) is half a step in from the upper-left corner, one focal length ahead |
| Cameras.PixelSampleSquare | src/camera.rs:104-112 | definition: an offset of `su - 0.5` pixel steps across and `sv - 0.5` down |
| Cameras.SampleOffset | src/camera.rs:104-112 | the offset is `(su - 0.5) * pixel_delta_u + (sv - 0.5) * pixel_delta_v`; draws of one half give the pixel centre; `Cameras.RayThroughPixel` shows that draws in [0, 1) stay inside the pixel's cell |
| Cameras.GetRay | src/camera.rs:83-90 | every ray starts at the camera centre |
| Cameras.RayThroughPixel | src/camera.rs:83-112 | for jitter in [0, 1), a sampled ray of a `Camera::new` camera meets the plane z = -1 inside its own pixel's cell, and so inside the viewport |
| Cameras.Channel | src/camera.rs:97-99 | every channel is in 0..255 |
| Cameras.RenderColor | src/camera.rs:93-102 | all three channels are in 0..255 |
| Cameras.ChannelIsGammaTwo | src/camera.rs:94-99 | a channel is `floor(256 * sqrt(x))` while `sqrt(x) <= 0.999`, and 255 from there on |
| Cameras.ChannelMonotone | src/camera.rs:97-99 | a brighter average never gives a darker channel |
| Cameras.AverageOfEqualSamples | src/camera.rs:93-99 | encoding the sum of `n` equal samples with `n` samples gives the colour of one sample |
| Cameras.SampleColor | src/camera.rs:72-74 | definition: the colour `render_pixel` returns for one jittered sample ray of pixel `(i, j)`, with `max_depth` and the interval (0.001, +inf) |
| Cameras.Samples | src/camera.rs:72-75 | definition: the colours of the first `n` samples of a pixel, one per sample, in tracing order |
| Cameras.Sum | src/camera.rs:69-75 | definition: the running sum `pixel = pixel + ...` from the zero vector; its closed form for equal samples is `Cameras.SumOfEqual` |
| Cameras.PixelColor | src/camera.rs:69-77 | definition: the encoded colour of the pixel's summed samples; `Cameras.Render` and `Cameras.RenderRow` are proved to produce it, and `Cameras.UniformPixel` states its value for equal samples |
| Cameras.SumOfEqual | src/camera.rs:69-75 | the running sum of `n` equal colours is that colour scaled by `n` |
| Cameras.UniformPixel | src/camera.rs:67-78 | a pixel whose samples all see the same colour shows that colour as one sample would |
| Cameras.TracePixel | src/camera.rs:69-75 | the sample loop's sum is the sum of the pixel's sample colours, in order |
| Cameras.RenderRow | src/camera.rs:68-78 | one row has the image's width, and pixel `i` is `PixelColor(i, j)` |
| Cameras.Render | src/camera.rs:64-81 | the image has the camera's height; every row has its width; pixel `(i, j)` is `PixelColor(i, j)` |

## Left out

- Floating point: `f32` rounding, NaN and infinities are not modelled; reals stand in for them. Where the code depends on NaN, the model writes out the outcome instead:
  - a zero ray direction makes both roots 0/0, and no interval surrounds them, so it is a miss;
  - a negative channel average has a NaN square root, and `as u32` turns that into 0;
  - the exact value of `i as f32` and `image_width as f32` for large integers is not modelled.
- Randomness: `Vec3::random`, `Vec3::random_bounded` and the `rand` calls in `pixel_sample_square` are replaced by draws passed in as parameters. The inputs are the candidates, the per-sample jitter pair and the per-bounce unit vectors.
- Vectors.RandomInUnitSphere: the source loops until a candidate is accepted. The model gets a finite list and returns `None` when every candidate is rejected.
- Vectors.RandomUnitVector: asks for candidates of positive squared length. The zero vector passes the rejection test but normalises to NaN.
- Scene.RenderPixel: asks for every sphere radius to be non-zero (`ValidObjects`), as do `SphereHit`, `Hit` and everything above them. A zero radius makes the normal's `1.0 / radius` infinite.
- Scene.RenderPixel: the bounce directions are parameters, not constrained to unit length, so the lemmas hold for any scatter.
- Cameras.NewCamera: asks for `image_width >= 1`. With a zero width the height is 1, but the viewport width is 0 and `pixel_delta_u` is 0/0 (NaN).
- Cameras.Render: asks for `samples_per_pixel >= 1`. Every camera from `Camera::new` satisfies this, since a zero becomes 10.
- Output: the PPM header and printing in `render`, the `Display` impl for `Vec3`, and the `format!` of `render_color` are left out. The model returns the 0..255 channel triples instead.
- `render` returns `Result`; it is always `Ok`, so the model has no error path.
- The `Hittable` and `Renderable` traits and the generic `World<T>` are left out. Spheres are the only `Hittable` and `World` is the only `Renderable`, so the model works on a list of spheres. The nearest-hit lemmas are stated over arbitrary per-object hit functions, with two properties that spheres are proved to have.
- `HitRecord` fields: the `front_face` field is never written by the source. The model keeps it as a field that `set_face_normal` leaves unchanged.
- The unused `Empty` and `Universe` wrappers of src/interval.rs are left out.
- Constructors and accessors that only build or read fields are the datatype constructors and fields themselves: `Vec3::new`, `Interval::new`, `Sphere::new`, `World::new`, the `x`/`y`/`z`/`t`/`p`/`normal` accessors and `Interval`'s `min`/`max`, which `render_pixel` reads.
- src/ray.rs is not part of this model. `Ray`, `origin`, `direction` and `at(t) = origin + t * direction` are modelled from their uses.
- src/main.rs builds the sample scene; it is not modelled.
