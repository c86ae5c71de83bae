/**
 * The camera, per-pixel sampling, colour encoding and the render loop
 * (src/camera.rs).
 *
 * Random draws are parameters: `jitter(i, j, s)` is the pair of uniform
 * samples in [0, 1) that `pixel_sample_square` draws for sample `s` of
 * pixel `(i, j)`, and `scatter(i, j, s)` supplies the unit vectors that
 * sample's bounces add to the normal.
 */
module Cameras {
  import opened Vectors
  import opened Intervals
  import opened Rays
  import opened Scene

  const U32_MAX: int := 0xFFFF_FFFF
  const I32_MIN: int := -0x8000_0000
  const I32_MAX: int := 0x7FFF_FFFF

  type U32 = x: int | 0 <= x <= 0xFFFF_FFFF

  // -------------------------------------------------------------------
  // Rust's float-to-integer casts: truncate toward zero, then saturate.

  /** Truncation toward zero. */
  function TruncTowardZero(q: real): (n: int)
    ensures q >= 0.0 ==> n >= 0 && n as real <= q < n as real + 1.0
    ensures q < 0.0 ==> n <= 0 && n as real - 1.0 < q <= n as real
  {
    if q >= 0.0 then q.Floor else -((-q).Floor)
  }

  /** `q as i32`. */
  function AsI32(q: real): (n: int)
    ensures I32_MIN <= n <= I32_MAX
    ensures I32_MIN <= TruncTowardZero(q) <= I32_MAX ==> n == TruncTowardZero(q)
    ensures TruncTowardZero(q) > I32_MAX ==> n == I32_MAX
    ensures TruncTowardZero(q) < I32_MIN ==> n == I32_MIN
  {
    var t := TruncTowardZero(q);
    if t < I32_MIN then I32_MIN else if t > I32_MAX then I32_MAX else t
  }

  /** `q as u32` (negative values saturate to 0). */
  function AsU32(q: real): (n: U32)
    ensures q < 1.0 ==> n == 0
    ensures q >= 0.0 ==> n == Min(q.Floor, U32_MAX)
  {
    var t := TruncTowardZero(q);
    if t < 0 then 0 else if t > U32_MAX then U32_MAX else t
  }

  function Min(a: int, b: int): int {
    if a <= b then a else b
  }

  // -------------------------------------------------------------------
  // Camera::new

  /**
   * `image_height`: the width divided by the aspect ratio, cast to `i32` to
   * test against 1 and to `u32` for the value. Dividing by a zero aspect
   * ratio gives +inf, which both casts saturate.
   */
  function ImageHeight(width: U32, aspectRatio: real): (h: U32)
    requires width >= 1
    ensures h >= 1
  {
    if aspectRatio == 0.0 then U32_MAX
    else
      var q := width as real / aspectRatio;
      if AsI32(q) < 1 then 1 else AsU32(q)
  }

  /**
   * The height in closed form: 1 when the width over the aspect ratio is
   * below 1 (including every negative ratio), otherwise that quotient
   * rounded down, saturated at `u32::MAX`; a zero ratio gives `u32::MAX`.
   */
  lemma ImageHeightIsFloor(width: U32, aspectRatio: real)
    requires width >= 1
    ensures var h := ImageHeight(width, aspectRatio);
            (aspectRatio == 0.0 ==> h == U32_MAX) &&
            (aspectRatio != 0.0 && width as real / aspectRatio < 1.0 ==> h == 1) &&
            (aspectRatio != 0.0 && width as real / aspectRatio >= 1.0 ==>
               h == Min((width as real / aspectRatio).Floor, U32_MAX) && h as real <= width as real / aspectRatio)
  {
    if aspectRatio != 0.0 {
      var q := width as real / aspectRatio;
      if q >= 1.0 {
        assert TruncTowardZero(q) >= 1;
        assert AsI32(q) >= 1;
      } else {
        assert TruncTowardZero(q) <= 0;
      }
    }
  }

  datatype Camera = Camera(
    aspectRatio: real,
    imageWidth: U32,
    imageHeight: U32,
    center: Vec3,
    pixelDeltaU: Vec3,
    pixelDeltaV: Vec3,
    pixel00Loc: Vec3,
    samplesPerPixel: U32,
    maxDepth: U32)

  /** The viewport's width: its height times the image's width-to-height ratio. */
  function Span(w: real, h: real, viewportHeight: real): real
    requires h != 0.0
  {
    (w / h) * viewportHeight
  }

  /** The viewport width of a camera from `Camera::new`, whose viewport is 2 high. */
  function ViewportWidth(cam: Camera): real
    requires cam.imageHeight >= 1
  {
    Span(cam.imageWidth as real, cam.imageHeight as real, 2.0)
  }

  /**
   * The geometry `Camera::new` sets up: the eye at the origin looking down
   * -z at a viewport of height 2 and focal length 1, pixel steps that divide
   * the viewport evenly (rows going down), and pixel (0, 0) half a step in
   * from the upper-left corner.
   */
  predicate ValidCamera(cam: Camera) {
    cam.samplesPerPixel >= 1 && cam.maxDepth >= 1 && cam.center == Zero && ViewportAround(cam)
  }

  /** The pixel grid of a camera whose viewport is 2 high and 1 ahead of its centre. */
  predicate ViewportAround(cam: Camera) {
    cam.imageWidth >= 1 && cam.imageHeight >= 1 &&
    var vw := ViewportWidth(cam);
    cam.pixelDeltaU == Vec3(vw / cam.imageWidth as real, 0.0, 0.0) &&
    cam.pixelDeltaV == Vec3(0.0, -2.0 / cam.imageHeight as real, 0.0) &&
    cam.pixel00Loc == Add(cam.center, Vec3(-vw / 2.0 + cam.pixelDeltaU.x / 2.0, 1.0 + cam.pixelDeltaV.y / 2.0, -1.0))
  }

  /**
   * `Camera::new`. A zero sample count or depth falls back to 10. A zero
   * image width is not accepted (its pixel step would be 0/0).
   */
  function NewCamera(aspectRatio: real, imageWidth: U32, samplesPerPixel: U32, maxDepth: U32): (cam: Camera)
    requires imageWidth >= 1
    ensures ValidCamera(cam)
    ensures cam.aspectRatio == aspectRatio && cam.imageWidth == imageWidth
    ensures cam.imageHeight == ImageHeight(imageWidth, aspectRatio)
    ensures cam.samplesPerPixel == (if samplesPerPixel == 0 then 10 else samplesPerPixel)
    ensures cam.maxDepth == (if maxDepth == 0 then 10 else maxDepth)
  {
    var imageHeight := ImageHeight(imageWidth, aspectRatio);
    var center := Vec3(0.0, 0.0, 0.0);
    var spp: U32 := if samplesPerPixel == 0 then 10 else samplesPerPixel;
    var depth: U32 := if maxDepth == 0 then 10 else maxDepth;
    CameraAt(aspectRatio, imageWidth, imageHeight, center, spp, depth)
  }

  /** The rest of `Camera::new` once the height is known, for an eye at `center`: focal length 1, viewport height 2. */
  function CameraAt(aspectRatio: real, imageWidth: U32, imageHeight: U32, center: Vec3, samplesPerPixel: U32, maxDepth: U32): (cam: Camera)
    requires imageWidth >= 1 && imageHeight >= 1
    ensures ViewportAround(cam)
    ensures cam.aspectRatio == aspectRatio && cam.imageWidth == imageWidth && cam.imageHeight == imageHeight
    ensures cam.center == center && cam.samplesPerPixel == samplesPerPixel && cam.maxDepth == maxDepth
  {
    var focalLength := 1.0;
    var viewportHeight := 2.0;
    var (pixelDeltaU, pixelDeltaV, pixel00Loc) := Viewport(imageWidth as real, imageHeight as real, center, focalLength, viewportHeight);
    Camera(aspectRatio, imageWidth, imageHeight, center, pixelDeltaU, pixelDeltaV, pixel00Loc, samplesPerPixel, maxDepth)
  }

  /**
   * The viewport arithmetic of `Camera::new` for an image of `w` by `h`
   * pixels, an eye at `center`, focal length `focalLength` and viewport
   * height `viewportHeight`: the pixel steps across and down divide the
   * viewport evenly, and pixel (0, 0) lies half a step in from the
   * viewport's upper-left corner.
   */
  function Viewport(w: real, h: real, center: Vec3, focalLength: real, viewportHeight: real): (r: (Vec3, Vec3, Vec3))
    requires w > 0.0 && h > 0.0
    ensures var vw := Span(w, h, viewportHeight);
            var (du, dv, p00) := r;
            du == Vec3(vw / w, 0.0, 0.0) && dv == Vec3(0.0, -viewportHeight / h, 0.0) &&
            p00 == Add(center, Vec3(-vw / 2.0 + du.x / 2.0, viewportHeight / 2.0 + dv.y / 2.0, -focalLength))
  {
    var viewportWidth := Span(w, h, viewportHeight);

    var viewportU := Vec3(viewportWidth, 0.0, 0.0);
    var viewportV := Vec3(0.0, -viewportHeight, 0.0);

    var pixelDeltaV := Div(viewportV, From(h));
    var pixelDeltaU := Div(viewportU, From(w));

    var viewportUpperLeft := Sub(Sub(Sub(center, Vec3(0.0, 0.0, focalLength)), Div(viewportU, From(2.0))), Div(viewportV, From(2.0)));
    var pixel00Loc := Add(viewportUpperLeft, Mul(From(0.5), Add(pixelDeltaU, pixelDeltaV)));
    HalfwayClosed(viewportUpperLeft, pixelDeltaU, pixelDeltaV);
    DivClosed(viewportU, w);
    DivClosed(viewportV, h);
    ZeroQuotient(w);
    ZeroQuotient(h);
    (pixelDeltaU, pixelDeltaV, pixel00Loc)
  }

  lemma HalfwayClosed(p: Vec3, du: Vec3, dv: Vec3)
    ensures Add(p, Mul(From(0.5), Add(du, dv))) == Vec3(p.x + (du.x + dv.x) / 2.0, p.y + (du.y + dv.y) / 2.0, p.z + (du.z + dv.z) / 2.0)
  {
  }

  lemma DivClosed(v: Vec3, n: real)
    requires n != 0.0
    ensures Div(v, From(n)) == Vec3(v.x / n, v.y / n, v.z / n)
  {
  }

  lemma ZeroQuotient(d: real)
    requires d != 0.0
    ensures 0.0 / d == 0.0
  {
  }

  // -------------------------------------------------------------------
  // Rays through pixels

  /** `pixel_sample_square`: an offset of `su - 0.5` pixel steps across and `sv - 0.5` down. */
  function PixelSampleSquare(pixelDeltaU: Vec3, pixelDeltaV: Vec3, su: real, sv: real): Vec3 {
    var px := -0.5 + su;
    var py := -0.5 + sv;
    Add(Mul(pixelDeltaU, From(px)), Mul(pixelDeltaV, From(py)))
  }

  /**
   * The offset is `(su - 0.5)` steps across plus `(sv - 0.5)` steps down, so
   * draws of one half land on the pixel centre.
   */
  lemma SampleOffset(pixelDeltaU: Vec3, pixelDeltaV: Vec3, su: real, sv: real)
    ensures PixelSampleSquare(pixelDeltaU, pixelDeltaV, su, sv) ==
              Add(Mul(From(su - 0.5), pixelDeltaU), Mul(From(sv - 0.5), pixelDeltaV))
    ensures PixelSampleSquare(pixelDeltaU, pixelDeltaV, 0.5, 0.5) == Zero
  {
  }

  /** `get_ray`: from the camera centre through a jittered point of pixel `(i, j)`. */
  function GetRay(cam: Camera, i: nat, j: nat, su: real, sv: real): (ray: Ray)
    ensures ray.origin == cam.center
  {
    var pixelCenter := Add(Add(cam.pixel00Loc, Mul(From(i as real), cam.pixelDeltaU)), Mul(From(j as real), cam.pixelDeltaV));
    var pixelSample := Add(pixelCenter, PixelSampleSquare(cam.pixelDeltaU, cam.pixelDeltaV, su, sv));
    var rayDirection := Sub(pixelSample, cam.center);
    Ray(cam.center, rayDirection)
  }

  /**
   * Every sampled ray of a camera from `Camera::new` leaves the origin and
   * passes through the viewport at z = -1 inside pixel `(i, j)`'s cell:
   * across, `[-w/2 + i*du, -w/2 + (i+1)*du)` for viewport width `w` and step
   * `du`; down, `(1 - (j+1)*dv, 1 - j*dv]` for step `dv`. So it stays within
   * the viewport `[-w/2, w/2) x (-1, 1]`.
   */
  lemma RayThroughPixel(cam: Camera, i: nat, j: nat, su: real, sv: real)
    requires ValidCamera(cam) && i < cam.imageWidth && j < cam.imageHeight
    requires 0.0 <= su < 1.0 && 0.0 <= sv < 1.0
    ensures var ray := GetRay(cam, i, j, su, sv);
            var vw, du, dv := ViewportWidth(cam), cam.pixelDeltaU.x, -cam.pixelDeltaV.y;
            ray.origin == Zero && ray.direction.z == -1.0 &&
            -vw / 2.0 + i as real * du <= ray.direction.x < -vw / 2.0 + (i as real + 1.0) * du &&
            1.0 - (j as real + 1.0) * dv < ray.direction.y <= 1.0 - j as real * dv &&
            -vw / 2.0 <= ray.direction.x < vw / 2.0 && -1.0 < ray.direction.y <= 1.0
  {
    var ray := GetRay(cam, i, j, su, sv);
    var w, h := cam.imageWidth as real, cam.imageHeight as real;
    var vw, du, dv := ViewportWidth(cam), cam.pixelDeltaU.x, -cam.pixelDeltaV.y;
    SampleDirection(cam, i, j, su, sv);
    PixelSteps(cam);
    CellBounds(ray.direction.x, -vw / 2.0, i as real, su, du, w, vw);
    CellBounds(1.0 - ray.direction.y, 0.0, j as real, sv, dv, h, 2.0);
  }

  /** The sampled ray's direction in terms of the pixel steps. */
  lemma SampleDirection(cam: Camera, i: nat, j: nat, su: real, sv: real)
    requires ValidCamera(cam)
    ensures var d := GetRay(cam, i, j, su, sv).direction;
            var vw, du, dv := ViewportWidth(cam), cam.pixelDeltaU.x, -cam.pixelDeltaV.y;
            d == Vec3(-vw / 2.0 + (i as real + su) * du, 1.0 - (j as real + sv) * dv, -1.0)
  {
  }

  /** The pixel steps are positive and make up the viewport's width and height. */
  lemma PixelSteps(cam: Camera)
    requires ValidCamera(cam)
    ensures var du, dv := cam.pixelDeltaU.x, -cam.pixelDeltaV.y;
            du > 0.0 && dv > 0.0 &&
            cam.imageWidth as real * du == ViewportWidth(cam) && cam.imageHeight as real * dv == 2.0
  {
    var w, h := cam.imageWidth as real, cam.imageHeight as real;
    PositiveQuotient(w, h);
    QuotientTimes(ViewportWidth(cam), w);
    QuotientTimes(2.0, h);
  }

  /**
   * A point `lo + (i + s) * d` with `0 <= s < 1` lies in cell `i` of `n`
   * cells of width `d` starting at `lo`, so within `[lo, lo + n * d)`.
   */
  lemma CellBounds(x: real, lo: real, i: real, s: real, d: real, n: real, total: real)
    requires x == lo + (i + s) * d
    requires 0.0 <= i && i + 1.0 <= n && 0.0 <= s < 1.0 && d > 0.0 && n * d == total
    ensures lo + i * d <= x < lo + (i + 1.0) * d
    ensures lo <= x < lo + total
  {
    assert (i + s) * d == i * d + s * d;
    assert (i + 1.0) * d == i * d + d;
    MultiplyBelow(s, 1.0, d);
    MultiplyBelow(i + 1.0, n, d);
    assert 0.0 <= i * d;
  }

  lemma PositiveQuotient(w: real, h: real)
    requires w > 0.0 && h > 0.0
    ensures w / h * 2.0 > 0.0 && (w / h * 2.0) / w > 0.0 && 2.0 / h > 0.0
  {
  }

  lemma QuotientTimes(p: real, n: real)
    requires n != 0.0
    ensures n * (p / n) == p
  {
  }

  lemma MultiplyBelow(a: real, b: real, d: real)
    requires a <= b && d > 0.0
    ensures a * d <= b * d && (a < b ==> a * d < b * d)
  {
  }

  // -------------------------------------------------------------------
  // Colour output

  datatype Rgb = Rgb(r: int, g: int, b: int)

  /** The intensity interval `[0.000, 0.999]` of `render_color`. */
  const Intensity: Interval := Interval(0.0, Finite(0.999))

  /**
   * One channel of `render_color` for the averaged value `x`: gamma-2
   * encoded by `sqrt`, clamped to the intensity interval and scaled to
   * 0..255. A negative average has a NaN square root, which the clamp
   * passes through and `as u32` turns into 0.
   */
  function Channel(x: real, sqrt: real -> real): (c: U32)
    ensures c <= 255
  {
    if x < 0.0 then 0
    else
      IntensityBelowOne(Clamp(Intensity, sqrt(x)));
      AsU32(256.0 * Clamp(Intensity, sqrt(x)))
  }

  lemma IntensityBelowOne(y: real)
    requires 0.0 <= y <= 0.999
    ensures (256.0 * y).Floor <= 255
  {
  }

  /** `render_color`: each channel of the pixel's summed colour averaged over the samples and encoded. */
  function RenderColor(pixel: Vec3, samplesPerPixel: U32, sqrt: real -> real): (rgb: Rgb)
    requires samplesPerPixel >= 1
    ensures 0 <= rgb.r <= 255 && 0 <= rgb.g <= 255 && 0 <= rgb.b <= 255
  {
    Rgb(Channel(Average(pixel.x, samplesPerPixel), sqrt),
        Channel(Average(pixel.y, samplesPerPixel), sqrt),
        Channel(Average(pixel.z, samplesPerPixel), sqrt))
  }

  /** A summed channel value times `scale = 1 / samples_per_pixel`. */
  function Average(v: real, samplesPerPixel: U32): real
    requires samplesPerPixel >= 1
  {
    var scale := 1.0 / samplesPerPixel as real;
    v * scale
  }

  /**
   * The encoding is gamma 2: for a non-negative average `x`, the channel is
   * `floor(256 * sqrt(x))` while `sqrt(x)` is inside the intensity interval,
   * and saturates at 255 from `sqrt(x) >= 0.999` on.
   */
  lemma ChannelIsGammaTwo(x: real, sqrt: real -> real)
    requires IsSqrt(sqrt) && x >= 0.0
    ensures var c := Channel(x, sqrt);
            (sqrt(x) <= 0.999 ==> c as real <= 256.0 * sqrt(x) < c as real + 1.0) &&
            (sqrt(x) >= 0.999 ==> c == 255)
  {
    var s := sqrt(x);
    assert s >= 0.0;
    IntensityBelowOne(Clamp(Intensity, s));
  }

  /** Brighter averages never give a darker channel. */
  lemma ChannelMonotone(x1: real, x2: real, sqrt: real -> real)
    requires IsSqrt(sqrt) && x1 <= x2
    ensures Channel(x1, sqrt) <= Channel(x2, sqrt)
  {
    if x1 >= 0.0 {
      var s1, s2 := sqrt(x1), sqrt(x2);
      SqrtMonotone(s1, s2);
      var c1, c2 := Clamp(Intensity, s1), Clamp(Intensity, s2);
      assert c1 <= c2;
      IntensityBelowOne(c1);
      IntensityBelowOne(c2);
      FloorMonotone(256.0 * c1, 256.0 * c2);
    }
  }

  /** Square roots preserve order. */
  lemma SqrtMonotone(s1: real, s2: real)
    requires s1 >= 0.0 && s2 >= 0.0 && s1 * s1 <= s2 * s2
    ensures s1 <= s2
  {
    DifferenceOfSquares(s1, s2);
    if s1 + s2 > 0.0 {
      NonPositiveFactor(s1 - s2, s1 + s2);
    }
  }

  lemma DifferenceOfSquares(a: real, b: real)
    ensures (a - b) * (a + b) == a * a - b * b
  {
  }

  lemma NonPositiveFactor(a: real, b: real)
    requires b > 0.0 && a * b <= 0.0
    ensures a <= 0.0
  {
  }

  lemma FloorMonotone(a: real, b: real)
    requires a <= b
    ensures a.Floor <= b.Floor
  {
  }

  /** Averaging `n` equal samples gives the colour of one. */
  lemma AverageOfEqualSamples(c: Vec3, n: U32, sqrt: real -> real)
    requires n >= 1
    ensures RenderColor(Mul(From(n as real), c), n, sqrt) == RenderColor(c, 1, sqrt)
  {
    var k := n as real;
    var p := Mul(From(k), c);
    ScaleCancels(k, c.x);
    ScaleCancels(k, c.y);
    ScaleCancels(k, c.z);
    assert Average(p.x, n) == Average(c.x, 1);
    assert Average(p.y, n) == Average(c.y, 1);
    assert Average(p.z, n) == Average(c.z, 1);
  }

  lemma ScaleCancels(k: real, v: real)
    requires k != 0.0
    ensures (k * v) * (1.0 / k) == v * (1.0 / 1.0)
  {
  }

  // -------------------------------------------------------------------
  // Rendering the image

  /** The two uniform draws of `pixel_sample_square` for sample `s` of pixel `(i, j)`. */
  type Jitter = (nat, nat, nat) -> (real, real)

  /** The bounce directions of sample `s` of pixel `(i, j)`. */
  type Scatters = (nat, nat, nat) -> Scatter

  /** The interval `render` gives every primary ray: from 0.001 (clear of the surface) to infinity. */
  const RayInterval: Interval := Interval(0.001, PosInf)

  /** The colour of sample `s` of pixel `(i, j)`. */
  function SampleColor(cam: Camera, world: World, sqrt: real -> real, jitter: Jitter, scatter: Scatters, i: nat, j: nat, s: nat): Vec3
    requires ValidObjects(world.objects)
  {
    var (su, sv) := jitter(i, j, s);
    Shade(world.objects, GetRay(cam, i, j, su, sv), cam.maxDepth, RayInterval, sqrt, scatter(i, j, s))
  }

  /** The colours of the first `n` samples of pixel `(i, j)`, in the order they are traced. */
  function Samples(cam: Camera, world: World, sqrt: real -> real, jitter: Jitter, scatter: Scatters, i: nat, j: nat, n: nat): (cs: seq<Vec3>)
    requires ValidObjects(world.objects)
    ensures |cs| == n
    ensures forall s :: 0 <= s < n ==> cs[s] == SampleColor(cam, world, sqrt, jitter, scatter, i, j, s)
  {
    seq(n, s requires 0 <= s < n => SampleColor(cam, world, sqrt, jitter, scatter, i, j, s))
  }

  /** The running sum of a list of colours, added first to last as `pixel += ...` does. */
  function Sum(cs: seq<Vec3>): Vec3 {
    if |cs| == 0 then Zero else Add(Sum(cs[..|cs| - 1]), cs[|cs| - 1])
  }

  /** The colour printed for pixel `(i, j)`. */
  function PixelColor(cam: Camera, world: World, sqrt: real -> real, jitter: Jitter, scatter: Scatters, i: nat, j: nat): Rgb
    requires ValidObjects(world.objects) && cam.samplesPerPixel >= 1
  {
    RenderColor(Sum(Samples(cam, world, sqrt, jitter, scatter, i, j, cam.samplesPerPixel)), cam.samplesPerPixel, sqrt)
  }

  /** When every sample of a pixel sees the same colour, the pixel shows that colour as one sample would. */
  lemma UniformPixel(cam: Camera, world: World, sqrt: real -> real, jitter: Jitter, scatter: Scatters, i: nat, j: nat, c: Vec3)
    requires ValidObjects(world.objects) && cam.samplesPerPixel >= 1
    requires forall s :: 0 <= s < cam.samplesPerPixel ==> SampleColor(cam, world, sqrt, jitter, scatter, i, j, s) == c
    ensures PixelColor(cam, world, sqrt, jitter, scatter, i, j) == RenderColor(c, 1, sqrt)
  {
    SumOfEqual(Samples(cam, world, sqrt, jitter, scatter, i, j, cam.samplesPerPixel), c);
    AverageOfEqualSamples(c, cam.samplesPerPixel, sqrt);
  }

  /** The sum of `n` copies of one colour is that colour scaled by `n`. */
  lemma {:induction false} SumOfEqual(cs: seq<Vec3>, c: Vec3)
    requires forall s :: 0 <= s < |cs| ==> cs[s] == c
    ensures Sum(cs) == Mul(From(|cs| as real), c)
  {
    if |cs| > 0 {
      SumOfEqual(cs[..|cs| - 1], c);
      AddOneMore(c, (|cs| - 1) as real);
    }
  }

  lemma AddOneMore(c: Vec3, k: real)
    ensures Add(Mul(From(k), c), c) == Mul(From(k + 1.0), c)
  {
  }

  /**
   * `Camera::render`: rows top to bottom, pixels left to right, each the
   * encoded sum of `samples_per_pixel` traced samples. The rows are the
   * pixel lines in the order they are printed.
   */
  method Render(cam: Camera, world: World, sqrt: real -> real, jitter: Jitter, scatter: Scatters) returns (image: seq<seq<Rgb>>)
    requires ValidObjects(world.objects) && cam.samplesPerPixel >= 1
    ensures |image| == cam.imageHeight
    ensures forall j :: 0 <= j < |image| ==> |image[j]| == cam.imageWidth
    ensures forall j, i :: 0 <= j < |image| && 0 <= i < |image[j]| ==>
              image[j][i] == PixelColor(cam, world, sqrt, jitter, scatter, i, j)
  {
    image := [];
    for j := 0 to cam.imageHeight
      invariant |image| == j
      invariant forall jj :: 0 <= jj < j ==> |image[jj]| == cam.imageWidth
      invariant forall jj, ii :: 0 <= jj < j && 0 <= ii < |image[jj]| ==>
                  image[jj][ii] == PixelColor(cam, world, sqrt, jitter, scatter, ii, jj)
    {
      var row := RenderRow(cam, world, sqrt, jitter, scatter, j);
      image := image + [row];
    }
  }

  /** One pass of `render`'s row loop: the pixels of row `j`, left to right. */
  method RenderRow(cam: Camera, world: World, sqrt: real -> real, jitter: Jitter, scatter: Scatters, j: nat) returns (row: seq<Rgb>)
    requires ValidObjects(world.objects) && cam.samplesPerPixel >= 1
    ensures |row| == cam.imageWidth
    ensures forall i :: 0 <= i < |row| ==> row[i] == PixelColor(cam, world, sqrt, jitter, scatter, i, j)
  {
    row := [];
    for i := 0 to cam.imageWidth
      invariant |row| == i
      invariant forall ii :: 0 <= ii < i ==> row[ii] == PixelColor(cam, world, sqrt, jitter, scatter, ii, j)
    {
      var pixel := TracePixel(cam, world, sqrt, jitter, scatter, i, j);
      row := row + [RenderColor(pixel, cam.samplesPerPixel, sqrt)];
    }
  }

  /** `render`'s sample loop for pixel `(i, j)`: the sum of its traced samples. */
  method TracePixel(cam: Camera, world: World, sqrt: real -> real, jitter: Jitter, scatter: Scatters, i: nat, j: nat) returns (pixel: Vec3)
    requires ValidObjects(world.objects)
    ensures pixel == Sum(Samples(cam, world, sqrt, jitter, scatter, i, j, cam.samplesPerPixel))
  {
    ghost var samples := Samples(cam, world, sqrt, jitter, scatter, i, j, cam.samplesPerPixel);
    pixel := Zero;
    var interval := RayInterval;
    for s := 0 to cam.samplesPerPixel
      invariant pixel == Sum(samples[..s])
    {
      assert samples[..s + 1][..s] == samples[..s];
      var (su, sv) := jitter(i, j, s);
      var ray := GetRay(cam, i, j, su, sv);
      var color := RenderPixel(world, ray, cam.maxDepth, interval, sqrt, scatter(i, j, s));
      pixel := Add(pixel, color);
    }
    assert samples[..cam.samplesPerPixel] == samples;
  }
}
