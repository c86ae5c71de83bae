/**
 * Scalar ranges (src/interval.rs). The upper end may be `+inf`, which the
 * renderer uses for "no far limit"; the lower end is always finite.
 */
module Intervals {

  datatype Bound = Finite(value: real) | PosInf

  /** `x < b` for an extended upper bound. */
  predicate Below(x: real, b: Bound) {
    b.PosInf? || x < b.value
  }

  /** `x <= b` for an extended upper bound. */
  predicate AtMost(x: real, b: Bound) {
    b.PosInf? || x <= b.value
  }

  /** `Interval::new(min, max)` is the constructor; no ordering of the ends is enforced. */
  datatype Interval = Interval(min: real, max: Bound)

  /** An interval whose lower end does not exceed its upper end. */
  predicate Ordered(iv: Interval) {
    AtMost(iv.min, iv.max)
  }

  /** `clamp`: the lower end below it, the upper end above it, `x` itself in between. */
  function Clamp(iv: Interval, x: real): (r: real)
    ensures r == x <==> iv.min <= x && AtMost(x, iv.max)
    ensures Ordered(iv) ==> iv.min <= r && AtMost(r, iv.max)
  {
    if x < iv.min then iv.min
    else if iv.max.Finite? && x > iv.max.value then iv.max.value
    else x
  }

  /** `contains`, the closed test: it holds exactly for the points that `clamp` leaves alone. */
  function Contains(iv: Interval, x: real): (r: bool)
    ensures r <==> Clamp(iv, x) == x
  {
    iv.min <= x && AtMost(x, iv.max)
  }

  /** `surrounds`, the open test: strictly inside, and therefore also contained. */
  function Surrounds(iv: Interval, x: real): (r: bool)
    ensures r ==> Contains(iv, x)
    ensures r ==> Clamp(iv, x) == x
  {
    iv.min < x && Below(x, iv.max)
  }

  /** Clamping into an ordered interval lands inside it, so a second clamp changes nothing. */
  lemma ClampIdempotent(iv: Interval, x: real)
    requires Ordered(iv)
    ensures Contains(iv, Clamp(iv, x))
    ensures Clamp(iv, Clamp(iv, x)) == Clamp(iv, x)
  {
  }
}
