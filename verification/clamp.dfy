/**
 * `clamp` and `clamp01` from the math package, over the reals. The source is
 * `Math.min(Math.max(value, min), max)`; only comparisons are involved, so the
 * properties below hold of the IEEE code for every non-NaN input as well.
 */
module Clamp {

  /** `Math.max` on two non-NaN numbers. */
  function Max(a: real, b: real): (r: real)
    ensures r >= a && r >= b
    ensures r == a || r == b
  {
    if a >= b then a else b
  }

  /** `Math.min` on two non-NaN numbers. */
  function Min(a: real, b: real): (r: real)
    ensures r <= a && r <= b
    ensures r == a || r == b
  {
    if a <= b then a else b
  }

  /** Clamps `value` to `min` from below, then to `max` from above. */
  function Clamp(value: real, min: real, max: real): (r: real)
    ensures min <= max ==> min <= r <= max
    ensures min <= value <= max ==> r == value
    ensures value < min && min <= max ==> r == min
    ensures value > max ==> r == max
    ensures max < min ==> r == max
  {
    Min(Max(value, min), max)
  }

  /** Clamps `value` to the unit interval. */
  function Clamp01(value: real): (r: real)
    ensures 0.0 <= r <= 1.0
    ensures 0.0 <= value <= 1.0 ==> r == value
    ensures value < 0.0 ==> r == 0.0
    ensures value > 1.0 ==> r == 1.0
  {
    Clamp(value, 0.0, 1.0)
  }

  /** Clamping an already clamped value changes nothing. */
  lemma ClampIdempotent(value: real, min: real, max: real)
    ensures Clamp(Clamp(value, min, max), min, max) == Clamp(value, min, max)
  {
  }

  /** Clamping is monotone in the value. */
  lemma ClampMonotone(v: real, w: real, min: real, max: real)
    requires v <= w
    ensures Clamp(v, min, max) <= Clamp(w, min, max)
  {
  }

  /** The expectations of the clamp tests. */
  lemma ClampExamples()
    ensures Clamp(0.0, 0.0, 1.0) == 0.0 && Clamp(1.0, 0.0, 1.0) == 1.0
    ensures Clamp(0.5, 0.0, 1.0) == 0.5
    ensures Clamp(-1.0, 0.0, 100.0) == 0.0 && Clamp(101.0, 0.0, 100.0) == 100.0
    ensures Clamp01(0.0) == 0.0 && Clamp01(1.0) == 1.0 && Clamp01(0.5) == 0.5
    ensures Clamp01(-1.0) == 0.0 && Clamp01(101.0) == 1.0
  {
  }
}
