/** `restrictToBounds`: clamping a value to optional lower and upper bounds. */
module Bounds {
  import opened Wrappers
  import opened Numbers

  /** True when `x` respects every bound that is present. */
  predicate WithinBounds(x: real, min: Option<real>, max: Option<real>) {
    && (min.Some? ==> min.value <= x)
    && (max.Some? ==> x <= max.value)
  }

  /** True when the bounds that are present are not inverted. */
  predicate Consistent(min: Option<real>, max: Option<real>) {
    min.Some? && max.Some? ==> min.value <= max.value
  }

  /** The clamp: the lower bound is tested first and wins outright, so with
      inverted bounds a value below `min` yields `min` and never `max`. */
  function RestrictToBounds(value: real, min: Option<real>, max: Option<real>): (r: real)
    // the result is always one of the three inputs
    ensures r == value || (min.Some? && r == min.value) || (max.Some? && r == max.value)
    // below a present lower bound: the lower bound, whatever `max` is
    ensures min.Some? && value < min.value ==> r == min.value
    // a value that already respects the bounds is returned unchanged
    ensures WithinBounds(value, min, max) ==> r == value
    // above a present upper bound and not below the lower one: the upper bound
    ensures max.Some? && max.value < value && !(min.Some? && value < min.value) ==> r == max.value
    // the value moves only onto a bound it violates
    ensures r != value ==>
      (min.Some? && value < min.value && r == min.value) || (max.Some? && max.value < value && r == max.value)
  {
    if min.Some? && value < min.value then
      min.value
    else if max.Some? && max.value < value then
      max.value
    else
      value
  }

  /** Above a present upper bound and not below the lower one: the upper bound. */
  lemma AboveMaxGivesMax(value: real, min: Option<real>, max: Option<real>)
    requires max.Some? && max.value < value
    requires !(min.Some? && value < min.value)
    ensures RestrictToBounds(value, min, max) == max.value
  {
  }

  /** With both bounds absent the clamp is the identity. */
  lemma UnboundedIsIdentity(value: real)
    ensures RestrictToBounds(value, None, None) == value
  {
  }

  /** With consistent bounds the result lies within them. */
  lemma ResultWithinBounds(value: real, min: Option<real>, max: Option<real>)
    requires Consistent(min, max)
    ensures WithinBounds(RestrictToBounds(value, min, max), min, max)
  {
  }

  /** With consistent bounds the result is the point within the bounds that
      is nearest to `value`: no admissible `y` is closer. */
  lemma ResultIsNearest(value: real, min: Option<real>, max: Option<real>, y: real)
    requires Consistent(min, max)
    requires WithinBounds(y, min, max)
    ensures Abs(RestrictToBounds(value, min, max) - value) <= Abs(y - value)
  {
  }

  /** With consistent bounds, clamping twice is clamping once. */
  lemma Idempotent(value: real, min: Option<real>, max: Option<real>)
    requires Consistent(min, max)
    ensures RestrictToBounds(RestrictToBounds(value, min, max), min, max)
         == RestrictToBounds(value, min, max)
  {
    ResultWithinBounds(value, min, max);
  }

  /** Inverted bounds (5, 10, 2): the lower bound wins, giving 10; clamping
      that 10 again gives 2, so the clamp is not idempotent there. */
  lemma InvertedBoundsNotIdempotent()
    ensures RestrictToBounds(5.0, Some(10.0), Some(2.0)) == 10.0
    ensures RestrictToBounds(10.0, Some(10.0), Some(2.0)) == 2.0
    ensures RestrictToBounds(RestrictToBounds(5.0, Some(10.0), Some(2.0)), Some(10.0), Some(2.0))
         != RestrictToBounds(5.0, Some(10.0), Some(2.0))
  {
  }
}
