/** `Clamp::clam`: bounds a value by `min` below and `max` above, testing the
    lower bound first. */
module Clamp {

  function Clam(v: int, min: int, max: int): (r: int)
    ensures v < min ==> r == min
    ensures min <= v && max < v ==> r == max
    ensures min <= v <= max ==> r == v
  {
    if v < min then min
    else if v > max then max
    else v
  }

  /** Reference definition: with ordered bounds, clamping is `max(min, min(v, max))`. */
  function MinMaxClamp(v: int, min: int, max: int): int {
    var upper := if v <= max then v else max;
    if upper >= min then upper else min
  }

  /** With ordered bounds the result lies in `[min, max]` and agrees with the
      min/max reference definition. */
  lemma ClamWithin(v: int, min: int, max: int)
    requires min <= max
    ensures min <= Clam(v, min, max) <= max
    ensures Clam(v, min, max) == MinMaxClamp(v, min, max)
  {
  }

  /** With ordered bounds, clamping a clamped value changes nothing. */
  lemma ClamIdempotent(v: int, min: int, max: int)
    requires min <= max
    ensures Clam(Clam(v, min, max), min, max) == Clam(v, min, max)
  {
  }

  /** With ordered bounds, clamping keeps the order of its inputs. */
  lemma ClamMonotone(v: int, w: int, min: int, max: int)
    requires min <= max && v <= w
    ensures Clam(v, min, max) <= Clam(w, min, max)
  {
  }

  /** With ordered bounds, the fixed points of clamping are exactly `[min, max]`. */
  lemma ClamFixedPoints(v: int, min: int, max: int)
    requires min <= max
    ensures Clam(v, min, max) == v <==> min <= v <= max
  {
  }
}
