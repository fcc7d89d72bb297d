/** `WrappingClamp::wramp` for `f64`: keeps a value inside `[0, max]`, but a
    value that falls off one end re-enters at the other end. */
module WrappingClamp {

  function Wramp(v: real, max: real): (r: real)
    ensures v < 0.0 ==> r == max
    ensures 0.0 <= v && max < v ==> r == 0.0
    ensures 0.0 <= v <= max ==> r == v
  {
    if v < 0.0 then max
    else if v > max then 0.0
    else v
  }

  /** With a non-negative `max`, the result lies in `[0, max]`. */
  lemma WrampWithin(v: real, max: real)
    requires 0.0 <= max
    ensures 0.0 <= Wramp(v, max) <= max
  {
  }

  /** With a non-negative `max`, wrapping a wrapped value changes nothing. */
  lemma WrampIdempotent(v: real, max: real)
    requires 0.0 <= max
    ensures Wramp(Wramp(v, max), max) == Wramp(v, max)
  {
  }

  /** With a non-negative `max`, the values left unchanged are exactly `[0, max]`. */
  lemma WrampFixedPoints(v: real, max: real)
    requires 0.0 <= max
    ensures Wramp(v, max) == v <==> 0.0 <= v <= max
  {
  }
}
