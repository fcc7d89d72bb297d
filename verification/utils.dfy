/** The optional-value type used throughout the grid, and the `bool` to
    `Option` adapter of the crate's utilities. */
module Utils {

  datatype Option<T> = None | Some(value: T)

  /** `b.as_some(t)`: wraps `t` when `b` holds and drops it otherwise. The
      payload is passed through untransformed. */
  function AsSome<T>(b: bool, t: T): (r: Option<T>)
    ensures r.Some? <==> b
    ensures r.Some? ==> r.value == t
  {
    match b
    case true => Some(t)
    case false => None
  }

  /** Every option is the adapter applied to its own presence flag and its
      payload: `AsSome` loses nothing that an `Option` can carry. */
  lemma AsSomeRecoversOption<T>(o: Option<T>, t: T)
    ensures o.Some? ==> AsSome(true, o.value) == o
    ensures o.None? ==> AsSome(false, t) == o
  {
  }
}
