/**
  Optional values and results: a list lookup that may miss, a seed that may be
  absent, an operation that may fail with one of the codec's errors.
 */
module Options {

  datatype Option<+T> = None | Some(value: T)

  /** The value held by `o`, or `default` when there is none. */
  function ValueOr<T>(o: Option<T>, default: T): (v: T)
    ensures o.Some? ==> v == o.value
    ensures o.None? ==> v == default
  {
    if o.Some? then o.value else default
  }

  datatype Result<+T, +E> = Ok(value: T) | Err(error: E)
}
