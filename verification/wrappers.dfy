/** Optional values and success-or-error results, standing in for the source's
    `T | null` return values and for thrown exceptions. */
module Wrappers {

  /** A value that may be absent (`null`, `undefined` or a missing body field). */
  datatype Option<+T> = None | Some(value: T)

  /** The outcome of an operation that either returns normally or throws. */
  datatype Result<+T, +E> = Ok(value: T) | Err(error: E)
}
