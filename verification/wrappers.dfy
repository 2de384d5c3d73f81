/** A value that may be missing (a C# reference that may be null). */
module Wrappers {

  datatype Option<+T> = None | Some(value: T)

  /** The outcome of a host call that either returns a value or throws. */
  datatype Result<+T, +E> = Ok(value: T) | Err(error: E)
}
