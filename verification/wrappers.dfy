/** Failure-carrying values shared by the framing modules. */
module Wrappers {

  /** A value that may be absent; Go's `nil` slice or a `false` ok flag. */
  datatype Option<+T> = None | Some(value: T)

  /** A computed value or the error that prevented it; Go's `(value, err)` pair. */
  datatype Result<+T, +E> = Ok(value: T) | Err(error: E)
}
