/** The two result shapes used throughout: a missing document or value, and Go's `(value, error)`. */
module Wrappers {
  datatype Option<+T> = None | Some(value: T)

  datatype Result<+T, +E> = Success(value: T) | Failure(error: E)
}
