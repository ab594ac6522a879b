/** Small failure-compatible wrappers shared by the other modules. */
module Wrappers {

  /** A possibly-absent value: a C pointer that may be NULL. */
  datatype Option<+T> = None | Some(value: T)

  /** An outcome that is either a value or an error tag. */
  datatype Result<+T, +E> = Success(value: T) | Failure(error: E)
}
