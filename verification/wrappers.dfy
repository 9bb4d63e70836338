/** Failure-carrying datatypes used to pass the results of the command's
    collaborators (the sanitizer and the tag store) into the model. */
module Wrappers {

  /** A value that may be missing; `Some(e)` is also how a Go `error` that is
      not nil is represented. */
  datatype Option<+T> = None | Some(value: T)

  /** A Go `(value, error)` pair: exactly one side is meaningful. */
  datatype Result<+R, +E> = Success(value: R) | Failure(error: E)
}
