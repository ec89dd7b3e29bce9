/** Failure-carrying result types shared by the resolver, the date-phrase
    parser and the journey planner. */
module Wrappers {

  /** Python's `Optional[...]`: a value or `None`. */
  datatype Option<+T> = None | Some(value: T)

  /** A value, or the error that Python would have raised. */
  datatype Result<+R, +E> = Success(value: R) | Failure(error: E)
}
