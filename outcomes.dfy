/** Optional values and success/failure results, standing for Java's nullable
    references and thrown exceptions. */
module Outcomes {

  datatype Option<+T> = None | Some(value: T)

  /** The value of a call that either returns `value` or throws `error`. */
  datatype Result<+T, +E> = Success(value: T) | Failure(error: E)

  /** The value of a `void` call that either completes or throws `error`. */
  datatype Outcome<+E> = Pass | Fail(error: E)
}
