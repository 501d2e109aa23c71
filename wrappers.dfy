/** Optional values and error results, the model's stand-ins for Java's
    nullable parameters and thrown exceptions. */
module Wrappers {

  /** A nullable argument: `None` is Java's `null`. */
  datatype Option<+T> = None | Some(value: T)

  /** The outcome of an operation that may throw. */
  datatype Result<+R, +E> = Success(value: R) | Failure(error: E)
}
