/** Optional values and failure-carrying results, standing for Java's
    `null`/`Optional` and for the exceptions the modelled code throws. */
module Wrappers {

  /** An optional value: `None` stands for Java `null` or `Optional.empty()`. */
  datatype Option<+T> = None | Some(value: T)

  /** The outcome of an operation that returns a value or throws. */
  datatype Result<+R, +E> = Success(value: R) | Failure(error: E)

  /** The outcome of an operation that returns nothing or throws. */
  datatype Outcome<+E> = Pass | Fail(error: E)
}
