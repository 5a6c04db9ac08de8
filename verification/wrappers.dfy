/** Failure-carrying result types shared by the catalog and the cart. */
module Wrappers {

  /** A value that may be absent: a price that did not parse, say. */
  datatype Option<+T> = None | Some(value: T)

  /** The outcome of an operation that either succeeds with a value or fails with an error. */
  datatype Result<+R, +E> = Success(value: R) | Failure(error: E)
}
