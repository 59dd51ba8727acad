/** Failure-compatible result types shared by the analyzer model. */
module Wrappers {

  /** A value that may be absent: the `None` a measurement record holds for a count
      that cannot be measured. */
  datatype Option<+T> = None | Some(value: T)

  /** The outcome of an operation that may raise: `Failure` carries what the source
      would report in its exception. */
  datatype Result<+R, +E> = Success(value: R) | Failure(error: E)
}
