/** The Option and Result datatypes shared by the rest of the model. */
module Wrappers {

  /** A value that may be absent: a database NULL, or a lookup that found nothing. */
  datatype Option<+T> = None | Some(value: T)

  /** The outcome of an operation that can raise an error instead of returning. */
  datatype Result<+R, +E> = Success(value: R) | Failure(error: E)
}
