/** Failure-carrying datatypes shared by the registration model. */
module Wrappers {

  /** A value that may be absent; `None` stands for PHP's `null`. */
  datatype Option<+T> = None | Some(value: T)

  /** Either a value or the error that stopped the computation (a thrown exception). */
  datatype Result<+T, +E> = Ok(value: T) | Err(error: E)
}
