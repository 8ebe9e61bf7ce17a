/** Option and Result datatypes used for absent values and error returns. */
module Wrappers {

  /** An optional value: the model's stand-in for a nullable column. */
  datatype Option<+T> = None | Some(value: T)

  /** Either a value or an error, in place of a raised exception. */
  datatype Result<+R, +E> = Success(value: R) | Failure(error: E)
}
