/** The Option and Result datatypes shared by the model. */
module Wrappers {

  /** A value that may be absent, as in the result of `Array.prototype.find`
      or of a `findOne` query that matched nothing. */
  datatype Option<+T> = None | Some(value: T)

  /** Either a value or an error. */
  datatype Result<+R, +E> = Success(value: R) | Failure(error: E)
}
