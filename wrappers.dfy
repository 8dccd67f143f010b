/** Option and Result, for the missing cells of a log row and for the error path of the cleaning stage. */
module Wrappers {

  datatype Option<+T> = None | Some(value: T)

  datatype Result<+T, +E> = Success(value: T) | Failure(error: E)
}
