/** Option and Result, the shapes the source uses for "maybe a row" and
    for an operation that may fail with an error. */
module Wrappers {

  datatype Option<+T> = None | Some(value: T)

  datatype Result<+R, +E> = Success(value: R) | Failure(error: E)
}
