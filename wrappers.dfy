/** Option and Result, the two wrappers the model uses for JavaScript's
    `undefined` and for operations that can fail. */
module Wrappers {

  datatype Option<+T> = None | Some(value: T)

  datatype Result<+T, +E> = Success(value: T) | Failure(error: E)
}
