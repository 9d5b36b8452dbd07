/** Option and Result, used for the values a library call may not produce and for
    the exceptions the engine lets escape. */
module Wrappers {

  datatype Option<+T> = None | Some(value: T)

  datatype Result<+R, +E> = Success(value: R) | Failure(error: E)
}
