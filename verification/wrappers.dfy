/** Failure-carrying datatypes shared by every module of the model.
    `Option` stands for a JavaScript number that may be NaN (an invalid
    time value), `Result` for a call that either returns or throws. */
module Wrappers {

  datatype Option<+T> = None | Some(value: T)

  datatype Result<+R, +E> = Success(value: R) | Failure(error: E)
}
