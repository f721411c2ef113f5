/** Failure-carrying results shared by the models: `Option` stands for a nullable
    pointer or Python's `None`, `Result` for a call that may raise. */
module Wrappers {

  datatype Option<+T> = None | Some(value: T)

  datatype Result<+R, +E> = Success(value: R) | Failure(error: E)
}
