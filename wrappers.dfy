/** Option and Result, the shapes the Rust code gets from `Option<T>` and
    `Result<T, E>` (and from the panics that the model turns into errors). */
module Wrappers {

  datatype Option<+T> = None | Some(value: T)

  datatype Result<+T, +E> = Success(value: T) | Failure(error: E)
}
