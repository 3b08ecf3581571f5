/** Failure-carrying values shared by both models: `Option` stands for
    Python's `None`-or-value returns, `Result` for a value or a raised error. */
module Wrappers {

  datatype Option<+T> = None | Some(value: T)

  datatype Result<+T, +E> = Success(value: T) | Failure(error: E)
}
