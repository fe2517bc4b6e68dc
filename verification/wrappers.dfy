/** Wrappers used for the optional values (C# nullable references) and the
    error returns (thrown exceptions) of the model. */
module Wrappers {

  /** A value that may be absent; `None` stands for a C# `null`. */
  datatype Option<+T> = None | Some(value: T)

  /** The outcome of an operation that may be aborted by an exception. */
  datatype Result<+R, +E> = Success(value: R) | Failure(error: E)
}
