/** Small failure-carrying datatypes used across the model.
    `Option` stands for a C# reference that may be null; `Result` stands for a
    call that either returns a value or throws one of the exceptions listed in
    its error type. */
module Wrappers {

  /** A value or its absence (a null reference in the source). */
  datatype Option<+T> = None | Some(value: T)

  /** The outcome of a call that may throw: the value it returns or the error it raises. */
  datatype Result<+T, +E> = Success(value: T) | Failure(error: E)
}
