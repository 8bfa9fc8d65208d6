/** Shared value shapes: C# null as an Option, thrown exceptions as a Result. */
module Wrappers {

  /** A reference that may be null: `None` is null, `Some(v)` a non-null value. */
  datatype Option<+T> = None | Some(value: T)

  /** The outcome of an operation that may throw. */
  datatype Result<+T, +E> = Success(value: T) | Failure(error: E)

  /** The exceptions the modelled code throws. */
  datatype Exception =
    | ArgumentNull(paramName: string)     // System.ArgumentNullException
    | InvalidOperation(message: string)   // System.InvalidOperationException
}
