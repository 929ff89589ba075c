/** Nullable values and the exceptions the core throws. */
module Wrappers {

  /** A Java reference that may be null: `None` is null. */
  datatype Option<+T> = None | Some(value: T)

  /** The unchecked exceptions the core raises itself. */
  datatype Error =
    | IllegalState(message: string)
    | IllegalArgument(message: string)

  datatype Result<+T> = Success(value: T) | Failure(error: Error)
}
