/** Small datatypes for null references, results and thrown exceptions. */
module Wrappers {

  /** A C# reference that may be null. */
  datatype Nullable<+T> = Null | NonNull(value: T)

  /** A value, or the exception that a strict-mode operation throws instead. */
  datatype Result<+T, +E> = Success(value: T) | Failure(error: E)

  /** A void operation that either returns normally or throws. */
  datatype Outcome<+E> = Pass | Fail(error: E)
}
