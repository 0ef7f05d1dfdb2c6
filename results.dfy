/** Failure-carrying return values used in place of the C++ exceptions. */
module Results {

  datatype Option<T> = None | Some(value: T)

  datatype Result<T, E> = Success(value: T) | Failure(error: E)

  /** The result of an operation that only changes state or fails. */
  datatype Outcome<E> = Pass | Fail(error: E)
}
