/** Failure-carrying wrappers shared by every module of the model. */
module Wrappers {
  /** A value that may be absent: a JSON field that is missing, a lookup that found nothing. */
  datatype Option<T> = None | Some(value: T)

  /** The outcome of an operation that can raise: either a value or the error it raised. */
  datatype Result<T, E> = Ok(value: T) | Err(error: E)
}
