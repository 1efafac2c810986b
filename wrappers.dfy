/** Java's Optional (and nullable references) and checked-exception returns, as values. */
module Wrappers {

  /** `Optional<T>`, or a reference that may be null. */
  datatype Option<+T> = None | Some(value: T)

  /** The outcome of an operation that may throw: its value, or the exception's message. */
  datatype Result<+T> = Ok(value: T) | Err(message: string)
}
