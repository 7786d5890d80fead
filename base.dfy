/** Shared vocabulary: optional values, results with an error, and the opaque
    identifier and timestamp types the application passes around. */
module Base {

  /** An optional value, as Python's `Optional[T]` / `None`. */
  datatype Option<+T> = None | Some(value: T)

  /** The value an operation produces, or the error it raises. */
  datatype Result<+T, +E> = Ok(value: T) | Err(error: E)

  /** An operation that produces no value but may raise an error. */
  datatype Outcome<+E> = Pass | Fail(error: E)

  /** Identifiers are opaque strings (uuid4 text in the application). */
  type Id = string

  /** Instants are opaque, ordered values supplied by the caller's clock. */
  type Timestamp = int
}
