/** Failure kinds and the failure-compatible wrappers every decoder returns.
    Each Python exception the decoders can raise becomes one `Error` value. */
module Results {

  /** Why a decode failed.
      - ShortRead: `struct.unpack` or `uuid.UUID(bytes=...)` got a slice of the wrong size.
      - InvalidText: `bytes.decode("utf-8")` met bytes that are not well-formed UTF-8.
      - SignatureMismatch: `check_header_signature` found another tag.
      - OutOfRange: a Python list was indexed outside its index range. */
  datatype Error = ShortRead | InvalidText | SignatureMismatch | OutOfRange

  datatype Option<+T> = None | Some(value: T)

  datatype Result<+T> = Success(value: T) | Failure(error: Error) {
    predicate IsFailure() { Failure? }

    function PropagateFailure<U>(): Result<U>
      requires Failure?
    {
      Failure(error)
    }

    function Extract(): T
      requires Success?
    {
      value
    }
  }

  /** The result of a check that either passes or raises. */
  datatype Outcome = Pass | Fail(error: Error)
}
