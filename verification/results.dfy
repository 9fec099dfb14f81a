/** Failure-carrying values used across the model: an optional value and a
    success-or-error result. */
module Results {

  /** A value that may be missing (a JavaScript `undefined` or `null` field). */
  datatype Option<+T> = None | Some(value: T)

  /** Either a computed value or the error the page would report. */
  datatype Result<+R, +E> = Success(value: R) | Failure(error: E)
}
