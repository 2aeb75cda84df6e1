/** Small value wrappers shared by the whole model: Go's nil-able results and
    its `(value, error)` pairs become Option and Result. */
module Base {

  /** A value that may be absent; None stands for Go's nil. */
  datatype Option<+T> = None | Some(value: T)

  /** Either a value or an error, as in Go's `(value, err)` returns. */
  datatype Result<+T, +E> = Ok(value: T) | Err(error: E)

  /** The outcome of a call that waits on a one-shot channel: it either returned
      a value, or the observation trace ended while it was still waiting. */
  datatype Completion<+T> = Returned(value: T) | Blocked
}
