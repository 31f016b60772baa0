/** Error values and the failure-compatible wrappers the model returns instead
    of raising exceptions. */
module Results {

  /** The error taxonomy of the accessor layer that this model can reach:
      a malformed reference or coordinate list, a file name that is not a
      spreadsheet, and a write attempted on a read-only format. */
  datatype Error = InvalidAddress | UnsupportedFormat | UnsupportedOperation

  datatype Result<+T> = Ok(value: T) | Err(error: Error) {
    predicate IsFailure() {
      Err?
    }

    function PropagateFailure<U>(): Result<U>
      requires Err?
    {
      Err(error)
    }

    function Extract(): T
      requires Ok?
    {
      value
    }
  }

  /** Absent/present value; `None` is the "(None, None)" not-found pair. */
  datatype Option<+T> = None | Some(value: T)
}
