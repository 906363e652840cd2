/** Failure-compatible wrappers shared by every module of the model. */
module Results {

  /** A value that may be absent: a hole in a JavaScript array, a failed lookup. */
  datatype Option<+T> = None | Some(value: T)

  /** The outcome of an operation that the source can abort by throwing. */
  datatype Result<+T, +E> = Ok(value: T) | Err(error: E) {

    predicate IsFailure() {
      Err?
    }

    function PropagateFailure<U>(): Result<U, E>
      requires Err?
    {
      Err(error)
    }

    function Extract(): T
      requires Ok?
    {
      value
    }
  }

  /** The exceptions the source throws; `Thrown` carries the message of a plain `Error`. */
  datatype JsError = RangeError | TypeError | Thrown(message: string)
}
