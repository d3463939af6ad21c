/** Failure-compatible wrappers shared by the model: an optional value (standing
    for a Java reference that may be null, or an `Optional`) and a result that is
    either a value or the error a Java method would have thrown. */
module Results {

  /** A value that may be absent. */
  datatype Option<+T> = None | Some(value: T)

  /** Either a successfully computed value or the error that was raised. */
  datatype Result<+T, +E> = Ok(value: T) | Err(error: E) {

    predicate IsFailure() {
      Err?
    }

    function PropagateFailure<U>(): Result<U, E>
      requires Err?
    {
      Err(error)
    }

    function Extract(): T
      requires Ok?
    {
      value
    }
  }
}
