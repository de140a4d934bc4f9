/** Failure-compatible wrappers for the calculator: an optional value (what
    float.TryParse reports) and a result that either carries a value or the
    error that the calculator raises as an exception. */
module Results {

  /** The outcome of an attempt that may produce nothing, such as TryParse. */
  datatype Option<+T> = None | Some(value: T)

  /** The two ways an evaluation aborts: an operator character outside the
      operator table reaches the apply step (an ArgumentException in the
      calculator), or a leaf substring is not a number (the FormatException
      of float.Parse). */
  datatype CalcError = InvalidOperator(op: char) | NotANumber(text: string)

  /** Either a value or the error that aborted the whole evaluation. */
  datatype Result<+T> = Ok(value: T) | Err(error: CalcError) {

    predicate IsFailure() {
      Err?
    }

    function PropagateFailure<U>(): Result<U>
      requires Err?
    {
      Err(error)
    }

    function Extract(): T
      requires Ok?
    {
      value
    }
  }
}
