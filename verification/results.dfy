/** Optional values, and the outcome of a call that may raise one of the
    exceptions candidate generation can raise. */
module Results {

  datatype Option<+T> = None | Some(value: T)

  /** The two exceptions candidate generation can raise. */
  datatype Error =
    | KeyError(key: string)  // a candidate name that the reverse index does not hold
    | ZeroDivision           // a score divided by a total of zero

  /** Either the value a call returns or the exception it raises.
      Usable with `:-`, so the first exception ends the computation. */
  datatype Result<+T> = Ok(value: T) | Err(error: Error) {

    predicate IsFailure() {
      Err?
    }

    function PropagateFailure<U>(): Result<U>
      requires Err?
    {
      Err(error)
    }

    function Extract(): T
      requires Ok?
    {
      value
    }
  }
}
