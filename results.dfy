/** Failures of the math engine. Every operation that can throw a math
    error returns a Result instead; `:-` propagates an error to the caller
    unchanged, as an uncaught exception does. */
module Results {

  datatype Result<+T> = Ok(value: T) | Err(msg: string) {

    predicate IsFailure() {
      Err?
    }

    function PropagateFailure<U>(): Result<U>
      requires Err?
    {
      Err(msg)
    }

    function Extract(): T
      requires Ok?
    {
      value
    }
  }
}
