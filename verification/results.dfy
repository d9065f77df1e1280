/** Outcome of a modelled Java routine: its value, or the runtime exception the JVM raises. */
module Results {

  /** The two exceptions the core can raise: a negative array length and an array index out of range. */
  datatype Error = NegativeArraySize | IndexOutOfBounds

  /** A failure-compatible result, usable with `:-`. */
  datatype Result<+T> = Success(value: T) | Failure(error: Error) {

    predicate IsFailure() {
      Failure?
    }

    function PropagateFailure<U>(): Result<U>
      requires Failure?
    {
      Failure(error)
    }

    function Extract(): T
      requires Success?
    {
      value
    }
  }
}
