/** Failure-compatible result types shared by the compiler and the virtual machine. */
module Results {

  datatype Option<+T> = None | Some(value: T)

  /** A value or an error; usable with `:-`. */
  datatype Result<+T, +E> = Success(value: T) | Failure(error: E) {
    predicate IsFailure() {
      Failure?
    }

    function PropagateFailure<U>(): (r: Result<U, E>)
      requires Failure?
    {
      Failure(error)
    }

    function Extract(): (t: T)
      requires Success?
    {
      value
    }
  }

  /** The outcome of an operation that only changes state: it passes or fails with an error. */
  datatype Outcome<+E> = Pass | Fail(error: E)
}
