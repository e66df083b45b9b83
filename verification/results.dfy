/** Results that may carry an error, and the one domain error of the solver. */
module Results {

  /** An argument that may be left out; `None` stands for Python's `None`. */
  datatype Option<+T> = None | Some(value: T) {
    /** The given value, or `fallback` when none was given. */
    function GetOr(fallback: T): T {
      if Some? then value else fallback
    }
  }

  /** The outcome of an operation that may raise. The three members below make
      `:-` stop at the first `Failure` and hand its error on. */
  datatype Result<+R, +E> = Success(value: R) | Failure(error: E) {
    predicate IsFailure() {
      Failure?
    }

    function PropagateFailure<U>(): Result<U, E>
      requires Failure?
    {
      Failure(error)
    }

    function Extract(): R
      requires Success?
    {
      value
    }
  }

  /** The exceptions the modelled code raises. */
  datatype Error = ValueError(message: string)

  /** Raised by the start-state construction when the node set is empty. */
  const NoNodesMessage: string := "There must be at least one node."
}
