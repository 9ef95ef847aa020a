/** Option and Result, used for Python's `None` and for the exceptions the scraper lets escape. */
module Wrappers {

  /** `None` stands for Python's `None`: a value that is absent, never zero or the empty string. */
  datatype Option<+T> = None | Some(value: T)

  /** `Failure` carries the error that aborts the run; `:-` propagates it. */
  datatype Result<+R, +E> = Success(value: R) | Failure(error: E) {
    predicate IsFailure() {
      Failure?
    }

    function PropagateFailure<U>(): Result<U, E>
      requires Failure?
    {
      Failure(error)
    }

    function Extract(): R
      requires Success?
    {
      value
    }
  }
}

/** The fatal conditions of a scraping run. None of them is caught: each one ends the run. */
module Failures {

  datatype Failure =
    /** A table row with fewer than the nine cells 0..8 that are read; `cellCount` is how many it has. */
    | MalformedRow(cellCount: nat)
    /** Python's `float()` refused `text` (a `ValueError`). */
    | ValueError(text: string)
}
