/** Failure-compatible wrappers for the scraper, and the errors the Python
    scripts can raise on the modelled paths. */
module Outcomes {

  datatype Option<+T> = None | Some(value: T)

  /** The target of a Python conversion call: `int(tok)` or `float(tok)`. */
  datatype Conversion = ToInt | ToFloat

  datatype Error =
    /** `IndexError` from indexing the token list at `position`. */
    | TokenMissing(position: nat)
    /** `ValueError` from converting the token at `position`. */
    | BadLiteral(position: nat, token: string, target: Conversion)
    /** `NameError`: the table variable was never bound because no marker line was seen. */
    | NoTable

  /** A value, or the exception that aborted the computation. Usable with `:-`. */
  datatype Result<+T> = Ok(value: T) | Err(error: Error) {

    predicate IsFailure() {
      Err?
    }

    function PropagateFailure<U>(): Result<U>
      requires Err?
    {
      Err(error)
    }

    function Extract(): T
      requires Ok?
    {
      value
    }
  }
}
