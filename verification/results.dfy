/**
 * Failure-compatible result types shared by every module.
 *
 * fabrix stops a run in two ways: through fabric's `abort(msg)`,
 * which prints a message and exits, and through an uncaught Python exception
 * (an `IndexError` on an empty pattern, a `TypeError` on a malformed inventory,
 * a failed `assert`). Both end the run; they are kept apart so that contracts
 * can say which of the two a given input reaches.
 */
module Results {

  datatype Option<+T> = None | Some(value: T)

  /** How a run ends when it does not end normally. */
  datatype Error =
    | Abort(msg: string)   // fabric.api.abort(msg)
    | Crash(kind: string)  // an uncaught Python exception of the named class

  datatype Result<+T> = Ok(value: T) | Err(error: Error) {

    predicate IsFailure() {
      Err?
    }

    function PropagateFailure<U>(): Result<U>
      requires Err?
    {
      Err(error)
    }

    function Extract(): T
      requires Ok?
    {
      value
    }
  }

  /** `abort(msg)` as a value. */
  function Fail<T>(msg: string): Result<T>
  {
    Err(Abort(msg))
  }

  /** Python raising `kind` as a value. */
  function Raise<T>(kind: string): Result<T>
  {
    Err(Crash(kind))
  }
}
