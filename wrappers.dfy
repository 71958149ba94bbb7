/** Failure-compatible wrappers used across the model: an optional value and a
    result that carries either a value or the name of the exception the
    Kotlin code would throw. */
module Wrappers {

  datatype Option<+T> = None | Some(value: T) {
    predicate IsFailure() { None? }

    function PropagateFailure<U>(): Option<U>
      requires None?
    {
      None
    }

    function Extract(): T
      requires Some?
    {
      value
    }
  }

  datatype Result<+R> = Success(value: R) | Failure(error: string) {
    predicate IsFailure() { Failure? }

    function PropagateFailure<U>(): Result<U>
      requires Failure?
    {
      Failure(error)
    }

    function Extract(): R
      requires Success?
    {
      value
    }
  }

  /** Mirrors Kotlin's `check`/`require`: fails with `error` unless `condition` holds. */
  datatype Outcome = Pass | Fail(error: string) {
    predicate IsFailure() { Fail? }

    function PropagateFailure<U>(): Result<U>
      requires Fail?
    {
      Failure(error)
    }
  }

  function Need(condition: bool, error: string): Outcome {
    if condition then Pass else Fail(error)
  }
}
