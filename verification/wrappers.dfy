/** Failure-compatible wrappers shared by every module of the model.
    - Option<T> stands for Python's `None`-or-value returns.
    - Result<T, E> stands for a call that either returns or raises an exception
      that the surrounding code does not catch.
 */
module Wrappers {

  datatype Option<+T> = None | Some(value: T) {

    /** The value, or `default` when absent (Python's `d.get(k, default)`). */
    function GetOr(default: T): T {
      match this
      case Some(v) => v
      case None => default
    }
  }

  datatype Result<+T, +E> = Success(value: T) | Failure(error: E) {

    predicate IsFailure() {
      Failure?
    }

    function PropagateFailure<U>(): Result<U, E>
      requires Failure?
    {
      Failure(error)
    }

    function Extract(): T
      requires Success?
    {
      value
    }
  }

  /** A non-negative rational `num / den`, used wherever the source divides
      floats (scores, percentages, accuracies). */
  datatype Ratio = Ratio(num: int, den: int) {

    predicate Valid() {
      den > 0
    }

    /** num / den lies in [0, bound] */
    predicate Within(bound: int)
      requires Valid()
    {
      0 <= num <= bound * den
    }
  }
}
