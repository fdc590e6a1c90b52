/** Failure-carrying values: `Option` for Python's `Optional`/`None`, `Result` for a
    value or the exception a call raises. */
module Wrappers {

  datatype Option<+T> = None | Some(value: T) {

    /** The value, or `default` when there is none (Python's `x or default` on optionals). */
    function GetOr(default: T): T {
      match this
      case Some(v) => v
      case None => default
    }
  }

  /** The values that are present, in order (a comprehension's `if x is not None` filter). */
  function Somes<T(!new)>(xs: seq<Option<T>>): (r: seq<T>)
    ensures |r| <= |xs|
    ensures forall x :: x in r <==> Some(x) in xs
  {
    if |xs| == 0 then [] else (if xs[0].Some? then [xs[0].value] else []) + Somes(xs[1..])
  }

  datatype Result<+R, +E> = Success(value: R) | Failure(error: E) {

    predicate IsFailure() {
      Failure?
    }

    function PropagateFailure<U>(): Result<U, E>
      requires Failure?
    {
      Failure(error)
    }

    function Extract(): R
      requires Success?
    {
      value
    }

    /** The success value, dropping the error. */
    function ToOption(): Option<R> {
      match this
      case Success(v) => Some(v)
      case Failure(_) => None
    }
  }
}
