/** Failure-compatible wrappers shared by every module of the model.
    `Option` stands for Rust's `Option`, `Result` for `Result`/`anyhow::Result`;
    a panic of the source (a failed `assert!`, an out-of-bounds index, an
    arithmetic overflow in a debug build) is modelled as a `Failure`. */
module Wrappers {

  datatype Option<+T> = None | Some(value: T) {
    predicate IsFailure() { None? }

    function PropagateFailure<U>(): Option<U>
      requires None?
    {
      None
    }

    function Extract(): T
      requires Some?
    {
      value
    }

    /** Rust's `unwrap_or`. */
    function GetOr(default: T): T {
      match this
      case Some(v) => v
      case None => default
    }

    /** Rust's `ok_or`. */
    function ToResult<E>(error: E): Result<T, E> {
      match this
      case Some(v) => Success(v)
      case None => Failure(error)
    }
  }

  datatype Result<+T, +E> = Success(value: T) | Failure(error: E) {
    predicate IsFailure() { Failure? }

    function PropagateFailure<U>(): Result<U, E>
      requires Failure?
    {
      Failure(error)
    }

    function Extract(): T
      requires Success?
    {
      value
    }

    /** Rust's `map_err`. */
    function MapFailure<E2>(f: E -> E2): (r: Result<T, E2>)
      ensures r.Success? <==> Success?
      ensures r.Success? ==> r.value == value
      ensures r.Failure? ==> r.error == f(error)
    {
      match this
      case Success(v) => Success(v)
      case Failure(e) => Failure(f(e))
    }
  }
}
