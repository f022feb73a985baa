/** Failure-carrying wrappers shared by every solver model.

    Rust's `Option` becomes `Option`; a Rust `Result`, an `unwrap()` on a
    value that may be missing, or a `panic!` reached because of the input
    data becomes `Result` with a message describing what went wrong. */
module Wrappers {

  datatype Option<+T> = None | Some(value: T) {
    predicate IsFailure() { None? }

    function PropagateFailure<U>(): Option<U>
      requires None?
    {
      None
    }

    function Extract(): T
      requires Some?
    {
      value
    }

    function UnwrapOr(default: T): T {
      if Some? then value else default
    }
  }

  datatype Result<+T> = Success(value: T) | Failure(error: string) {
    predicate IsFailure() { Failure? }

    function PropagateFailure<U>(): Result<U>
      requires Failure?
    {
      Failure(error)
    }

    function Extract(): T
      requires Success?
    {
      value
    }
  }

  /** Lifts an optional value into a `Result`, failing with `message` when it is missing. */
  function Need<T>(o: Option<T>, message: string): (r: Result<T>)
    ensures r.Success? <==> o.Some?
    ensures r.Success? ==> r.value == o.value
  {
    match o
    case Some(v) => Success(v)
    case None => Failure(message)
  }
}
