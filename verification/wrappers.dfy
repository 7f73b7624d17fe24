/** Nullable references and exception-raising calls of the mod, as values.
    `Option` stands for a Java reference that may be null; `Result` for a call
    that either returns or throws, the failure carrying the exception's message. */
module Wrappers {

  datatype Option<+T> = None | Some(value: T) {

    /** The value, or `default` where the Java code falls back on null. */
    function GetOr(default: T): T {
      match this
      case Some(v) => v
      case None => default
    }

    /** A null that the caller turns into a thrown exception. */
    function ToResult(error: string): Result<T> {
      match this
      case Some(v) => Success(v)
      case None => Failure(error)
    }
  }

  datatype Result<+R> = Success(value: R) | Failure(error: string) {

    predicate IsFailure() {
      Failure?
    }

    function PropagateFailure<U>(): Result<U>
      requires Failure?
    {
      Failure(error)
    }

    function Extract(): R
      requires Success?
    {
      value
    }
  }

  /** Concatenation regroups. Proofs about functions that unfold over a
      sequence call this on its own, away from those unfoldings, where the
      solver finds it cheaply. */
  lemma ConcatRegroup<T>(x: seq<T>, y: seq<T>, z: seq<T>)
    ensures x + (y + z) == x + y + z
  {
  }
}
