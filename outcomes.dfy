/** The two failure-carrying wrappers the model uses in place of Python's
    `None` results and raised exceptions. */
module Outcomes {

  /** A value or nothing: Python's `Optional[T]`. */
  datatype Option<+T> = None | Some(value: T)

  /** A value or the reason the computation raised. */
  datatype Result<+T, +E> = Success(value: T) | Failure(error: E) {

    /** Drops the reason of a failure, as an `except ...: return None` does. */
    function ToOption(): (o: Option<T>)
      ensures o.Some? <==> Success?
      ensures o.Some? ==> o.value == value
    {
      match this
      case Success(v) => Some(v)
      case Failure(_) => None
    }
  }
}
