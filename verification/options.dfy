/** Optional values and results with an error tag, as used throughout the model
    in place of Python's None and of exceptions. */
module Options {

  /** A value that may be absent (Python's None). */
  datatype Option<T> = None | Some(value: T) {

    /** The value if present, otherwise `default`. */
    function GetOr(default: T): T {
      match this
      case Some(v) => v
      case None => default
    }
  }

  /** Either a value or an error tag. */
  datatype Result<T, E> = Success(value: T) | Failure(error: E)
}
