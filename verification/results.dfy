/** Optional values and results, used for Python's `None` and for the
    exceptions that abort loading a stylesheet. */
module Results {

  datatype Option<+T> = None | Some(value: T) {

    /** Python's `x or default` for a value that is either `None` or present. */
    function GetOr(default: T): T {
      match this
      case Some(v) => v
      case None => default
    }
  }

  datatype Result<+T, +E> = Success(value: T) | Failure(error: E) {

    /** Forgets the error: `Some` of the value on success, `None` on failure. */
    function ToOption(): Option<T> {
      match this
      case Success(v) => Some(v)
      case Failure(_) => None
    }
  }
}
