/** Optional values (a pandas cell that may be NaN) and success/error results. */
module Options {

  datatype Option<+T> = None | Some(value: T) {
    /** The wrapped value, or `default` for a missing one (the pandas fill of missing values). */
    function GetOr(default: T): T {
      match this
      case Some(v) => v
      case None => default
    }
  }

  datatype Result<+T, +E> = Ok(value: T) | Err(error: E)
}
