/** Option and Result values used for absent JSON keys and for the exceptions the scripts raise. */
module Results {

  datatype Option<+T> = None | Some(value: T) {
    /** The contained value, or `default` when absent (Python's `d.get(key, default)`). */
    function GetOr(default: T): T {
      match this
      case Some(v) => v
      case None => default
    }
  }

  datatype Result<+R, +E> = Success(value: R) | Failure(error: E)
}
