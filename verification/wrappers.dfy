/** Optional values and results, used for nullable columns, absent request
    fields and statement outcomes. */
module Wrappers {

  /** A nullable value: `None` stands for SQL NULL and for a JSON field that
      is absent or `null`. */
  datatype Option<+T> = None | Some(value: T) {

    /** The value, or `default` when absent. */
    function GetOr(default: T): T {
      match this
      case Some(v) => v
      case None => default
    }
  }

  /** The outcome of something that can fail with an error of type `E`. */
  datatype Result<+R, +E> = Success(value: R) | Failure(error: E)
}
