/** The optional-value type: an absent header, an unset environment variable, a null
    reference or Python's None. */
module Wrappers {

  datatype Option<+T> = None | Some(value: T) {

    /** The value, or `default` when absent (the `?? ""` and `unwrap_or("")` idioms). */
    function GetOr(default: T): T {
      match this
      case Some(v) => v
      case None => default
    }
  }
}
