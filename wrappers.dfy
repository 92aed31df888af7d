/** The usual optional-value datatype, used wherever the source returns None
    or raises on a missing value. */
module Wrappers {

  datatype Option<+T> = None | Some(value: T) {

    /** The value, or a default when there is none. */
    function GetOr(default: T): T {
      match this
      case Some(v) => v
      case None => default
    }
  }
}
