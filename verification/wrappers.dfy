/** Optional values, standing in for the Java references that may be null. */
module Wrappers {

  /** `None` plays the part of a null reference or an absent value. */
  datatype Option<+T> = None | Some(value: T) {

    /** Returns the value held in `Some`, or `default` when `None`. */
    function GetOr(default: T): T {
      match this
      case Some(v) => v
      case None => default
    }
  }
}
