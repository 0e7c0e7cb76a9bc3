/** The Some/None datatype that replaces the renderer's "+infinity means no hit" sentinel. */
module Wrappers {

  datatype Option<+T> = None | Some(value: T) {

    /** Returns the value held by Some, or the given default for None. */
    function GetOr(default: T): T {
      match this
      case Some(v) => v
      case None => default
    }
  }
}
