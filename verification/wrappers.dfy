/** The optional value used wherever the source returns `None` or relies on an
    infinite sentinel for "nothing seen yet". */
module Wrappers {

  datatype Option<+T> = None | Some(value: T) {

    /** Returns the value carried by Some, or `default` for None. */
    function GetOr(default: T): T {
      match this
      case Some(v) => v
      case None => default
    }
  }
}
