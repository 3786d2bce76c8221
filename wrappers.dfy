/** The optional-value datatype shared by the other modules. */
module Wrappers {

  /** A value that may be absent: a lookup or a parse that can fail. */
  datatype Option<+T> = None | Some(value: T) {

    /** The wrapped value, or `default` when there is none. */
    function GetOr(default: T): (r: T)
      ensures Some? ==> r == value
      ensures None? ==> r == default
    {
      match this
      case Some(v) => v
      case None => default
    }
  }
}
