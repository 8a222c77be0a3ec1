/** An optional value, standing for a Python value that may be `None`. */
module Wrappers {

  datatype Option<+T> = None | Some(value: T) {

    /** Python's `value if value is not None else default`. */
    function GetOr(default: T): (r: T)
      ensures Some? ==> r == value
      ensures None? ==> r == default
    {
      match this
      case Some(v) => v
      case None => default
    }
  }
}
