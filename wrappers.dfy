/** The conventional Some/None datatype, standing for JavaScript's `null`
    (or any falsy value) where the source returns or stores one. */
module Wrappers {

  datatype Option<+T> = None | Some(value: T) {

    /** The value, or `default` for None: JavaScript's `x || default`. */
    function GetOr(default: T): T {
      match this
      case Some(v) => v
      case None => default
    }
  }
}
