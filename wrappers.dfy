/** The JavaScript `null` of app.js, as an optional value. */
module Wrappers {

  datatype Option<+T> = None | Some(value: T) {

    /** `x || fallback` when `x` is null: the fallback. */
    function GetOr(fallback: T): T {
      match this
      case Some(v) => v
      case None => fallback
    }
  }
}
