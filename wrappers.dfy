/** The optional value used for JavaScript's `null` alternatives (`T | null`). */
module Wrappers {

  datatype Option<+T> = None | Some(value: T) {

    /** The value inside Some, or `default` for None (JavaScript's `??`). */
    function GetOr(default: T): (r: T)
      ensures Some? ==> r == value
      ensures None? ==> r == default
    {
      match this
      case Some(v) => v
      case None => default
    }
  }
}
