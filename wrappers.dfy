/** Option, the "value or nothing" type used for JavaScript's `undefined`/`null` and for
    lookups that may find nothing. */
module Wrappers {
  datatype Option<+T> = None | Some(value: T) {
    /** The value, or `default` when there is none (JavaScript's `??` on `undefined`). */
    function GetOr(default: T): T
    {
      match this
      case Some(v) => v
      case None => default
    }
  }
}
