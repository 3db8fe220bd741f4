/** A value that may be absent: JavaScript's `undefined`/`null` for optional props and state. */
module Wrappers {

  datatype Option<+T> = None | Some(value: T) {

    /** The value, or `default` when absent (what a destructuring default or `?? default` does). */
    function GetOr(default: T): T {
      match this
      case Some(v) => v
      case None => default
    }
  }
}
