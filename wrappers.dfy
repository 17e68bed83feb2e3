/** Optional values, used where the JavaScript source has `undefined` or
    `null`. */
module Wrappers {

  datatype Option<+T> = None | Some(value: T) {
    /** The `??` operator of JavaScript: the value, or `default` when absent. */
    function GetOr(default: T): T {
      match this
      case Some(v) => v
      case None => default
    }
  }
}
