/** Optional values: the source's `undefined`/missing keys and `NaN` results. */
module Wrappers {

  datatype Option<+T> = None | Some(value: T) {

    /** The wrapped value, or `default` when absent (JavaScript's `x || default`
        for values whose only falsy form is absence). */
    function GetOr(default: T): T {
      match this
      case Some(v) => v
      case None => default
    }
  }
}
