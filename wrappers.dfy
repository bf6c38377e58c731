/** Optional values: a JavaScript field that may be `undefined`, or a lookup that may miss. */
module Wrappers {

  datatype Option<T> = None | Some(value: T) {

    /** The value, or `default` when absent (the source's `x ?? default` / `x || default`). */
    function GetOr(default: T): T {
      match this
      case Some(v) => v
      case None => default
    }
  }
}
