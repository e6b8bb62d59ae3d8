/** Optional values, used where the front end reads a field that may be absent
    (`user?.id`, `log?.completed`, `champions[0]` of an empty list). */
module Wrappers {

  datatype Option<+T> = None | Some(value: T) {

    /** The value, or `default` when there is none (JavaScript's `x ?? default`). */
    function GetOr(default: T): T {
      match this
      case Some(v) => v
      case None => default
    }
  }
}
