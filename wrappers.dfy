/** Optional values, standing for Python's `None` and for the
    "missing key → default" lookups (`entry.get("title", "")`). */
module Wrappers {

  datatype Option<+T> = None | Some(value: T) {

    /** The wrapped value, or `default` when there is none. */
    function GetOr(default: T): T {
      match this
      case Some(v) => v
      case None => default
    }
  }
}
