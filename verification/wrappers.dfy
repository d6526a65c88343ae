/** Optional values, used where the Python code returns `None`, a `re.search`
    finds no match, or where `int()` raises `ValueError`. */
module Wrappers {

  datatype Option<+T> = None | Some(value: T) {

    /** The wrapped value, or `default` when there is none. */
    function GetOr(default: T): T {
      match this
      case Some(v) => v
      case None => default
    }
  }
}
