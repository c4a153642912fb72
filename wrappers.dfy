/** The optional value used wherever the source passes `None` or may fail to produce a value. */
module Wrappers {
  datatype Option<+T> = None | Some(value: T) {
    /** The held value, or `default` for None (Python's `d.get(key, default)`). */
    function GetOr(default: T): T {
      match this
      case Some(v) => v
      case None => default
    }
  }
}
