/** Optional values: `None` stands for JavaScript's `undefined`, `null`, a missing
    property, or a value of the wrong kind, depending on where it is used. */
module Wrappers {

  datatype Option<+T> = None | Some(value: T) {

    /** The value, or a default when there is none. */
    function GetOr(default: T): T {
      match this
      case Some(v) => v
      case None => default
    }
  }
}
