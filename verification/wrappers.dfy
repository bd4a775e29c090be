/** Optional values: the model's stand-in for a C pointer that may be NULL. */
module Wrappers {

  /** `None` plays the part of a NULL pointer, `Some(v)` of a pointer to `v`. */
  datatype Option<+T> = None | Some(value: T) {

    /** The held value, or `default` when there is none. */
    function GetOr(default: T): (r: T)
      ensures Some? ==> r == value
      ensures None? ==> r == default
    {
      match this
      case Some(v) => v
      case None => default
    }
  }
}
