/** Failure-carrying values shared by every module of the model. */
module Wrappers {

  /** Python's `None`-or-value, also used for operations that raise. */
  datatype Option<+T> = None | Some(value: T) {

    /** The carried value, or `default` when there is none. */
    function GetOr(default: T): T {
      match this
      case Some(v) => v
      case None => default
    }
  }
}
