/** Small failure-compatible wrapper shared by every module of the model. */
module Wrappers {

  /** `None` stands for PHP's `null` / "not set"; `Some(v)` for a set value. */
  datatype Option<+T> = None | Some(value: T) {

    /** Returns the wrapped value, or `default` when there is none. */
    function GetOr(default: T): T {
      match this
      case Some(v) => v
      case None => default
    }
  }
}
