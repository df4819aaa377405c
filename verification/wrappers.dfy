/** Failure-compatible option type shared by every module of the model. */
module Wrappers {

  /** `None` stands for JavaScript's `undefined`/`null` where the source
      only distinguishes "present" from "absent". */
  datatype Option<+T> = None | Some(value: T) {

    /** The wrapped value, or `default` when absent (JavaScript's `x || d`
        on a value that is never falsy when present). */
    function GetOr(default: T): T {
      match this
      case Some(v) => v
      case None => default
    }
  }
}
