/** The optional-value type shared by every module of the model. */
module Wrappers {

  /** An optional value; `None` stands for the source's empty `optional`, null reference or not-found. */
  datatype Option<+T> = None | Some(value: T) {

    /** Returns the value carried by `Some`, or the given default for `None`. */
    function GetOr(default: T): T {
      match this
      case Some(v) => v
      case None => default
    }
  }
}
