/** The Option type used wherever the Python code returns None or raises. */
module Wrappers {

  /** `None` stands for Python's `None`, or for an exception raised by a
      collaborator the model cannot see. */
  datatype Option<+T> = None | Some(value: T) {

    /** The value in `Some`, or `default` when `None`. */
    function GetOr(default: T): T {
      match this
      case Some(v) => v
      case None => default
    }
  }
}
