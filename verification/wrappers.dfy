/** Failure-carrying datatypes shared by every module of the model. */
module Wrappers {

  /** Python's `None` or a present value. */
  datatype Option<+T> = None | Some(value: T) {

    /** The present value, or `default` when absent. */
    function GetOr(default: T): T {
      match this
      case Some(v) => v
      case None => default
    }
  }

  /** The outcome of a Python call that may raise: its value, or the text `str(e)` of the exception. */
  datatype Attempt<+T> = Done(value: T) | Raised(msg: string)
}
