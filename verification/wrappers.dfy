/** Small wrapper datatypes shared by every module of the model. */
module Wrappers {

  /** A value that may be missing: Python's `None` versus a present value. */
  datatype Option<+T> = None | Some(value: T) {

    /** The carried value, or `default` when there is none. */
    function GetOr(default: T): T {
      match this
      case Some(v) => v
      case None => default
    }
  }

  /** The end of a Python computation that mutates state: either it ran to
      completion (`Done`) or an exception escaped it (`Raised`). In both
      cases `value` is the state as it stood when control left the code, so
      mutations made before an exception are kept, as they are in Python. */
  datatype Outcome<+S> = Done(value: S) | Raised(value: S)

  /** A computation whose failure is reported to the caller with a message. */
  datatype Result<+R> = Ok(value: R) | Err(message: string)
}
