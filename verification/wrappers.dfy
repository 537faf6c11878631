/** Option and Result, used wherever the Python code returns None or raises. */
module Wrappers {

  datatype Option<+T> = None | Some(value: T) {
    function GetOr(default: T): T {
      match this
      case Some(v) => v
      case None => default
    }
  }

  /** `Err` stands for an exception the Python code raises; `E` names its class. */
  datatype Result<+T, +E> = Ok(value: T) | Err(error: E)
}
