/** Failure-carrying results used where the source raises or returns None. */
module Wrappers {

  datatype Option<+T> = None | Some(value: T) {
    function GetOr(default: T): T {
      match this
      case Some(v) => v
      case None => default
    }
  }

  /** `Err` stands for a Python exception that escapes the modelled code. */
  datatype Result<+T> = Ok(value: T) | Err(msg: string)
}
