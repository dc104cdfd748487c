/** Failure-compatible wrappers shared by every module of the model. */
module Wrappers {

  /** Rust's `Option<T>`. */
  datatype Option<+T> = None | Some(value: T) {
    function GetOr(default: T): T {
      match this
      case Some(v) => v
      case None => default
    }
  }

  /** Rust's `Result<T, E>` with the error collapsed to a fault marker:
      the model only needs to know that a collaborator failed. */
  datatype Result<+T> = Ok(value: T) | Fault
}
