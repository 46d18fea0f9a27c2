/** Failure-carrying values shared by every module: `Option` stands for a
    nullable reference, `Result` for an operation that either returns a value
    or throws one of a known set of exceptions. */
module Wrappers {

  datatype Option<+T> = None | Some(value: T) {
    function GetOr(default: T): T {
      match this
      case Some(v) => v
      case None => default
    }
  }

  datatype Result<+T, +E> = Ok(value: T) | Err(error: E)
}
