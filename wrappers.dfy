/** Option and Result, the two failure-carrying shapes the Rust and TypeScript
    code uses (`Option<T>`, `Result<T, E>`, `null`, exceptions). */
module Wrappers {

  datatype Option<+T> = None | Some(value: T) {
    function GetOr(default: T): T {
      match this
      case Some(v) => v
      case None => default
    }
  }

  datatype Result<+T, +E> = Ok(value: T) | Err(error: E)
}
