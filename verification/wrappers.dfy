/** The wrappers used throughout the model: `Option` for Rust's `Option<T>`
    and `Result` for Rust's `Result<T, E>`. */
module Wrappers {

  datatype Option<+T> = None | Some(value: T) {

    function GetOr(default: T): T {
      match this
      case Some(v) => v
      case None => default
    }
  }

  datatype Result<+T, +E> = Success(value: T) | Failure(error: E)
}
