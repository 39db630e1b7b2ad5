/** Failure-carrying datatypes shared by the whole model: `Option` for the
    source's `Option<T>` and `Result` for its `anyhow::Result<T>` / `io::Result<T>`. */
module Wrappers {

  datatype Option<+T> = None | Some(value: T) {

    /** The encapsulated value, or `default` when there is none (`unwrap_or`). */
    function GetOr(default: T): T {
      match this
      case Some(v) => v
      case None => default
    }
  }

  datatype Result<+R, +E> = Success(value: R) | Failure(error: E)
}
