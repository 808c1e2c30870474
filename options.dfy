/** Optional values: Rust's `Option` and JavaScript's `undefined`-able fields. */
module Options {
  datatype Option<+T> = None | Some(value: T) {
    /** Rust `unwrap_or`, JavaScript `x || default` for a possibly absent array. */
    function GetOr(default: T): T {
      match this
      case Some(v) => v
      case None => default
    }
  }

  /** Rust `Result`: a value, or the error that stopped the computation. */
  datatype Result<+T, +E> = Success(value: T) | Failure(error: E)
}
