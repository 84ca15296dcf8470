/** Optional values, standing for Rust's `Option`. */
module Wrappers {

  datatype Option<T> = None | Some(value: T) {

    /** The wrapped value, or `default` when there is none (Rust's `unwrap_or`). */
    function UnwrapOr(default: T): T {
      match this
      case Some(v) => v
      case None => default
    }
  }
}
