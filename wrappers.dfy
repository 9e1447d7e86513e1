/** Rust's `Option`, for the duplicate a scan finds and the direction a tick keeps. */
module Wrappers {

  datatype Option<+T> = None | Some(value: T)

  /** `a` when it holds a value, `b` otherwise. */
  function OrElse<T>(a: Option<T>, b: Option<T>): Option<T>
  {
    if a.Some? then a else b
  }
}
