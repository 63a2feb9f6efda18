/** Optional values and results with an error, as the agent's Python code uses
    `None`, `dict.get(key, default)` and exceptions. */
module Basics {

  datatype Option<T> = None | Some(value: T) {
    /** `value` when present, `default` otherwise (Python's `d.get(key, default)`). */
    function GetOr(default: T): T {
      match this
      case Some(v) => v
      case None => default
    }
  }

  /** The outcome of an operation that either returns a value or raises an exception
      whose `str()` is the error. */
  datatype Result<T, E> = Ok(value: T) | Err(error: E)
}
