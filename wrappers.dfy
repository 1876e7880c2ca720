/** Optional values and fallible results, used wherever the source has
    `undefined`, `null` or a thrown `Error`. */
module Wrappers {

  /** A value that may be absent (`undefined` / `null` in the source). */
  datatype Option<+T> = None | Some(value: T) {

    /** The value, or `default` when absent. */
    function GetOr(default: T): T {
      match this
      case Some(v) => v
      case None => default
    }
  }

  /** The outcome of an operation that either returns a value or throws an
      error carrying a message. */
  datatype Result<+T> = Ok(value: T) | Err(message: string)

  /** JavaScript's `a || b` on a string that may be missing: `b` when `a`
      is absent or empty. */
  function OrElse(a: Option<string>, b: string): (r: string)
    ensures a.Some? && a.value != "" ==> r == a.value
    ensures a.None? || a.value == "" ==> r == b
  {
    if a.Some? && a.value != "" then a.value else b
  }
}
