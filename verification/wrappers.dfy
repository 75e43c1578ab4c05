/** Optional values and results with an error, for inputs that may be missing
    and operations that may throw. */
module Wrappers {

  datatype Option<+T> = None | Some(value: T)

  datatype Result<+R, +E> = Ok(value: R) | Err(error: E)

  /** Writing `value` into a page element that may be missing: a present
      element now holds `value`, and a missing one stays missing. Both
      `setError` and assigning an input's value behave this way. */
  function Replace<T>(slot: Option<T>, value: T): Option<T> {
    if slot.Some? then Some(value) else None
  }
}
