/** Small wrapper types shared by every handler model. */
module Basics {

  /** The usual Some/None datatype: Rust's `Option`, a Python value that may be absent. */
  datatype Option<+T> = None | Some(value: T)

  /** The value, or the default when it is absent (Rust's `unwrap_or`). */
  function OrDefault<T>(o: Option<T>, default: T): (r: T)
    ensures o.Some? ==> r == o.value
    ensures o.None? ==> r == default
  {
    if o.Some? then o.value else default
  }

  /**
   * What an HTTP handler answers, stripped of the framework:
   * `Challenge` is the 401 basic-auth challenge raised by the credential check,
   * `Forbidden` the 403 of the admin-only handlers, `Done` any 200 answer.
   */
  datatype Reply<+T> = Challenge | Forbidden | Done(body: T)
}
