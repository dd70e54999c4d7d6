/** Optional values and success-or-error results, the two shapes the page's
    JavaScript expresses with `null`/`undefined` and with thrown errors. */
module Wrappers {

  /** A value that may be absent (JSON `null`, a missing field). */
  datatype Option<+T> = None | Some(value: T)

  /** The outcome of a step that either yields a value or fails with a message. */
  datatype Result<+T> = Ok(value: T) | Err(message: string)
}
