/** JavaScript-level outcomes used throughout the model. */
module Outcomes {

  /** A value that may be `null`. */
  datatype Option<+T> = None | Some(value: T)

  /** The result of code that may throw: either it returns a value, or it
      throws, which both route handlers catch and turn into a 500 response. */
  datatype Try<+T> = Returned(value: T) | Threw
}
