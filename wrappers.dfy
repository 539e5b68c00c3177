/** The Option type used for "an event, or nothing yet". */
module Wrappers {
  datatype Option<+T> = None | Some(value: T)
}
