/** Results shared by the modules of this model. */
module Outcomes {

  /** A value that may be absent: a nil pointer, a missing map entry, a failed conversion. */
  datatype Option<+T> = None | Some(value: T)

  /** How a call of the original ends: with a value, with an error, or in a run-time panic. */
  datatype Outcome<+T, +E> = Done(value: T) | Failed(error: E) | Panicked
}
