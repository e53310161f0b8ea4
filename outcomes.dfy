/** The settled state of a promise, and an optional slot. */
module Outcomes {

  /** A promise either fulfils with a value or rejects with an error; the same
      shape carries the errors a call throws. */
  datatype Outcome<+V, +E> = Ok(value: V) | Err(error: E)

  /** An array slot that is still `undefined`, or holds a value. */
  datatype Option<+T> = None | Some(value: T)

}
