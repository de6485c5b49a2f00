/** Small failure-carrying datatypes shared by the other modules. */
module Wrappers {

  datatype Option<+T> = None | Some(value: T)

  /** The outcome of a call that returns nothing on success and can throw. */
  datatype Outcome<+E> = Pass | Fail(error: E)

}
