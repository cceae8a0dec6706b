/** Failure-carrying values shared by the other modules. */
module Wrappers {

  /** An optional value; `None` stands for a text field the user left empty. */
  datatype Option<+T> = None | Some(value: T)

  /** The outcome of an action that may be rejected with an error. */
  datatype Result<+R, +E> = Success(value: R) | Failure(error: E)
}
