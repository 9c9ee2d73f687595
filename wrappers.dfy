/** Small value wrappers shared by the navigation model. */
module Wrappers {

  datatype Option<T> = None | Some(value: T)

  /** The Python exceptions that the modelled handlers can raise on reachable states. */
  datatype PyError = KeyError | ValueError | StopIteration

  /** The value a handler computes, or the exception that aborted it before it changed anything. */
  datatype Outcome<T> = Ok(value: T) | Raised(error: PyError)
}
