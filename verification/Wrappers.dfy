/** Result-carrying datatypes shared by the other modules. */
module Wrappers {

  datatype Option<+T> = None | Some(value: T)

  datatype Result<+T, +E> = Ok(value: T) | Err(error: E)

  /** A history, newest element first. */
  datatype Log<T> = Empty | Newer(head: T, rest: Log<T>)
}
