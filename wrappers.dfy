/** Result types shared by the graph modules. */
module Wrappers {

  datatype Option<T> = None | Some(value: T)

  /** The outcome of an operation that the source aborts by raising an exception. */
  datatype Outcome<T> = Success(value: T) | Failure(error: string)
}
