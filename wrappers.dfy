/** Option and Result, for lookups that may find nothing and steps that may fail. */
module Wrappers {

  datatype Option<T> = None | Some(value: T)

  /** The outcome of a step that pandas would abort with an exception. */
  datatype Result<T, E> = Success(value: T) | Failure(error: E)
}
