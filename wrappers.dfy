/** Option and Result values for the registry's null arguments and thrown exceptions. */
module Wrappers {

  /** `None` stands for a Java `null` reference. */
  datatype Option<T> = None | Some(value: T)

  /** The exception an operation throws, or its successful value. */
  datatype Result<T, E> = Ok(value: T) | Err(error: E)
}
