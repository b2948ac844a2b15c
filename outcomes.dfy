/** The success-or-error value that stands for a Python exception raised by an operation. */
module Outcomes {
  datatype Result<T, E> = Ok(value: T) | Err(error: E)
}
