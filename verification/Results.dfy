/** Outcomes of operations that the program ends by an assertion, an exception or undefined behaviour. */
module Results {
  datatype Option<+T> = None | Some(value: T)

  datatype Result<+T, +E> = Ok(value: T) | Err(error: E)

  /** `AssertionFailed` ends the process; `Undefined` is behaviour that C++ leaves undefined. */
  datatype Failure = AssertionFailed | Undefined
}
