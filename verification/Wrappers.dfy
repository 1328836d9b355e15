/** Results of operations that can be absent or can throw. */
module Wrappers {
  datatype Option<+T> = None | Some(value: T)

  /** `Err` stands for a thrown exception or a rejected promise. */
  datatype Result<+T, +E> = Ok(value: T) | Err(error: E)
}
