/** Option and Result, the two shapes every external command outcome takes in this model. */
module Wrappers {

  /** An outcome that may be missing: `None` stands for a command that failed. */
  datatype Option<+T> = None | Some(value: T)

  /** A value or the reason it could not be produced. */
  datatype Result<+T, +E> = Ok(value: T) | Err(error: E)
}
