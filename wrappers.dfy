/** Helper datatypes shared by the model. */
module Wrappers {

  /** A value that may be missing; `None` stands for pandas' NaN. */
  datatype Option<+T> = None | Some(value: T)

  /** Either a value or the error the source would raise instead. */
  datatype Result<+T, +E> = Success(value: T) | Failure(error: E)
}
