/** Result types shared by the models: absence and failure are values, as the
    repository's exceptions and error returns are observable outcomes. */
module Wrappers {
  datatype Option<+T> = None | Some(value: T)

  datatype Result<+T, +E> = Success(value: T) | Failure(error: E)
}
