/** Failure-carrying values shared by the whole model: an absent value
    (NaN in a phase raster, a missing metadata item), a computation that
    either yields a value or raises, and a step that either passes or raises. */
module Wrappers {

  datatype Option<+T> = None | Some(value: T)

  datatype Result<+T, +E> = Success(value: T) | Failure(error: E)

  datatype Outcome<+E> = Pass | Fail(error: E)
}
