/** Failure-carrying values shared by the whole model, and the kinds of
    Python exception the modelled code can raise. */
module Wrappers {

  datatype Option<+T> = None | Some(value: T)

  datatype Result<+R, +E> = Success(value: R) | Failure(error: E)

  /** The exceptions the dashboard code raises on the paths that are modelled. */
  datatype PyError =
    | KeyError(key: string)   // a column label absent from a DataFrame
    | TypeError               // slicing a cell that is not a string
    | IndexError              // indexing past the end of a list
    | ValueError              // int() of a string that is not a number, or a rejected argument
}
