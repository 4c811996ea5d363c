/** Failure-carrying values shared by every module of the model. */
module Wrappers {

  /** An optional value: `None` also stands for "the collaborator raised". */
  datatype Option<+T> = None | Some(value: T)

  /** A value or the reason it could not be produced. */
  datatype Result<+R, +E> = Success(value: R) | Failure(error: E)

  /** The Python exceptions that escape a modelled operation instead of being caught. */
  datatype Exception =
    | KeyError(key: string)       // a missing key in a reply dictionary
    | TypeError(message: string)  // a reply that is not a dictionary indexed by a key
    | ValueError(message: string) // a thread pool asked for fewer than one worker
    | OSError(message: string)    // the size of a file that cannot be read
}
