/** Failure-carrying result values used by the patch scripts' models. */
module Wrappers {

  /** Either the value a script computed or the reason it stopped before writing. */
  datatype Result<+R, +E> = Success(value: R) | Failure(error: E)
}
