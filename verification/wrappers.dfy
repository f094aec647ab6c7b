/** Optional values and Python-style outcomes shared by every module of the model.

    A Python function that can raise is modelled as returning a `Result`: either the
    value it returns or the exception that escapes it. */
module Wrappers {

  datatype Option<+T> = None | Some(value: T)

  /** The Python exceptions the modelled code can let escape. */
  datatype Exception =
    | KeyError(key: string)          // subscripting a tag for an attribute it lacks
    | ValueError(reason: string)     // a datetime built from out-of-range fields
    | OverflowError(reason: string)  // date arithmetic leaving the year range 1..9999
    | AttributeError(name: string)   // reading a feed entry attribute feedparser did not set

  datatype Result<+T> = Ok(value: T) | Raised(exc: Exception) {
    predicate IsFailure() {
      Raised?
    }

    function PropagateFailure<U>(): Result<U>
      requires Raised?
    {
      Raised(exc)
    }

    function Extract(): T
      requires Ok?
    {
      value
    }
  }
}
