/** Optional values and results shared by every module of the model. */
module Wrappers {

  /** A Java reference that may be null, or a JavaScript value that may be missing. */
  datatype Option<T> = None | Some(value: T)
  {
    function GetOr(default: T): (r: T)
      ensures Some? ==> r == value
      ensures None? ==> r == default
    {
      match this
      case None => default
      case Some(v) => v
    }
  }

  /** The outcome of a call that may throw: the value, or the exception's message. */
  datatype Result<T> = Ok(value: T) | Err(error: string)
}
