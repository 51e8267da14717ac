/** Optional values (pandas NA / Python None) and the outcome of a computation that may raise. */
module Wrappers {

  datatype Option<T> = None | Some(value: T)
  {
    function GetOr(default: T): T
    {
      match this
      case None => default
      case Some(v) => v
    }
  }

  /** A Python computation either returns a value or raises an exception that nobody catches. */
  datatype Outcome<T> = Returns(value: T) | Raises
}
