/** Optional values and results, used for the optional fields of the metadata
    records, for lookups that may find nothing and for loads that may fail. */
module Wrappers {

  /** A value that may be absent (`undefined` in the original program). */
  datatype Option<+T> = None | Some(value: T) {

    /** The wrapped value, or `default` when absent. */
    function GetOr(default: T): (r: T)
      ensures Some? ==> r == value
      ensures None? ==> r == default
    {
      match this
      case Some(v) => v
      case None => default
    }
  }

  /** Either a value or an error message. */
  datatype Result<+T> = Ok(value: T) | Err(message: string)
}
