/** Optional values and results with an error, the two shapes the dashboard's
    loaders and parsers return. */
module Wrappers {

  /** A value that may be absent: a missing JSON key, a date that did not parse. */
  datatype Option<T> = None | Some(value: T) {

    /** What `dict.get(key, default)` yields: the stored value when the key
        is present, `default` otherwise. */
    function GetOr(default: T): T {
      if Some? then value else default
    }
  }

  /** Either a value or the error that stopped its computation. */
  datatype Result<T, E> = Ok(value: T) | Err(error: E)
}
