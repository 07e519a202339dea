/** Optional values and success/failure results shared by every module of the model. */
module Wrappers {

  /** A value that may be absent (the source's `None`). */
  datatype Option<+T> = None | Some(value: T) {

    /** The carried value, or `default` when absent. */
    function GetOr(default: T): T
    {
      if Some? then value else default
    }
  }

  /** Either a computed value or the error the source raises instead. */
  datatype Result<+T, +E> = Ok(value: T) | Err(error: E)

  /** Python's `d.get(key, default)` on a dictionary. */
  function Get<K, V>(d: map<K, V>, key: K, default: V): V
  {
    if key in d then d[key] else default
  }
}
