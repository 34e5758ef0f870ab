/** Optional values and success/failure outcomes shared by the store and the
    request handlers. */
module Results {

  /** A value that may be absent, as with `Optional[...] = None` fields. */
  datatype Option<+T> = None | Some(value: T) {

    /** The carried value, or `default` when absent. */
    function GetOr(default: T): (r: T)
      ensures Some? ==> r == value
      ensures None? ==> r == default
    {
      match this
      case Some(v) => v
      case None => default
    }
  }

  /** The outcome of a storage operation: a value, or the reason it failed. */
  datatype Result<+T, +E> = Success(value: T) | Failure(error: E)
}
