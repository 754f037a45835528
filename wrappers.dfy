/** Optional values, shared by every module of the model. */
module Wrappers {

  datatype Option<T> = None | Some(value: T)
  {
    function GetOr(default: T): (r: T)
      ensures Some? ==> r == value
      ensures None? ==> r == default
    {
      match this
      case None => default
      case Some(v) => v
    }
  }
}
