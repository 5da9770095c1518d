/** Optional values and results with an error message, used for nullable
    columns, `?Task` lookups and operations that can throw. */
module Wrappers {

  datatype Option<+T> = None | Some(value: T) {
    function GetOr(default: T): T {
      match this
      case Some(v) => v
      case None => default
    }
  }

  datatype Result<+R> = Success(value: R) | Failure(error: string)
}
