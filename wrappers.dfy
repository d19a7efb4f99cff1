/** Option: the model's stand-in for JavaScript's `T | null` and for a header or
    storage lookup that may find nothing. */
module Wrappers {
  datatype Option<+T> = None | Some(value: T) {
    function GetOr(default: T): T {
      match this
      case Some(v) => v
      case None => default
    }
  }
}
