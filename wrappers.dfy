/** Option: a value that may be missing. A remote call that fails (transport
    error, unexpected JSON shape) is modelled as `None`. */
module Wrappers {
  datatype Option<+T> = None | Some(value: T) {
    function GetOr(default: T): T {
      match this
      case Some(v) => v
      case None => default
    }
  }
}
