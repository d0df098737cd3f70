/** The optional value used for a parse that may fail and for the fields of a
    request body that a client may leave out. */
module Wrappers {

  datatype Option<+T> = None | Some(value: T) {

    /** The value when there is one, `default` otherwise. */
    function GetOr(default: T): T {
      match this
      case Some(v) => v
      case None => default
    }
  }
}
