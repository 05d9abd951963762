/** The optional value the rest of the model uses for JavaScript's `null`,
    a failed regular-expression match and an invalid date. */
module Wrappers {

  datatype Option<+T> = None | Some(value: T) {

    /** The value, or `default` when there is none. */
    function GetOr(default: T): T {
      match this
      case Some(v) => v
      case None => default
    }
  }
}
