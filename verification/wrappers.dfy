/** The optional value used for the page's nullable state and for a drawing
    surface that may not be available. */
module Wrappers {

  /** Some value, or nothing (the source's `null` / falsy result). */
  datatype Option<+T> = None | Some(value: T) {

    /** The wrapped value, or `default` when there is none. */
    function GetOr(default: T): T
    {
      match this
      case Some(v) => v
      case None => default
    }
  }
}
