/** The optional-value datatype shared by the modules of the risk engine. */
module Wrappers {

  /** A value that may be absent: a dictionary key that was not supplied,
      a query that matched no row, a model that has not been trained. */
  datatype Option<+T> = None | Some(value: T) {

    /** The encapsulated value, or `default` when there is none. */
    function GetOr(default: T): T {
      match this
      case Some(v) => v
      case None => default
    }
  }
}
