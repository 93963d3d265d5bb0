/** The optional value used wherever the engine works with a reference that may
    be null (a node, a registered fear bar, a dialogue argument). */
module Wrappers {

  datatype Option<+T> = None | Some(value: T) {

    /** The value, or `default` when there is none (C#'s `??`). */
    function GetOr(default: T): T {
      match this
      case Some(v) => v
      case None => default
    }
  }
}
