/** The optional-value datatype shared by the whole model: JavaScript's
    `null`/`undefined` become `None`, a present value becomes `Some`. */
module Wrappers {

  datatype Option<+T> = None | Some(value: T) {

    /** The value when present, `default` when absent: JavaScript's `x ?? d`. */
    function GetOr(default: T): T {
      match this
      case Some(v) => v
      case None => default
    }
  }
}
