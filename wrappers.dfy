/** The optional value used throughout the model: JavaScript's `undefined`/`null`
    answers and failed parses become `None`. */
module Wrappers {

  datatype Option<+T> = None | Some(value: T) {

    function GetOr(default: T): T {
      match this
      case Some(v) => v
      case None => default
    }
  }
}
