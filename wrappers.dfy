/** The usual optional-value datatype: `None` stands for JavaScript's `null`
    (or a thrown parse error) wherever the source returns "a value or null". */
module Wrappers {

  datatype Option<+T> = None | Some(value: T) {

    function GetOr(default: T): T {
      match this
      case Some(v) => v
      case None => default
    }
  }
}
