/** Kotlin's nullable values (`T?`), as an explicit option type. */
module Wrappers {

  datatype Option<+T> = None | Some(value: T) {

    /** The `?:` (elvis) operator: the value when present, `default` otherwise. */
    function GetOr(default: T): T {
      match this
      case Some(v) => v
      case None => default
    }
  }
}
