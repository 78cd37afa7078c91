/** The absent-or-present values that the dashboard's records carry: a JavaScript
    attribute that may be `undefined` is an `Option`. */
module Options {

  datatype Option<+T> = None | Some(value: T) {

    /** The value, or `default` when absent (JavaScript's `x || default` for
        attributes whose falsy values coincide with the default). */
    function GetOr(default: T): T {
      match this
      case Some(v) => v
      case None => default
    }
  }
}
