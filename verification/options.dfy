/** An optional value, standing for a TypeScript parameter that may be `undefined`. */
module Options {

  datatype Option<+T> = None | Some(value: T) {

    /** The carried value, or `default` when the parameter was left `undefined`. */
    function GetOr(default: T): T {
      match this
      case Some(v) => v
      case None => default
    }
  }
}
