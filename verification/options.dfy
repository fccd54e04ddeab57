/** The optional value used throughout the model for JavaScript's
    `undefined` (a missing room, an unset global, a parse that gave NaN). */
module Options {

  datatype Option<+T> = None | Some(value: T) {

    /** Returns the value held, or `default` when there is none. */
    function GetOr(default: T): T {
      match this
      case Some(v) => v
      case None => default
    }
  }
}
