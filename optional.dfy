/** An optional value: JavaScript's `undefined`/`null` versus a present value,
    and SQLite's NULL versus a stored value. */
module Optional {

  datatype Option<+T> = None | Some(value: T) {

    /** The present value, or `default` when there is none. */
    function GetOr(default: T): T {
      match this
      case Some(v) => v
      case None => default
    }
  }
}
