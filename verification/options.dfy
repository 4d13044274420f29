/** The optional value used for a lookup that may find nothing and for a
    setting that may not have been stored yet. */
module Options {

  datatype Option<+T> = None | Some(value: T) {

    /** Returns the value held in Some, or `default` when None. */
    function GetOr(default: T): T {
      match this
      case Some(v) => v
      case None => default
    }
  }
}
