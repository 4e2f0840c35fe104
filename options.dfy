/** The optional value used throughout the model: a JavaScript property that may be
    absent (`undefined`) or a stored column that may be NULL. */
module Options {

  datatype Option<+T> = None | Some(value: T) {

    /** The value if there is one, otherwise `default`. */
    function GetOr(default: T): T {
      match this
      case Some(v) => v
      case None => default
    }
  }
}
