/** The optional value the modules below share. */
module Options {

  datatype Option<T> = None | Some(value: T) {
    /** The value, or `default` when there is none (`Option::unwrap_or`). */
    function GetOr(default: T): T {
      match this
      case Some(v) => v
      case None => default
    }
  }
}
