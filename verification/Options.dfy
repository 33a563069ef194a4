/** Values that may be missing: null pointers and failed readings. */
module Options {

  datatype Option<T> = None | Some(value: T) {

    function GetOr(default: T): T {
      match this
      case None => default
      case Some(v) => v
    }
  }
}
