/** An optional value, used where Go returns a value together with an error
    that its caller only tests against nil. */
module Options {

  datatype Option<T> = None | Some(value: T) {

    /** The value when present, `default` otherwise. */
    function GetOr(default: T): T {
      match this
      case Some(v) => v
      case None => default
    }
  }
}
