/** The usual optional value: a JSON field that may be absent or null. */
module Options {
  datatype Option<T> = None | Some(value: T) {
    /** `x || fallback` for a field that is either present or absent. */
    function GetOr(fallback: T): T {
      match this
      case Some(v) => v
      case None => fallback
    }
  }
}
