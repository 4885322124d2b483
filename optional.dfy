/** An optional value, for JavaScript's undefined/null and for absent map keys. */
module Optional {

  datatype Option<+T> = None | Some(value: T) {

    /** The value, or the given default when there is none (the source's `x || d`). */
    function GetOr(default: T): (r: T)
    {
      match this
      case Some(v) => v
      case None => default
    }
  }
}
