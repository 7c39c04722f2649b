/** An optional value: a nullable intent extra (`String?`) read with `?: ""`. */
module Optional {

  datatype Option<+T> = None | Some(value: T) {

    /** The held value, or `default` when there is none (Kotlin's `?:`). */
    function GetOr(default: T): (r: T)
      ensures Some? ==> r == value
      ensures None? ==> r == default
    {
      match this
      case Some(v) => v
      case None => default
    }
  }
}
