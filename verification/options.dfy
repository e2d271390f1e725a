/** An optional value: a key that may be absent from a YAML mapping. */
module Options {

  datatype Option<+T> = None | Some(value: T) {

    /** `d.get(key, default)`: the value when present, otherwise `default`. */
    function GetOr(default: T): (r: T)
      ensures Some? ==> r == value
      ensures None? ==> r == default
    {
      match this
      case Some(v) => v
      case None => default
    }
  }
}
