/** The "value or nothing" datatype used wherever the source has an optional
    property, an `undefined` result or a `null` child. */
module Optional {

  datatype Option<T> = None | Some(value: T) {

    /** Returns the wrapped value, or `default` when there is none. */
    function GetOr(default: T): T {
      match this
      case Some(v) => v
      case None => default
    }
  }

  /** JavaScript's `array[i]`: the element when `i` is an index of `s`, otherwise `undefined`. */
  function At<T>(s: seq<T>, i: int): (r: Option<T>)
    ensures r.Some? <==> 0 <= i < |s|
    ensures r.Some? ==> r.value == s[i]
  {
    if 0 <= i < |s| then Some(s[i]) else None
  }
}
