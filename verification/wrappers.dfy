/** Kotlin's nullable values, as an Option datatype. */
module Wrappers {

  datatype Option<+T> = None | Some(value: T) {

    /** Kotlin's `x ?: default`. */
    function GetOr(default: T): T {
      match this
      case Some(v) => v
      case None => default
    }
  }

  /** Kotlin's `x?.let(f)`. */
  function MapOpt<T, U>(o: Option<T>, f: T -> U): (r: Option<U>)
    ensures r.None? <==> o.None?
    ensures o.Some? ==> r == Some(f(o.value))
  {
    match o
    case None => None
    case Some(v) => Some(f(v))
  }
}
