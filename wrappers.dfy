/** Failure-compatible wrappers and the first-index search, shared by the other modules. */
module Wrappers {

  /** A value that may be absent. In the catalog `None` is what pandas shows as NaN. */
  datatype Option<+T> = None | Some(value: T)

  /** Either a value or the error that stopped the computation. */
  datatype Result<+T, +E> = Success(value: T) | Failure(error: E)

  /** The position of the first `x` in `s`, if any: `None` exactly when `x` does not occur. */
  function IndexOf<T(==)>(s: seq<T>, x: T): (r: Option<nat>)
    ensures r.Some? ==> r.value < |s| && s[r.value] == x
                        && forall j :: 0 <= j < r.value ==> s[j] != x
    ensures r.None? <==> x !in s
  {
    if s == [] then None
    else if s[0] == x then Some(0)
    else match IndexOf(s[1..], x)
      case None => None
      case Some(k) => Some(k + 1)
  }
}
