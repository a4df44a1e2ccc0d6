/** An optional value, for the at-most-one entity an operation may create. */
module Wrappers {

  datatype Option<+T> = None | Some(value: T)

  /** The entities an optional creation contributes to a group: none or one. */
  function ToSeq<T>(o: Option<T>): (s: seq<T>)
    ensures |s| <= 1
    ensures o.None? <==> s == []
    ensures o.Some? ==> s == [o.value]
  {
    match o
    case None => []
    case Some(v) => [v]
  }
}
