/** Optional values, used where the source leaves a zero value behind a failed search. */
module Wrappers {

  datatype Option<+T> = None | Some(value: T)

  /** The option as a sequence of zero or one element. */
  function ToSeq<T>(o: Option<T>): (s: seq<T>)
    ensures |s| <= 1
    ensures o.Some? <==> |s| == 1
    ensures o.Some? ==> s[0] == o.value
  {
    match o
    case None => []
    case Some(v) => [v]
  }
}
