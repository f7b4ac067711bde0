/** The optional value used wherever the source returns `null`/`undefined` or reads a
    missing element. */
module Wrappers {

  datatype Option<+T> = None | Some(value: T) {

    /** The value as a list of zero or one elements. */
    function ToSeq(): (r: seq<T>)
      ensures |r| == (if Some? then 1 else 0)
      ensures Some? ==> r[0] == value
    {
      match this
      case Some(v) => [v]
      case None => []
    }
  }
}
