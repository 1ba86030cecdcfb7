/** The track list a play queue walks through, reduced to the three answers
    the boundary tests ask of it. Loading tracks and listing indices are
    queries the model does not make. */
module TrackLists {

  /** A track list: the lowest and highest known index, and whether the list
      goes on forever (in which case `max` is not consulted). */
  datatype TrackList = TrackList(min: int, max: int, infinite: bool)

  /** A value a track list hands back: the infinite flag or an index. */
  datatype Reply = Flag(b: bool) | Index(i: int)

  /** The number JavaScript compares when a reply is an operand of `>=` or
      `<=`: a boolean counts as 0 or 1. */
  function ReplyNumber(r: Reply): (n: int)
    ensures r.Index? ==> n == r.i
    ensures r.Flag? ==> (n == 1 <==> r.b) && 0 <= n <= 1
  {
    match r
    case Flag(b) => if b then 1 else 0
    case Index(i) => i
  }

  /** `isInfinite(callback)`: delivers the infinite flag. */
  function IsInfiniteOp(list: TrackList, args: seq<Reply>): Reply
  {
    Flag(list.infinite)
  }

  /** `withMaxKnownIndex(callback)`: delivers the highest known index. */
  function MaxKnownIndexOp(list: TrackList, args: seq<Reply>): Reply
  {
    Index(list.max)
  }

  /** `withMinKnownIndex(callback)`: delivers the lowest known index. */
  function MinKnownIndexOp(list: TrackList, args: seq<Reply>): Reply
  {
    Index(list.min)
  }
}
