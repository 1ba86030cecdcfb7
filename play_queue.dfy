/** The play queue of PlayQueue.js: its repeat and shuffle state, and the
    boundary tests (first index, last index, next index) it builds on the
    step sequencer and the track list. */
module Queue {
  import opened JsValues
  import opened TrackLists
  import opened Stepping

  /** `PlayQueue.RepeatMode`: the closed table of repeat policies. */
  datatype RepeatMode = All | One | None

  /** The key (and value) of a mode in the `PlayQueue.RepeatMode` table. */
  function RepeatModeName(mode: RepeatMode): string
  {
    match mode
    case All => "All"
    case One => "One"
    case None => "None"
  }

  /** Looking a key up among the table's own entries: the mode it names, or
      `undefined` for any other key. */
  function ParseRepeatMode(key: string): (r: Maybe<RepeatMode>)
    ensures r.Defined? ==> RepeatModeName(r.value) == key
    ensures r.Undefined? ==> key != "All" && key != "One" && key != "None"
  {
    if key == "All" then Defined(All)
    else if key == "One" then Defined(One)
    else if key == "None" then Defined(None)
    else Undefined
  }

  /** Every mode's name parses back to that mode, and only its name does. */
  lemma ParseRepeatModeRoundTrip(mode: RepeatMode, key: string)
    ensures ParseRepeatMode(RepeatModeName(mode)) == Defined(mode)
    ensures ParseRepeatMode(key) == Defined(mode) <==> key == RepeatModeName(mode)
  {
  }

  /** Property names every plain JavaScript object inherits from
      `Object.prototype`; looking one of them up on the table yields a
      function, not `undefined`. */
  const InheritedKeys: set<string> := {
    "constructor", "hasOwnProperty", "isPrototypeOf", "propertyIsEnumerable",
    "toLocaleString", "toString", "valueOf", "__proto__",
    "__defineGetter__", "__defineSetter__", "__lookupGetter__", "__lookupSetter__"
  }

  /** The test `PlayQueue.RepeatMode[key] !== undefined` as written: it accepts
      the table's own keys and also every inherited property name. */
  function AcceptedAsWritten(key: string): (accepted: bool)
    ensures ParseRepeatMode(key).Defined? ==> accepted
    ensures key in InheritedKeys ==> accepted
  {
    ParseRepeatMode(key).Defined? || key in InheritedKeys
  }

  /** As written, `setRepeatMode("toString")` passes the check and stores a
      value that is not a repeat mode. */
  lemma InheritedKeyAccepted()
    ensures AcceptedAsWritten("toString") && ParseRepeatMode("toString") == Undefined
  {
  }

  /** What a call that may throw did: returned normally, or threw an `Error`
      with this message. */
  datatype Outcome = Returned | Threw(message: string)

  /** The mapper of the first `isLastIndex` step as written: `false` whatever
      the infinite flag, which ends every run after that step. */
  function LiteralInfiniteMapper(infinite: Reply): Maybe<bool>
  {
    Defined(false)
  }

  /** The evident intent of the first `isLastIndex` step: an infinite list has
      no last index (`false`), a finite one needs the second step
      (`undefined`); the flag is read with JavaScript truthiness. */
  function IntendedInfiniteMapper(infinite: Reply): Maybe<bool>
  {
    if ReplyNumber(infinite) != 0 then Defined(false) else Undefined
  }

  /** The mapper of the second `isLastIndex` step: `index >= maxIndex`. */
  function MaxMapper(index: int): Reply -> Maybe<bool>
  {
    maxIndex => Defined(index >= ReplyNumber(maxIndex))
  }

  /** The two steps `isLastIndex` queues: ask whether the list is infinite,
      then ask for its highest known index. */
  function LastIndexSteps(index: int, infiniteMapper: Reply -> Maybe<bool>): seq<Step<TrackList, Reply, bool>>
  {
    [AsyncStep(IsInfiniteOp, [], infiniteMapper), AsyncStep(MaxKnownIndexOp, [], MaxMapper(index))]
  }

  /** The value `isLastIndex` hands its callback. */
  function LastIndexAnswer(list: TrackList, index: int, infiniteMapper: Reply -> Maybe<bool>): Maybe<bool>
  {
    Fold(Undefined, list, LastIndexSteps(index, infiniteMapper))
  }

  /** With the run repaired (the builder built as intended and `runNextStep`
      called after each step), the literal first mapper makes `isLastIndex`
      answer `false` for every list and index, without ever asking for the
      highest known index. The literal source never answers at all: see
      `PlayQueue.IsLastIndexAsWritten`. */
  lemma LastIndexAsWrittenNeverLast(list: TrackList, index: int)
    ensures LastIndexAnswer(list, index, LiteralInfiniteMapper) == Defined(false)
    ensures Invoked(list, LastIndexSteps(index, LiteralInfiniteMapper)) == 1
  {
    FoldFirstDefined(Undefined, list, LastIndexSteps(index, LiteralInfiniteMapper), 0);
  }

  /** With the intended first mapper, `isLastIndex` answers true exactly at or
      beyond the highest index of a finite list, and asks for that index only
      when the list is finite. */
  lemma LastIndexIntendedAnswer(list: TrackList, index: int)
    ensures LastIndexAnswer(list, index, IntendedInfiniteMapper) == Defined(!list.infinite && index >= list.max)
    ensures Invoked(list, LastIndexSteps(index, IntendedInfiniteMapper)) == if list.infinite then 1 else 2
  {
    var steps := LastIndexSteps(index, IntendedInfiniteMapper);
    if list.infinite {
      FoldFirstDefined(Undefined, list, steps, 0);
    } else {
      assert Answer(list, steps[1]) == Defined(index >= list.max);
      FoldFirstDefined(Undefined, list, steps, 1);
    }
  }

  /** Whether `isLastIndex` (with the intended first mapper) says `index` is
      the last one. */
  function IsLast(list: TrackList, index: int): bool
  {
    LastIndexAnswer(list, index, IntendedInfiniteMapper) == Defined(true)
  }

  /** `isFirstIndex`: true at the first track and also below it. */
  function IsFirstIndex(list: TrackList, index: int): (first: bool)
    ensures index == list.min ==> first
    ensures index < list.min ==> first
    ensures index > list.min ==> !first
  {
    index <= ReplyNumber(MinKnownIndexOp(list, []))
  }

  /** `makeNextIndex`: the index after `index`, or `undefined` when the
      last-index test says there is none. The source calls the asynchronous
      `isLastIndex` as if it returned its answer. With the Stepper built as
      intended and the run as written, `isLastIndex` returns `undefined`,
      which is falsy, so `makeNextIndex` yields `index + 1`, that is
      `MakeNextIndex(index, false)`; the literal source throws a TypeError at
      PlayQueue.js:145 instead. The answer is a parameter here. */
  function MakeNextIndex(index: int, lastIndex: bool): (next: Maybe<int>)
    ensures next.Undefined? <==> lastIndex
    ensures next.Defined? ==> next.value > index
  {
    if lastIndex then Undefined else Defined(index + 1)
  }

  /** On a finite list, the next index exists exactly below the highest known
      index, and never passes it; on an infinite list it always exists. */
  lemma NextIndexStaysInRange(list: TrackList, index: int)
    ensures MakeNextIndex(index, IsLast(list, index)).Undefined? <==> !list.infinite && index >= list.max
    ensures MakeNextIndex(index, IsLast(list, index)).Defined? ==>
      MakeNextIndex(index, IsLast(list, index)).value == index + 1 &&
      (!list.infinite ==> index + 1 <= list.max)
  {
    LastIndexIntendedAnswer(list, index);
  }

  /** The indices visited from `index` on a finite list by repeatedly taking
      the next index until there is none. */
  function ForwardIndices(list: TrackList, index: int): seq<int>
    requires !list.infinite
    decreases if index <= list.max then list.max - index + 1 else 0
  {
    NextIndexStaysInRange(list, index);
    match MakeNextIndex(index, IsLast(list, index))
    case Undefined => [index]
    case Defined(next) => [index] + ForwardIndices(list, next)
  }

  /** Starting at or below the highest index of a finite list, the walk
      visits every index up to the highest one, each once, in ascending order,
      and then stops. */
  lemma {:induction false} ForwardIndicesEnumerate(list: TrackList, index: int)
    requires !list.infinite && index <= list.max
    ensures |ForwardIndices(list, index)| == list.max - index + 1
    ensures forall k :: 0 <= k < |ForwardIndices(list, index)| ==> ForwardIndices(list, index)[k] == index + k
    decreases list.max - index
  {
    NextIndexStaysInRange(list, index);
    if index < list.max {
      ForwardIndicesEnumerate(list, index + 1);
    }
  }

  /** Within the known range of a finite list, an index is first exactly at
      the lowest index and last exactly at the highest one; both hold at
      once only for a list of one track. */
  lemma BoundaryTestsOnRange(list: TrackList, index: int)
    requires !list.infinite && list.min <= index <= list.max
    ensures IsFirstIndex(list, index) <==> index == list.min
    ensures IsLast(list, index) <==> index == list.max
    ensures IsFirstIndex(list, index) && IsLast(list, index) ==> list.min == list.max
  {
    LastIndexIntendedAnswer(list, index);
  }

  /** The object `createFromTrackList(tracklist)` returns. */
  class PlayQueue {
    const tracklist: TrackList
    var repeatMode: RepeatMode
    var shuffle: bool
    /** The indices in playing order; nothing fills it yet. */
    var trackIndices: seq<int>

    /** `new PlayQueue(tracklist)` followed by `construct()`. */
    constructor (tracklist: TrackList)
      ensures this.tracklist == tracklist
      ensures repeatMode == None && !shuffle && trackIndices == []
    {
      this.tracklist := tracklist;
      repeatMode := None;
      shuffle := false;
      trackIndices := [];
    }

    /** `setRepeatMode(key)`: store a mode named in the table, or throw and
        leave the mode as it was. The table lookup is restricted to the
        table's own keys (see `AcceptedAsWritten` for the lookup as written). */
    method SetRepeatMode(key: string) returns (outcome: Outcome)
      modifies this`repeatMode
      ensures ParseRepeatMode(key).Defined? ==>
        outcome == Returned && repeatMode == ParseRepeatMode(key).value
      ensures ParseRepeatMode(key).Undefined? ==>
        outcome == Threw("Unknown repeat mode:" + key) && repeatMode == old(repeatMode)
    {
      var mode := ParseRepeatMode(key);
      if mode.Defined? {
        repeatMode := mode.value;
        outcome := Returned;
      } else {
        outcome := Threw("Unknown repeat mode:" + key);
      }
    }

    /** `setShuffleMode(shuffleMode)`: store the argument's boolean coercion;
        the new state depends on the argument only, so a repeated call
        changes nothing. */
    method SetShuffleMode(shuffleMode: JsValue)
      modifies this`shuffle
      ensures shuffle == Truthy(shuffleMode)
    {
      shuffle := Truthy(shuffleMode);
    }

    /** `isLastIndex(index, callback)` with the intended sequencing: the
        answer handed to the callback is that of the two-step pipeline. */
    method IsLastIndex(index: int, infiniteMapper: Reply -> Maybe<bool>) returns (answer: Maybe<bool>)
      ensures answer == Fold(Undefined, tracklist, LastIndexSteps(index, infiniteMapper))
      ensures infiniteMapper == IntendedInfiniteMapper ==>
        answer == Defined(!tracklist.infinite && index >= tracklist.max)
    {
      var stepper := new Stepper<TrackList, Reply, bool>(tracklist);
      stepper.Async(IsInfiniteOp, Undefined, infiniteMapper);
      stepper.Async(MaxKnownIndexOp, Undefined, MaxMapper(index));
      answer := stepper.WithResult();
      LastIndexIntendedAnswer(tracklist, index);
    }

    /** `isLastIndex(index, callback)` with the Stepper built as intended
        (steps pushed onto the local list, chaining working) but with the
        literal first mapper and the literal `withResult`: the first mapper
        answers `false` and `runNextStep` is not called again, so the callback
        is never called. The literal source fails earlier still: the object
        `new Stepper(...)` has no `async` method, so PlayQueue.js:145 throws a
        TypeError. */
    method IsLastIndexAsWritten(index: int) returns (callbackCalls: seq<Maybe<bool>>)
      ensures callbackCalls == []
    {
      var stepper := new Stepper<TrackList, Reply, bool>(tracklist);
      stepper.Async(IsInfiniteOp, Undefined, LiteralInfiniteMapper);
      stepper.Async(MaxKnownIndexOp, Undefined, MaxMapper(index));
      stepper.WithResultAsWritten();
      callbackCalls := stepper.delivered;
    }
  }
}
