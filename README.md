# PlayQueue: step sequencer and queue boundary rules

A Dafny model of `PlayQueue.js`, a play queue that walks a track list under
repeat and shuffle policies. Most of the queue's navigation is still stubbed
in the source; what exists and is modelled here is:

- **The step sequencer** (`Stepper`, module `Stepping`, `stepper.dfy`): an
  ordered list of synchronous or asynchronous operations on one target. Steps
  are queued at the back and run from the front. Each step's mapper either
  answers (a defined value) or returns `undefined` to continue. The first
  defined answer discards the remaining steps and becomes the final result,
  which goes to the result handler once the list is empty. The class keeps the
  source's `steps` list and `finalResult`, plus a log of invoked steps and of
  handler calls. The spec functions `Fold` and `Invoked` state what a run
  returns and how many operations it invokes.
- **The track list** (`TrackLists`, `track_list.dfy`): reduced to its lowest
  and highest known index and its infinite flag.
- **The play queue** (`Queue`, `play_queue.dfy`): the closed `RepeatMode`
  table, the boundary tests `isFirstIndex` and `isLastIndex` (the latter a
  two-step sequencer pipeline), `makeNextIndex`, and the `PlayQueue` class with
  its defaults, `setRepeatMode` (throwing on unknown modes) and
  `setShuffleMode` (boolean coercion).
- **JavaScript values** (`JsValues`, `js_values.dfy`): `Maybe` stands for
  "`undefined` or a value", and `JsValue` with `Truthy` stands for the `!!`
  coercion.

The source has several defects. Each is described in a comment where it is
modelled:
- `async`/`sync` push onto `self.steps` instead of the local `steps` (lines 51, 67).
- `async`/`sync` return nothing, so the chaining at 144-153 cannot work.
- `new Stepper(...)` exposes only `construct()`.
- `makeNextIndex` reads the asynchronous `isLastIndex` synchronously (line 182). With the Stepper built as intended and the run as written, `isLastIndex` returns `undefined`, which is falsy, so `makeNextIndex` yields `index + 1`, the value of `MakeNextIndex(index, false)`; the literal source throws a TypeError at line 145 instead, since `new Stepper(...)` has no `async` method.

The model follows the evident intent in each case. Three more defects are
listed under Findings, each modelled both as written and as intended.

The source's doc comment (lines 90-92) names the track-list queries
`getMinKnownIndex`/`getMaxKnownIndex`, but the code calls `withMinKnownIndex`
and `withMaxKnownIndex`. The model follows the code. That makes no difference
here, because the model passes the track list as a value.

## Model

| member | source | states |
|---|---|---|
| `JsValues.Truthy` | PlayQueue.js:286 | `!!v` keeps a boolean as it is, makes `undefined`, `null` and `NaN` false, a number true exactly when it is not zero, a string true exactly when it is not empty, and an object true |
| `Stepping.Invoked` | PlayQueue.js:33-41 | a run invokes at most as many operations as are queued, and at least one if any is queued |
| `Stepping.FoldFirstDefined` | PlayQueue.js:26-41 | if step i is the first with a defined answer, the handler gets that answer and exactly steps 0..i have been invoked; no later step's operation runs |
| `Stepping.FoldAllUndefined` | PlayQueue.js:26-27 | if every mapper returns `undefined`, every step runs and the handler gets the untouched final result (`undefined` for a fresh run) |
| `Stepping.FoldAppend` | PlayQueue.js:33-38 | steps queued after a deciding step change neither the result nor the invoked count; if no step in the first part decides, the whole first part runs and the run continues into the rest |
| `Stepping.Stepper.constructor` | PlayQueue.js:11-24 | a new builder has its target, no steps, an `undefined` final result, and nothing invoked or handled |
| `Stepping.Stepper.Async` | PlayQueue.js:45-60 | appends an asynchronous step at the back; with the arguments omitted the step gets none; nothing runs and no other state changes |
| `Stepping.Stepper.Sync` | PlayQueue.js:61-76 | appends a synchronous step at the back; nothing runs and no other state changes |
| `Stepping.Stepper.GotResult` | PlayQueue.js:26-31 | a defined answer empties the step list and becomes the final result; `undefined` changes neither |
| `Stepping.Stepper.RunNextStep` | PlayQueue.js:33-42 | with steps left, takes the front one, invokes it once and handles its mapper's answer; with none left, hands the final result to the handler |
| `Stepping.Stepper.WithResult` | PlayQueue.js:77-80 | runs the queued steps in queue order. The steps invoked are exactly the prefix up to the first defined answer. The handler is called exactly once, with the first defined answer (else the prior final result), and the list ends empty |
| `Stepping.Stepper.WithResultAsWritten` | PlayQueue.js:77-80 | as written, only the front step runs and the handler is not called while a step was queued; the rest of the list stays queued unless that step answered, in which case the list is emptied and the answer kept |
| `TrackLists.ReplyNumber` | PlayQueue.js:149 | the number JavaScript compares for a reply: the index itself, or 1/0 for true/false |
| `Queue.ParseRepeatMode` | PlayQueue.js:294-298 | a key is accepted only as the name of one of `All`, `One`, `None`, and maps to that mode |
| `Queue.ParseRepeatModeRoundTrip` | PlayQueue.js:294-298 | each mode's name parses back to that mode, and no other key does |
| `Queue.AcceptedAsWritten` | PlayQueue.js:273 | the check as written accepts every table key and every name inherited from `Object.prototype` |
| `Queue.InheritedKeyAccepted` | PlayQueue.js:272-277 | as written, `"toString"` passes the check though it names no mode |
| `Queue.LastIndexAsWrittenNeverLast` | PlayQueue.js:143-150 | with the run repaired (builder as intended, `runNextStep` called after each step), the literal first mapper makes every run answer `false`, after invoking only the infinite check; the literal source never answers |
| `Queue.LastIndexIntendedAnswer` | PlayQueue.js:133-154 | with the intended first mapper, the answer is true exactly when the list is finite and the index is at or beyond its highest index. On an infinite list the highest index is never asked for |
| `Queue.IsFirstIndex` | PlayQueue.js:156-171 | true at the lowest known index and below it, false above it |
| `Queue.MakeNextIndex` | PlayQueue.js:173-187 | the result is `undefined` exactly when the last-index test says so; otherwise it is a later index |
| `Queue.NextIndexStaysInRange` | PlayQueue.js:173-187 | combined with the intended `isLastIndex`, the next index is `index + 1`. It is absent exactly at or beyond the end of a finite list, and never passes that end |
| `Queue.ForwardIndicesEnumerate` | PlayQueue.js:181-186 | repeatedly taking the next index from any index at or below the end of a finite list visits each index up to the end once, in ascending order, then stops |
| `Queue.BoundaryTestsOnRange` | PlayQueue.js:134-171 | inside the known range of a finite list, an index is first exactly at the lowest index and last exactly at the highest. Both hold at once only when the list has one track |
| `Queue.PlayQueue.constructor` | PlayQueue.js:116-120 | a new queue keeps its track list, with repeat mode `None`, shuffle off and no track indices |
| `Queue.PlayQueue.SetRepeatMode` | PlayQueue.js:272-278 | a mode named in the table is stored. Any other key throws `Unknown repeat mode:` followed by the key, and the mode is left unchanged |
| `Queue.PlayQueue.SetShuffleMode` | PlayQueue.js:285-288 | stores the argument's boolean coercion and nothing else, so repeating the call changes nothing |
| `Queue.PlayQueue.IsLastIndex` | PlayQueue.js:143-154 | the callback's answer is the two-step pipeline's result. With the intended first mapper it is true exactly at or beyond the end of a finite list |
| `Queue.PlayQueue.IsLastIndexAsWritten` | PlayQueue.js:143-154 | with the Stepper built as intended but the literal mapper and `withResult`, the callback of `isLastIndex` is never called. The literal source throws a TypeError at line 145, since `new Stepper(...)` has no `async` method |

## Findings

| source | as written | input that shows it | evidently intended | confidence | as-written member | corrected member |
|---|---|---|---|---|---|---|
| PlayQueue.js:145-147 | the infinite-check mapper returns `false` whatever the flag, so once the run is repaired `isLastIndex` always answers `false` (the literal source throws at line 145 and never answers) | a finite list with highest index 3, index 3: answer `false` | `infinite ? false : undefined`, so a finite list goes on to the `index >= maxIndex` step | high (not executed) | `Queue.LastIndexAsWrittenNeverLast` | `Queue.LastIndexIntendedAnswer` |
| PlayQueue.js:26-42, 52-57, 71-79 | after a step's mapper has been handled, nothing calls `runNextStep` again, so a run with any queued step never reaches the result handler | `isLastIndex(0, cb)` on any list: `cb` is never called | run the next step after each mapper answer, and call the handler once the list is empty | high (not executed) | `Queue.PlayQueue.IsLastIndexAsWritten` | `Stepping.Stepper.WithResult` |
| PlayQueue.js:273-274 | `PlayQueue.RepeatMode[key] !== undefined` also accepts names inherited from `Object.prototype` | `setRepeatMode("toString")` stores `"toString"` without throwing | accept only the table's own keys `All`, `One`, `None` | high (not executed) | `Queue.InheritedKeyAccepted` | `Queue.ParseRepeatMode` |

## Left out

- `moveTo`, `next`, `previous`, `invalidate` (PlayQueue.js:209-259): their bodies are empty, so there is no behaviour to model.
- Shuffling and un-shuffling `trackIndices` (PlayQueue.js:287): it exists only as a comment. Random permutation is not modelled either. `trackIndices` stays empty.
- `PlayQueueItem` (PlayQueue.js:8): declared but never defined.
- The track list's I/O: `loadTrackAtIndex` and `listIndices` are never called by the modelled code. The three queries used are modelled as values of an abstract track list.
- Real asynchrony: each asynchronous operation delivers its value to its continuation exactly once, before the next step starts. Continuations that are never called, are called twice or are called late are not modelled.
- The continuation is appended to the step's own `args` array (line 52). This mutation is not modelled; the model passes the arguments as a value.
- Receiver binding through `apply` (lines 58, 71): operations take the target as an explicit argument.
- The AMD `define` wrapper and the `createFromTrackList` factory (PlayQueue.js:4, 300-310). The `PlayQueue` constructor covers both `new PlayQueue` and `construct()`.
- `Queue.PlayQueue.SetRepeatMode`: the argument is modelled as a string. JavaScript would first convert any other value to a property key.
- Numbers: indices and the track list's lowest and highest index are JavaScript numbers (doubles), modelled as unbounded integers. At `2^53` the source's `index + 1` (line 185) rounds back to `index`, so `MakeNextIndex`'s "a later index" and the termination in `ForwardIndicesEnumerate` do not hold there. Non-integer indices such as `2.5`, which the source accepts, cannot be expressed.
- Throwing or re-entrant operations and mappers: in the source an operation or mapper may throw, which propagates out of `step()`/`withResult` so the handler is never called (lines 38, 71-72), and a mapper may queue more steps on the same builder while a run is in progress. The model's operations and mappers are pure total functions, so neither case is modelled.
- `JsValues.Truthy`: numbers are modelled as reals plus NaN; `-0` counts as zero. `Infinity` and `-Infinity` (both truthy), symbols and bigints cannot be expressed.
