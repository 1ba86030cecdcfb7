/** The step sequencer (`Stepper` in PlayQueue.js): an ordered queue of
    operations on one fixed target, run front to back, where the first step
    whose mapper answers something other than `undefined` ends the run.

    Model choices, matched to the source:
    - An operation is an explicit function of the target and the step's
      arguments, instead of a method applied to the target as receiver.
    - An asynchronous operation receives the step's arguments plus a
      continuation; it is modelled by the value it hands to that continuation,
      which is taken to be delivered exactly once, before the next step starts.
    - As written, `async` and `sync` push onto `self.steps`, a property the
      object never has (PlayQueue.js:51, 67); the evident intent, pushing onto
      the local `steps` list, is what `Stepper.Async`/`Stepper.Sync` do.
    - As written, `async`/`sync` return nothing, so the chained calls of
      PlayQueue.js:144-153 cannot work; chaining is modelled as consecutive calls
      on the same object.
    - As written, `new Stepper(target)` only offers `construct()`, which builds
      the builder; the Dafny constructor stands for both together.
    - As written, nothing calls `runNextStep` again after a mapper's answer has
      been handled (PlayQueue.js:26-31, 52-57, 71-74), so a run stops after its
      first step; `Stepper.WithResultAsWritten` models that, and
      `Stepper.WithResult` models the intended "then run the next step". */
module Stepping {
  import opened JsValues

  /** One queued step: an operation on a target of type T exchanging values of
      type V, and the mapper that turns its raw value into a final answer
      (`Defined`) or the signal to continue (`Undefined`). */
  datatype Step<!T, !V, R> =
    | SyncStep(call: (T, seq<V>) -> V, args: seq<V>, mapper: V -> Maybe<R>)
    | AsyncStep(deliver: (T, seq<V>) -> V, args: seq<V>, mapper: V -> Maybe<R>)

  /** The raw value a step's operation produces: the return value of a
      synchronous call, or the value an asynchronous one delivers to its
      continuation. */
  function RawValue<T, V, R>(target: T, step: Step<T, V, R>): V
  {
    match step
    case SyncStep(call, args, _) => call(target, args)
    case AsyncStep(deliver, args, _) => deliver(target, args)
  }

  /** What a step's mapper answers for the step's raw value. */
  function Answer<T, V, R>(target: T, step: Step<T, V, R>): Maybe<R>
  {
    step.mapper(RawValue(target, step))
  }

  /** The value handed to the result handler when `steps` are run from a
      state whose final result is `init`: the first defined answer, or `init`
      when every answer is `undefined`. */
  function Fold<T, V, R>(init: Maybe<R>, target: T, steps: seq<Step<T, V, R>>): Maybe<R>
  {
    if |steps| == 0 then init
    else match Answer(target, steps[0])
      case Defined(r) => Defined(r)
      case Undefined => Fold(init, target, steps[1..])
  }

  /** How many of `steps`, from the front, have their operation invoked: up to
      and including the first with a defined answer, or all of them. */
  function Invoked<T, V, R>(target: T, steps: seq<Step<T, V, R>>): (n: nat)
    ensures n <= |steps|
    ensures |steps| > 0 ==> n >= 1
  {
    if |steps| == 0 then 0
    else if Answer(target, steps[0]).Defined? then 1
    else 1 + Invoked(target, steps[1..])
  }

  /** The arguments of a queued step, with the two-argument call form resolved:
      `async(func, callback)` means no arguments. */
  function ArgsOrEmpty<V>(args: Maybe<seq<V>>): seq<V>
  {
    match args
    case Undefined => []
    case Defined(a) => a
  }

  /** When the i-th step is the first with a defined answer, the run yields
      that answer and invokes exactly the first i + 1 operations. */
  lemma {:induction false} FoldFirstDefined<T, V, R>(init: Maybe<R>, target: T, steps: seq<Step<T, V, R>>, i: nat)
    requires i < |steps|
    requires Answer(target, steps[i]).Defined?
    requires forall j :: 0 <= j < i ==> Answer(target, steps[j]).Undefined?
    ensures Fold(init, target, steps) == Answer(target, steps[i])
    ensures Invoked(target, steps) == i + 1
  {
    if i > 0 {
      assert Answer(target, steps[0]).Undefined?;
      forall j | 0 <= j < i - 1
        ensures Answer(target, steps[1..][j]).Undefined?
      {
        assert steps[1..][j] == steps[j + 1];
      }
      FoldFirstDefined(init, target, steps[1..], i - 1);
    }
  }

  /** When every mapper answers `undefined`, every operation is invoked and the
      handler receives the initial final result (`undefined` for a new run). */
  lemma {:induction false} FoldAllUndefined<T, V, R>(init: Maybe<R>, target: T, steps: seq<Step<T, V, R>>)
    requires forall j :: 0 <= j < |steps| ==> Answer(target, steps[j]).Undefined?
    ensures Fold(init, target, steps) == init
    ensures Invoked(target, steps) == |steps|
  {
    if |steps| > 0 {
      assert Answer(target, steps[0]).Undefined?;
      forall j | 0 <= j < |steps| - 1
        ensures Answer(target, steps[1..][j]).Undefined?
      {
        assert steps[1..][j] == steps[j + 1];
      }
      FoldAllUndefined(init, target, steps[1..]);
    }
  }

  /** Running `first + rest`: once `first` has produced a defined answer,
      nothing in `rest` matters and none of its operations is invoked;
      otherwise the run continues into `rest` after all of `first`. */
  lemma {:induction false} FoldAppend<T, V, R>(init: Maybe<R>, target: T, first: seq<Step<T, V, R>>, rest: seq<Step<T, V, R>>)
    ensures Fold(Undefined, target, first).Defined? ==>
      Fold(init, target, first + rest) == Fold(Undefined, target, first) &&
      Invoked(target, first + rest) == Invoked(target, first)
    ensures Fold(Undefined, target, first).Undefined? ==>
      Fold(init, target, first + rest) == Fold(init, target, rest) &&
      Invoked(target, first + rest) == |first| + Invoked(target, rest)
  {
    if |first| > 0 {
      assert (first + rest)[0] == first[0];
      assert (first + rest)[1..] == first[1..] + rest;
      FoldAppend(init, target, first[1..], rest);
    } else {
      assert first + rest == rest;
    }
  }

  /** The builder returned by `new Stepper(target).construct()`. */
  class Stepper<T, V, R> {
    /** The receiver every step's operation is applied to. */
    const target: T
    /** Steps not yet run, front first. */
    var steps: seq<Step<T, V, R>>
    /** The last defined mapper answer, `undefined` until there is one. */
    var finalResult: Maybe<R>
    /** The steps whose operation has been invoked, in invocation order. */
    ghost var invoked: seq<Step<T, V, R>>
    /** The values passed to the result handler, in call order. Unlike
        `invoked`, this log is compiled: it stands for what the handler
        observes, and `IsLastIndexAsWritten` returns it to its caller. */
    var delivered: seq<Maybe<R>>

    constructor (target: T)
      ensures this.target == target
      ensures steps == [] && finalResult == Undefined
      ensures invoked == [] && delivered == []
    {
      this.target := target;
      steps := [];
      finalResult := Undefined;
      invoked := [];
      delivered := [];
    }

    /** `async(func, args, callback)`: queue a step at the back; nothing runs. */
    method Async(deliver: (T, seq<V>) -> V, args: Maybe<seq<V>>, mapper: V -> Maybe<R>)
      modifies this`steps
      ensures steps == old(steps) + [AsyncStep(deliver, ArgsOrEmpty(args), mapper)]
    {
      steps := steps + [AsyncStep(deliver, ArgsOrEmpty(args), mapper)];
    }

    /** `sync(func, args, callback)`: queue a step at the back; nothing runs. */
    method Sync(call: (T, seq<V>) -> V, args: Maybe<seq<V>>, mapper: V -> Maybe<R>)
      modifies this`steps
      ensures steps == old(steps) + [SyncStep(call, ArgsOrEmpty(args), mapper)]
    {
      steps := steps + [SyncStep(call, ArgsOrEmpty(args), mapper)];
    }

    /** `gotResult`: a defined answer discards the remaining steps and becomes
        the final result; `undefined` changes nothing. */
    method GotResult(cbResult: Maybe<R>)
      modifies this`steps, this`finalResult
      ensures cbResult.Defined? ==> steps == [] && finalResult == cbResult
      ensures cbResult.Undefined? ==> steps == old(steps) && finalResult == old(finalResult)
    {
      if cbResult.Defined? {
        steps := [];
        finalResult := cbResult;
      }
    }

    /** `runNextStep`: take the front step and run it, or, with no step left,
        hand the final result to the result handler. */
    method RunNextStep()
      modifies this
      ensures old(steps) != [] ==>
        invoked == old(invoked) + [old(steps)[0]] &&
        delivered == old(delivered) &&
        (Answer(target, old(steps)[0]).Defined? ==>
          steps == [] && finalResult == Answer(target, old(steps)[0])) &&
        (Answer(target, old(steps)[0]).Undefined? ==>
          steps == old(steps)[1..] && finalResult == old(finalResult))
      ensures old(steps) == [] ==>
        steps == [] && finalResult == old(finalResult) &&
        invoked == old(invoked) && delivered == old(delivered) + [finalResult]
    {
      if |steps| > 0 {
        var step := steps[0];
        steps := steps[1..];
        invoked := invoked + [step];
        var cbResult;
        match step {
          case SyncStep(call, args, mapper) =>
            var result := call(target, args);
            cbResult := mapper(result);
          case AsyncStep(deliver, args, mapper) =>
            // the value the operation passes to the continuation it was given
            var result := deliver(target, args);
            cbResult := mapper(result);
        }
        GotResult(cbResult);
      } else {
        delivered := delivered + [finalResult];
      }
    }

    /** `withResult(callback)` with the intended control flow: run the steps in
        the order they were queued until one answers or none is left, then
        call the result handler exactly once. */
    method WithResult() returns (result: Maybe<R>)
      modifies this
      ensures result == Fold(old(finalResult), target, old(steps))
      ensures invoked == old(invoked) + old(steps)[..Invoked(target, old(steps))]
      ensures delivered == old(delivered) + [result]
      ensures steps == [] && finalResult == result
    {
      ghost var k := 0;
      while |steps| > 0
        invariant k <= |old(steps)|
        invariant steps == [] || steps == old(steps)[k..]
        invariant invoked == old(invoked) + old(steps)[..k]
        invariant Invoked(target, old(steps)) == k + Invoked(target, steps)
        invariant Fold(finalResult, target, steps) == Fold(old(finalResult), target, old(steps))
        invariant delivered == old(delivered)
        decreases |steps|
      {
        assert steps[0] == old(steps)[k];
        assert old(steps)[..k + 1] == old(steps)[..k] + [old(steps)[k]];
        RunNextStep();
        k := k + 1;
      }
      RunNextStep();
      result := finalResult;
    }

    /** `withResult(callback)` as written: `runNextStep` runs once, so when a
        step is queued only the first one runs and the handler is never called;
        the rest of the list stays queued unless that step answered. */
    method WithResultAsWritten()
      modifies this
      ensures old(steps) != [] ==>
        invoked == old(invoked) + [old(steps)[0]] &&
        delivered == old(delivered) &&
        (Answer(target, old(steps)[0]).Defined? ==>
          steps == [] && finalResult == Answer(target, old(steps)[0])) &&
        (Answer(target, old(steps)[0]).Undefined? ==>
          steps == old(steps)[1..] && finalResult == old(finalResult))
      ensures old(steps) == [] ==>
        steps == [] && finalResult == old(finalResult) &&
        invoked == old(invoked) && delivered == old(delivered) + [finalResult]
    {
      RunNextStep();
    }
  }
}
