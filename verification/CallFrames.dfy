/** The methods that push, return and unwind calls in place, and the fast paths that skip checks. */
module CallFrames {
  import opened StackCapacity
  import opened Wrappers
  import opened CallStack
  import opened CallLaws
  import opened CallRuns
  import opened ThreadState
  import opened ThreadSteps

  class CallThread {
    var values: seq<Value>
    var length: nat
    var frames: seq<Activation>
    var continuations: seq<Continuation>
    var top: nat
    var frameExtent: nat
    var frameCapacity: nat
    var openUpvalues: seq<nat>
    var activeNativeToken: nat
    var nativeCallDepth: nat
    var runtimeNativeDepth: nat
    var nativeSequence: nat
    var errorHandlerDepth: nat
    var valueLimit: nat
    var frameLimit: nat
    const options: Options

    /** The stack as a value. */
    ghost function Snapshot(): Stack
      reads this
    {
      Stack(values, length, frames, continuations, top, frameExtent)
    }

    /** The whole thread as a value. */
    ghost function AsThread(): Thread
      reads this
    {
      Thread(Snapshot(), openUpvalues, activeNativeToken, nativeCallDepth, runtimeNativeDepth, nativeSequence, errorHandlerDepth)
    }

    /** The limits in force are those for the number of error handlers that run. */
    ghost predicate Limited()
      reads this
    {
      valueLimit == ValueLimit(options, errorHandlerDepth) && frameLimit == FrameLimit(options, errorHandlerDepth)
    }

    /** Capacities never exceed the limits in force. */
    ghost predicate Bounded()
      reads this
    {
      length <= |values| <= valueLimit && length <= INDEX_LIMIT && |frames| <= frameCapacity <= frameLimit
    }

    constructor (options: Options)
      ensures Bounded() && Limited() && Valid(Snapshot()) && frames == [] && top == frameExtent == 0 && this.options == options
      ensures openUpvalues == [] && activeNativeToken == nativeCallDepth == runtimeNativeDepth == errorHandlerDepth == 0
    {
      values, length, frames, continuations, top, frameExtent, frameCapacity := [], 0, [], [], 0, 0, 0;
      openUpvalues, activeNativeToken, nativeCallDepth, runtimeNativeDepth, nativeSequence, errorHandlerDepth := [], 0, 0, 0, 0, 0;
      valueLimit, frameLimit := options.maxValues, options.maxFrames;
      this.options := options;
    }

    /** Cells at or past a slot are closed, from the highest down. */
    method CloseUpvalues(from: nat)
      modifies `openUpvalues
      ensures openUpvalues == ClosedFrom(old(openUpvalues), from)
    {
      while openUpvalues != [] && openUpvalues[0] >= from
        invariant ClosedFrom(openUpvalues, from) == ClosedFrom(old(openUpvalues), from)
        decreases |openUpvalues|
      {
        openUpvalues := openUpvalues[1..];
      }
    }

    // ----- slots -----

    method Fill(from: nat, to: nat, value: Value)
      requires to <= |values|
      modifies `values
      ensures values == Filled(old(values), from, to, value)
    {
      var index := from;
      while index < to
        invariant from <= index && |values| == |old(values)|
        invariant index <= to || index == from
        invariant forall i :: 0 <= i < |values| ==> values[i] == if from <= i < index then value else old(values)[i]
      {
        values := values[index := value];
        index := index + 1;
      }
    }

    method ClearInactive(from: nat, to: nat)
      requires length <= |values|
      modifies `values
      ensures values == Filled(old(values), from, Min(to, length), Empty)
    {
      var end := if to > length then length else to;
      Fill(from, end, Empty);
    }

    method CopySlots(target: nat, source: nat, count: nat)
      requires source + count <= |values| && target + count <= |values|
      modifies `values
      ensures values == Moved(old(values), target, source, count)
    {
      values := values[..target] + values[source..source + count] + values[target + count..];
    }

    method ClearDeadSuffix(oldExtent: nat)
      requires length <= |values|
      modifies `values
      ensures Snapshot() == Settled(old(Snapshot()), oldExtent)
    {
      var live := if frameExtent > top then frameExtent else top;
      if live < oldExtent {
        ClearInactive(live, oldExtent);
      }
    }

    method ReserveValues(required: nat)
      requires required <= valueLimit && length <= |values| <= valueLimit
      modifies `values, `length
      ensures Snapshot() == Reserved(old(Snapshot()), required, valueLimit)
    {
      if required <= length {
        return;
      }
      if required > |values| {
        var capacity := GrownCapacity(|values|, required, valueLimit);
        values := values + Blank(capacity - |values|);
      }
      length := required;
    }

    method ReserveFrames(required: nat)
      requires required <= frameLimit && frameCapacity <= frameLimit
      modifies `frameCapacity
      ensures required <= frameCapacity <= frameLimit && old(frameCapacity) <= frameCapacity
    {
      if required <= frameCapacity {
        return;
      }
      var capacity := if frameCapacity < 8 then 8 else frameCapacity;
      if capacity > frameLimit {
        capacity := frameLimit;
      }
      while capacity < required
        invariant frameCapacity <= capacity <= frameLimit
        decreases frameLimit - capacity
      {
        var growth := if capacity / 2 == 0 then 1 else capacity / 2;
        if capacity > frameLimit - growth {
          capacity := frameLimit;
          break;
        }
        capacity := capacity + growth;
      }
      frameCapacity := capacity;
    }

    // ----- calls -----

    method CopyParametersUp(f: Shape, l: Layout)
      requires ShapeValid(f) && f.LuaShape? && l.base + f.registers == l.frameEnd <= |values| && l.resultBase + 1 + f.parameters <= l.base
      modifies `values
      ensures values == ParametersUp(old(values), f, l)
    {
      var first := l.resultBase + 1;
      if l.argumentCount < f.parameters {
        Fill(first + l.argumentCount, first + f.parameters, Nil);
      } else {
        FilledNothing(values, first + l.argumentCount, first + f.parameters, Nil);
      }
      Fill(l.base, l.frameEnd, Nil);
      CopySlots(l.base, first, f.parameters);
    }

    method SetupVararg(f: Shape, l: Layout, legacy: Value)
      requires ShapeValid(f) && f.LuaShape? && l.base + f.registers == l.frameEnd <= |values| && l.resultBase + 1 + f.parameters <= l.base
      modifies `values
      ensures values == VarargSlots(old(values), f, l, legacy)
    {
      CopyParametersUp(f, l);
      Fill(l.resultBase + 1, l.resultBase + 1 + f.parameters, Nil);
      if f.needsArg {
        values := values[l.base + f.parameters := legacy];
      }
    }

    method SetupFunctionCall(f: Shape, l: Layout, legacy: Value)
      requires ShapeValid(f) && LayoutFits(f, l, |values|)
      modifies `values
      ensures values == SetUp(old(values), f, l, legacy)
    {
      if f.NativeShape? {
        return;
      }
      if f.vararg {
        SetupVararg(f, l, legacy);
        return;
      }
      var preserved := if f.parameters > l.argumentCount then l.argumentCount else f.parameters;
      Fill(l.base + preserved, l.frameEnd, Nil);
    }

    method PublishFunctionCall(f: Shape, base: nat, resultBase: nat, frameEnd: nat, wanted: int)
      modifies `frames, `top, `frameExtent
      ensures Snapshot() == Published(old(Snapshot()), f, base, resultBase, frameEnd, wanted)
    {
      frames := frames + [Activation(f, base, resultBase, 0, frameExtent, wanted)];
      top := frameEnd;
      if frameEnd > frameExtent {
        frameExtent := frameEnd;
      }
    }

    /** The checked path: limits are tested before anything changes. */
    method PushFunctionCall(f: Shape, resultBase: nat, argumentCount: nat, wanted: int, legacy: Value) returns (ok: bool)
      requires Bounded() && Valid(Snapshot()) && NothingPending(Snapshot()) && ShapeValid(f)
      requires CallFits(Snapshot(), resultBase, argumentCount, wanted)
      modifies `values, `length, `frames, `top, `frameExtent, `frameCapacity
      ensures Bounded() && Valid(Snapshot())
      ensures ok <==> |old(frames)| < frameLimit && Plan(f, resultBase, argumentCount, wanted, valueLimit).Some?
      ensures ok ==> Snapshot() == Pushed(old(Snapshot()), f, Plan(f, resultBase, argumentCount, wanted, valueLimit).value, valueLimit, legacy)
      ensures ok ==> FrameStarts(old(values), values, f, resultBase, resultBase, argumentCount, legacy)
      ensures ok ==> Unchanged(old(values), values, EndOf(f, resultBase, argumentCount), old(frameExtent))
      ensures ok ==> top == EndOf(f, resultBase, argumentCount)
      ensures ok ==> frames == old(frames) + [Activation(f, BaseOf(f, resultBase, argumentCount), resultBase, 0, old(frameExtent), wanted)]
      ensures !ok ==> Snapshot() == old(Snapshot())
    {
      var plan := Plan(f, resultBase, argumentCount, wanted, valueLimit);
      if |frames| >= frameLimit || plan.None? {
        return false;
      }
      ghost var s := Snapshot();
      var l := plan.value;
      PushedValid(s, f, l, valueLimit, legacy);
      PushedShape(s, f, l, valueLimit, legacy);
      PlanLaysOut(f, resultBase, argumentCount, wanted, valueLimit);
      PushedSlots(s, f, l, valueLimit, legacy, Pushed(s, f, l, valueLimit, legacy));
      CommitCall(f, l, legacy);
      ok := true;
    }

    method CommitCall(f: Shape, l: Layout, legacy: Value)
      requires Bounded() && ShapeValid(f) && LayoutFits(f, l, valueLimit) && |frames| < frameLimit
      modifies `values, `length, `frames, `top, `frameExtent, `frameCapacity
      ensures Snapshot() == Pushed(old(Snapshot()), f, l, valueLimit, legacy)
      ensures |values| <= valueLimit && length <= INDEX_LIMIT && |frames| <= frameCapacity <= frameLimit
    {
      ReserveValues(l.required);
      ReserveFrames(|frames| + 1);
      var oldExtent := if frameExtent > top then frameExtent else top;
      SetupFunctionCall(f, l, legacy);
      PublishFunctionCall(f, l.base, l.resultBase, l.frameEnd, l.wanted);
      ClearDeadSuffix(oldExtent);
    }

    /** A tail call takes the place of its caller. */
    method ReplaceFunctionCall(f: Shape, callBase: nat, argumentCount: nat, legacy: Value) returns (ok: bool)
      requires Bounded() && Valid(Snapshot()) && NothingPending(Snapshot()) && ShapeValid(f) && frames != []
      requires frames[|frames| - 1].resultBase <= callBase && callBase + 1 + argumentCount <= top
      modifies `values, `length, `frames, `top, `frameExtent, `openUpvalues
      ensures openUpvalues == if ok then ClosedFrom(old(openUpvalues), old(frames)[|old(frames)| - 1].base) else old(openUpvalues)
      ensures Bounded() && Valid(Snapshot())
      ensures var current := old(frames)[|old(frames)| - 1];
              var plan := Plan(f, current.resultBase, argumentCount, current.wanted, valueLimit);
              ok == plan.Some? &&
              Snapshot() == if ok then Replaced(old(Snapshot()), f, callBase, plan.value, valueLimit, legacy, TAIL_CALLS) else old(Snapshot())
      ensures var current := old(frames)[|old(frames)| - 1];
              ok ==> FrameStarts(old(values), values, f, current.resultBase, callBase, argumentCount, legacy) &&
                     top == EndOf(f, current.resultBase, argumentCount) && |frames| == |old(frames)| &&
                     frames[..|frames| - 1] == old(frames)[..|frames| - 1] &&
                     frames[|frames| - 1].(tailCalls := current.tailCalls) ==
                       current.(shape := f, base := BaseOf(f, current.resultBase, argumentCount))
    {
      var n := |frames| - 1;
      var current := frames[n];
      var plan := Plan(f, current.resultBase, argumentCount, current.wanted, valueLimit);
      if plan.None? {
        return false;
      }
      ReplacedValid(Snapshot(), f, callBase, plan.value, valueLimit, legacy, TAIL_CALLS);
      PlanLaysOut(f, current.resultBase, argumentCount, current.wanted, valueLimit);
      ReplacedSlots(Snapshot(), f, callBase, plan.value, valueLimit, legacy, TAIL_CALLS,
                    Replaced(Snapshot(), f, callBase, plan.value, valueLimit, legacy, TAIL_CALLS));
      CommitTailCall(f, callBase, plan.value, legacy);
      ok := true;
    }

    method CommitTailCall(f: Shape, callBase: nat, l: Layout, legacy: Value)
      requires Bounded() && ShapeValid(f) && frames != [] && callBase + 1 + l.argumentCount <= length
      requires LayoutFits(f, l, valueLimit)
      modifies `values, `length, `frames, `top, `frameExtent, `openUpvalues
      ensures openUpvalues == ClosedFrom(old(openUpvalues), old(frames)[|old(frames)| - 1].base)
      ensures Snapshot() == Replaced(old(Snapshot()), f, callBase, l, valueLimit, legacy, TAIL_CALLS)
      ensures |frames| == |old(frames)| && |values| <= valueLimit
    {
      var oldExtent := if frameExtent > top then frameExtent else top;
      CloseUpvalues(frames[|frames| - 1].base);
      MoveTail(f, callBase, l, legacy);
      PublishTailCall(f, l);
      ClearDeadSuffix(oldExtent);
    }

    method PublishTailCall(f: Shape, l: Layout)
      requires frames != []
      modifies `frames, `top, `frameExtent
      ensures Snapshot() == TailPublished(old(Snapshot()), f, l, TAIL_CALLS)
    {
      var n := |frames| - 1;
      var current := frames[n];
      var tails := if current.tailCalls < TAIL_CALLS then current.tailCalls + 1 else current.tailCalls;
      frames := frames[n := Activation(f, l.base, current.resultBase, tails, current.callerExtent, current.wanted)];
      top := l.frameEnd;
      frameExtent := current.callerExtent;
      if l.frameEnd > frameExtent {
        frameExtent := l.frameEnd;
      }
    }

    method MoveTail(f: Shape, callBase: nat, l: Layout, legacy: Value)
      requires length <= |values| <= valueLimit && ShapeValid(f) && callBase + 1 + l.argumentCount <= length
      requires LayoutFits(f, l, valueLimit)
      modifies `values, `length
      ensures Snapshot() == TailSlots(old(Snapshot()), f, callBase, l, valueLimit, legacy)
    {
      ReserveValues(l.required);
      MoveArguments(f, callBase, l, legacy);
    }

    method MoveArguments(f: Shape, callBase: nat, l: Layout, legacy: Value)
      requires ShapeValid(f) && callBase + 1 + l.argumentCount <= |values| && LayoutFits(f, l, |values|)
      modifies `values
      ensures values == TailArguments(old(values), f, callBase, l, legacy)
    {
      CopySlots(l.resultBase, callBase, l.argumentCount + 1);
      SetupFunctionCall(f, l, legacy);
    }

    // ----- returns -----

    method TopAfterReturn(outputCount: nat) returns (newTop: nat)
      requires frames != []
      ensures newTop == NewTop(Snapshot(), outputCount)
    {
      var frameIndex := |frames| - 1;
      var frame := frames[frameIndex];
      newTop := frame.resultBase + outputCount;
      if frame.wanted != ALL_RESULTS && frameIndex != 0 {
        var caller := frames[frameIndex - 1];
        if caller.shape.LuaShape? {
          newTop := caller.base + caller.shape.registers;
        }
      }
    }

    /** Results are copied to where they go, which may overlap, and padded. */
    method HandDown(resultBase: nat, firstResult: nat, resultCount: nat, outputCount: nat)
      requires firstResult + resultCount <= |values| && resultBase + outputCount <= |values|
      modifies `values
      ensures values == HandedDown(old(values), resultBase, firstResult, resultCount, outputCount)
    {
      var copyCount := if resultCount > outputCount then outputCount else resultCount;
      CopySlots(resultBase, firstResult, copyCount);
      Fill(resultBase + copyCount, resultBase + outputCount, Nil);
    }

    /** A return without range checks. */
    method CompleteLuaReturn(firstResult: nat, resultCount: nat, outputCount: nat, newTop: nat)
      requires frames != [] && firstResult + resultCount <= length <= |values|
      requires frames[|frames| - 1].resultBase + outputCount <= |values|
      modifies `values, `frames, `top, `frameExtent, `openUpvalues
      ensures openUpvalues == ClosedFrom(old(openUpvalues), old(frames)[|old(frames)| - 1].base)
      ensures Snapshot() == Popped(old(Snapshot()),
                HandedDown(old(values), old(frames)[|old(frames)| - 1].resultBase, firstResult, resultCount, outputCount), newTop)
    {
      var frame := frames[|frames| - 1];
      var oldExtent := if frameExtent > top then frameExtent else top;
      CloseUpvalues(frame.base);
      HandDown(frame.resultBase, firstResult, resultCount, outputCount);
      frames := frames[..|frames| - 1];
      SetExtents(frame.callerExtent, newTop, oldExtent);
    }

    /** The checked return: none of its range checks can fail on a valid stack. */
    method FinishLuaCall(firstResult: nat, resultCount: nat)
      requires Bounded() && Valid(Snapshot()) && NothingPending(Snapshot()) && frames != []
      requires firstResult + resultCount <= Live(Snapshot()) && frames[|frames| - 1].resultBase <= firstResult
      modifies `values, `frames, `top, `frameExtent, `openUpvalues
      ensures openUpvalues == ClosedFrom(old(openUpvalues), old(frames)[|old(frames)| - 1].base)
      ensures Bounded() && Valid(Snapshot())
      ensures ALL_RESULTS <= old(frames)[|old(frames)| - 1].wanted && Snapshot() == FinishedLua(old(Snapshot()), firstResult, resultCount)
      ensures var wanted := old(frames)[|old(frames)| - 1].wanted;
        Returns(old(Snapshot()), Snapshot(), firstResult, resultCount, if wanted == -1 then resultCount else wanted)
    {
      FinishedLuaValid(Snapshot(), firstResult, resultCount);
      FinishedLuaSlots(Snapshot(), firstResult, resultCount, FinishedLua(Snapshot(), firstResult, resultCount));
      var frameIndex := |frames| - 1;
      var frame := frames[frameIndex];
      var outputCount: nat := if frame.wanted == ALL_RESULTS then resultCount else frame.wanted;
      assert frame.resultBase + outputCount <= length by {
        assert FrameValid(frames, frameExtent, frameIndex);
      }
      var newTop := TopAfterReturn(outputCount);
      CompleteLuaReturn(firstResult, resultCount, outputCount, newTop);
    }

    method FinishNativeCall(outputCount: nat)
      requires Bounded() && Valid(Snapshot()) && NothingPending(Snapshot()) && frames != []
      requires frames[|frames| - 1].resultBase + outputCount <= Live(Snapshot()) && frames[|frames| - 1].wanted in {ALL_RESULTS, outputCount}
      modifies `values, `frames, `top, `frameExtent
      ensures Bounded() && Valid(Snapshot()) && Snapshot() == FinishedNative(old(Snapshot()), outputCount)
      ensures Returns(old(Snapshot()), Snapshot(), old(frames)[|old(frames)| - 1].resultBase, outputCount, outputCount)
    {
      FinishedNativeValid(Snapshot(), outputCount);
      FinishedNativeSlots(Snapshot(), outputCount, FinishedNative(Snapshot(), outputCount));
      var frameIndex := |frames| - 1;
      var frame := frames[frameIndex];
      var oldExtent := if frameExtent > top then frameExtent else top;
      var newTop := TopAfterReturn(outputCount);
      frames := frames[..frameIndex];
      frameExtent := frame.callerExtent;
      top := newTop;
      ClearDeadSuffix(oldExtent);
    }

    method UnwindCalls(stopDepth: nat)
      requires Bounded() && Valid(Snapshot()) && stopDepth <= |frames|
      modifies `values, `frames, `continuations, `top, `frameExtent, `openUpvalues
      ensures Bounded() && Valid(Snapshot())
      ensures Snapshot() == if stopDepth == |old(frames)| then old(Snapshot()) else Unwound(old(Snapshot()), stopDepth)
      ensures stopDepth < |old(frames)| ==> Unwinds(old(Snapshot()), Snapshot(), stopDepth)
      ensures openUpvalues == UnwoundCells(old(frames), old(openUpvalues), stopDepth)
    {
      if stopDepth == |frames| {
        return;
      }
      UnwoundValid(Snapshot(), stopDepth);
      UnwoundSlots(Snapshot(), stopDepth, Unwound(Snapshot(), stopDepth));
      var oldExtent := if frameExtent > top then frameExtent else top;
      var extent := frames[stopDepth].callerExtent;
      var newTop := extent;
      CloseFrames(stopDepth);
      extent, newTop := PopContinuations(stopDepth, extent);
      SetExtents(extent, newTop, oldExtent);
    }

    method SetExtents(extent: nat, newTop: nat, oldExtent: nat)
      requires length <= |values|
      modifies `values, `top, `frameExtent
      ensures Snapshot() == Settled(old(Snapshot()).(frameExtent := extent, top := newTop), oldExtent)
    {
      frameExtent := extent;
      top := newTop;
      ClearDeadSuffix(oldExtent);
    }

    /** Frames go from the top down, each with its cells. */
    method CloseFrames(stopDepth: nat)
      requires stopDepth <= |frames|
      modifies `frames, `openUpvalues
      ensures frames == old(frames)[..stopDepth] && openUpvalues == UnwoundCells(old(frames), old(openUpvalues), stopDepth)
    {
      while |frames| > stopDepth
        invariant stopDepth <= |frames| <= |old(frames)| && frames == old(frames)[..|frames|]
        invariant UnwoundCells(frames, openUpvalues, stopDepth) == UnwoundCells(old(frames), old(openUpvalues), stopDepth)
        decreases |frames|
      {
        CloseUpvalues(frames[|frames| - 1].base);
        frames := frames[..|frames| - 1];
      }
    }

    /** Continuations of frames from `stopDepth` on go; one that waited for the first of them says what to go back to. */
    method PopContinuations(stopDepth: nat, callerExtent: nat) returns (extent: nat, newTop: nat)
      requires forall j, k :: 0 <= j < k < |continuations| ==> continuations[j].frameDepth < continuations[k].frameDepth
      modifies `continuations
      ensures var all, n := old(continuations), KeptContinuations(old(continuations), stopDepth);
              continuations == all[..n] &&
              if n < |all| && all[n].frameDepth == stopDepth then extent == all[n].savedExtent && newTop == all[n].savedTop
              else extent == newTop == callerExtent
    {
      extent, newTop := callerExtent, callerExtent;
      ghost var all, kept := continuations, KeptContinuations(continuations, stopDepth);
      while continuations != [] && continuations[|continuations| - 1].frameDepth >= stopDepth
        invariant |continuations| <= |all| && continuations == all[..|continuations|]
        invariant KeptContinuations(continuations, stopDepth) == kept
        invariant var n := |continuations|;
          if n < |all| && all[n].frameDepth == stopDepth then extent == all[n].savedExtent && newTop == all[n].savedTop
          else extent == newTop == callerExtent
        decreases |continuations|
      {
        var last := |continuations| - 1;
        if continuations[last].frameDepth == stopDepth {
          extent := continuations[last].savedExtent;
          newTop := continuations[last].savedTop;
        }
        assert last + 1 < |all| ==> all[last].frameDepth < all[last + 1].frameDepth;
        continuations := continuations[..last];
      }
    }

    // ----- the fast paths -----

    /** The frame on top is a Lua function's whose registers are live and which has no open results beyond them. */
    ghost predicate Executing()
      reads this
    {
      Bounded() && Valid(Snapshot()) && NothingPending(Snapshot()) && frames != [] && frames[|frames| - 1].shape.LuaShape? &&
      top == frames[|frames| - 1].base + frames[|frames| - 1].shape.registers
    }

    lemma ExecutingFrame()
      requires Executing()
      ensures top <= frameExtent <= length && frames[|frames| - 1].resultBase < frames[|frames| - 1].base
    {
      assert FrameValid(frames, frameExtent, |frames| - 1);
    }

    /** What the fast path for a Lua function tests; it looks at nothing the checked path would change. */
    method LuaCallIsFixed(callBase: nat, b: nat, c: nat) returns (ok: bool)
      requires callBase < |values|
      ensures ok ==> b > 0 && c > 0 && values[callBase].Callable? && |frames| < frameCapacity &&
                     var f := values[callBase].shape;
                     f.LuaShape? && !f.vararg && callBase + 1 + f.registers <= |values| && callBase + 1 + f.registers <= INDEX_LIMIT
    {
      if b == 0 || c == 0 {
        return false;
      }
      var callable := values[callBase];
      if !callable.Callable? || callable.shape.NativeShape? {
        return false;
      }
      if callable.shape.vararg || |frames| >= frameCapacity {
        return false;
      }
      var frameEnd := callBase + 1 + callable.shape.registers;
      ok := frameEnd <= INDEX_LIMIT && frameEnd <= |values|;
    }

    /** A direct fixed call.  Success is the very state the checked path produces, and no limit is exceeded. */
    method TryEnterFixedLuaCall(a: nat, b: nat, c: nat) returns (ok: bool)
      requires Executing()
      requires a + b <= frames[|frames| - 1].shape.registers && a + c <= frames[|frames| - 1].shape.registers + 1 &&
               a < frames[|frames| - 1].shape.registers
      requires CalleeValid(values, frames[|frames| - 1].base + a)
      modifies `length, `values, `frames, `top, `frameExtent
      ensures Bounded()
      ensures ok ==> b > 0 && c > 0 && |old(frames)| < frameLimit &&
                     Entered(old(Snapshot()), old(frames)[|old(frames)| - 1].base + a, b - 1, c - 1, valueLimit, Snapshot())
      ensures !ok ==> Snapshot() == old(Snapshot())
    {
      ExecutingFrame();
      var callBase := frames[|frames| - 1].base + a;
      ok := LuaCallIsFixed(callBase, b, c);
      if ok {
        EnterFixedLuaCall(values[callBase].shape, callBase, b - 1, c - 1);
      }
    }

    method EnterFixedLuaCall(f: Shape, callBase: nat, argumentCount: nat, wanted: nat)
      requires Executing() && |frames| < frameCapacity && ShapeValid(f) && f.LuaShape? && !f.vararg
      requires callBase < |values| && values[callBase] == Callable(f)
      requires callBase + 1 + argumentCount <= top && callBase + wanted <= top
      requires callBase + 1 + f.registers <= |values| && callBase + 1 + f.registers <= INDEX_LIMIT
      modifies `length, `values, `frames, `top, `frameExtent
      ensures Bounded()
      ensures Entered(old(Snapshot()), callBase, argumentCount, wanted, valueLimit, Snapshot())
    {
      ExecutingFrame();
      var base := callBase + 1;
      var frameEnd := base + f.registers;
      FixedLuaCall(Snapshot(), f, callBase, argumentCount, wanted, valueLimit);
      SetupFixedLuaCall(f, base, frameEnd, argumentCount);
      PublishFunctionCall(f, base, callBase, frameEnd, wanted);
    }

    /** The stack is extended within its capacity and the registers past the arguments are nil. */
    method SetupFixedLuaCall(f: Shape, base: nat, frameEnd: nat, argumentCount: nat)
      requires f.LuaShape? && frameEnd <= |values|
      modifies `length, `values
      ensures length == Max(old(length), frameEnd)
      ensures values == Filled(old(values), base + Min(f.parameters, argumentCount), frameEnd, Nil)
    {
      if frameEnd > length {
        length := frameEnd;
      }
      var preserved := if f.parameters > argumentCount then argumentCount else f.parameters;
      Fill(base + preserved, frameEnd, Nil);
    }

    /** A direct fixed call of a native function whose windows are already there. */
    method TryEnterFixedNativeCall(a: nat, b: nat, c: nat) returns (ok: bool)
      requires Executing()
      requires a + b <= frames[|frames| - 1].shape.registers && a < frames[|frames| - 1].shape.registers
      modifies `frames, `top, `frameExtent
      ensures Bounded()
      ensures ok ==> b > 0 && c > 0 && |old(frames)| < frameLimit &&
                     Entered(old(Snapshot()), old(frames)[|old(frames)| - 1].base + a, b - 1, c - 1, valueLimit, Snapshot())
      ensures !ok ==> Snapshot() == old(Snapshot())
    {
      ExecutingFrame();
      var callerBase := frames[|frames| - 1].base;
      if b == 0 || c == 0 {
        return false;
      }
      var callBase := callerBase + a;
      if values[callBase] != Callable(NativeShape) {
        return false;
      }
      if |frames| >= frameCapacity || |frames| >= frameLimit {
        return false;
      }
      var frameEnd := callBase + b;
      var required := if callBase + (c - 1) > frameEnd then callBase + (c - 1) else frameEnd;
      if required > INDEX_LIMIT || required > length || required > valueLimit {
        return false;
      }
      EnterFixedNativeCall(callBase, b - 1, c - 1);
      ok := true;
    }

    method EnterFixedNativeCall(callBase: nat, argumentCount: nat, wanted: nat)
      requires Executing() && |frames| < frameCapacity && callBase + 1 + argumentCount <= top && callBase + wanted <= length
      modifies `frames, `top, `frameExtent
      ensures Bounded() && EnteredAs(old(Snapshot()), NativeShape, callBase, argumentCount, wanted, valueLimit, Snapshot())
    {
      ExecutingFrame();
      FixedNativeCall(Snapshot(), callBase, argumentCount, wanted, valueLimit);
      PublishFunctionCall(NativeShape, callBase + 1, callBase, callBase + 1 + argumentCount, wanted);
    }

    /** A return to a caller that wanted a fixed number of results, unless an instruction waits for it. The driver's
        stop depth is below the frame on top, so the caller is a Lua function. */
    method TryCompleteFixedLuaReturn(stopDepth: nat, a: nat, b: nat) returns (ok: bool)
      requires Executing() && stopDepth < |frames| - 1 && LuaBetween(frames, stopDepth)
      requires b > 0 ==> a + (b - 1) <= frames[|frames| - 1].shape.registers
      modifies `values, `frames, `top, `frameExtent, `openUpvalues
      ensures ok ==> b > 0 && CompletedAs(old(Snapshot()), old(frames)[|old(frames)| - 1].base + a, b - 1, Snapshot())
      ensures ok ==> openUpvalues == ClosedFrom(old(openUpvalues), old(frames)[|old(frames)| - 1].base) && LuaBetween(frames, stopDepth)
      ensures !ok ==> Snapshot() == old(Snapshot()) && openUpvalues == old(openUpvalues)
    {
      ghost var before := Snapshot();
      assert frames[|frames| - 2].shape.LuaShape?;
      var postDepth := |frames| - 1;
      if b == 0 || frames[postDepth].wanted == ALL_RESULTS {
        return false;
      }
      if continuations != [] && continuations[|continuations| - 1].frameDepth == postDepth {
        return false;
      }
      CompleteFixedReturn(frames[postDepth].base + a, b - 1, before);
      ok := true;
    }

    method CompleteFixedReturn(firstResult: nat, resultCount: nat, ghost before: Stack)
      requires Executing() && before == Snapshot() && |frames| >= 2 && frames[|frames| - 2].shape.LuaShape? && frames[|frames| - 1].wanted != ALL_RESULTS
      requires firstResult + resultCount <= top && frames[|frames| - 1].base <= firstResult
      requires continuations == [] || continuations[|continuations| - 1].frameDepth != |frames| - 1
      modifies `values, `frames, `top, `frameExtent, `openUpvalues
      ensures CompletedAs(before, firstResult, resultCount, Snapshot()) && frames == old(frames)[..|old(frames)| - 1]
      ensures openUpvalues == ClosedFrom(old(openUpvalues), old(frames)[|old(frames)| - 1].base)
    {
      ExecutingFrame();
      var frame, caller := frames[|frames| - 1], frames[|frames| - 2];
      FixedReturn(Snapshot(), firstResult, resultCount);
      FinishedShape(Snapshot(), firstResult, resultCount);
      CompleteLuaReturn(firstResult, resultCount, frame.wanted, caller.base + caller.shape.registers);
    }

    // ----- checkpoints -----

    method CaptureCheckpoint() returns (cp: ThreadCheckpoint)
      ensures cp == CapturedThread(AsThread())
    {
      var liveExtent := if frameExtent > top then frameExtent else top;
      cp := ThreadCheckpoint(Checkpoint(|frames|, |continuations|, top, frameExtent, liveExtent),
                             activeNativeToken, nativeCallDepth, runtimeNativeDepth);
    }

    /** Everything above the checkpoint goes with its cells, and what it had above its extent is emptied. */
    method Restore(cp: ThreadCheckpoint, clearScratch: bool) returns (previousExtent: nat)
      requires length <= |values| && CanRestore(AsThread(), cp)
      modifies `values, `frames, `continuations, `top, `frameExtent, `openUpvalues
      ensures AsThread() == RestoredThread(old(AsThread()), cp, clearScratch) && previousExtent == Live(old(Snapshot()))
      ensures openUpvalues != [] ==> openUpvalues[0] < cp.stack.liveExtent
    {
      previousExtent := if frameExtent > top then frameExtent else top;
      CloseUpvalues(cp.stack.liveExtent);
      frames := frames[..cp.stack.frameDepth];
      continuations := continuations[..cp.stack.continuationDepth];
      top := cp.stack.top;
      frameExtent := cp.stack.frameExtent;
      if clearScratch {
        ClearInactive(cp.stack.liveExtent, previousExtent);
      }
    }

    // ----- error handlers -----

    /** The first handler raises the limits. */
    method EnterErrorHandler()
      requires Limited() && !EnterFails(AsThread())
      modifies `errorHandlerDepth, `valueLimit, `frameLimit
      ensures Limited() && AsThread() == EnteredHandler(old(AsThread()))
      ensures var values, frames := options.maxValues, options.maxFrames;
        valueLimit == Min(MACHINE_INT, values + if values < 512 then 64 else values / 8) &&
        frameLimit == Min(MACHINE_INT, frames + if frames < 64 then 8 else frames / 8)
    {
      if errorHandlerDepth == 0 {
        valueLimit := ProtectedLimit(options.maxValues, VALUE_RESERVE);
        frameLimit := ProtectedLimit(options.maxFrames, FRAME_RESERVE);
      }
      errorHandlerDepth := errorHandlerDepth + 1;
    }

    /** The last one takes them back, with the room that was only for handlers. */
    method LeaveErrorHandler()
      requires Limited() && length <= |values| && |frames| <= frameCapacity && !LeaveFails(options, AsThread())
      modifies `errorHandlerDepth, `valueLimit, `frameLimit, `values, `length, `frameCapacity
      ensures Limited() && AsThread() == LeftHandler(options, old(AsThread()))
      ensures errorHandlerDepth == 0 ==> |values| <= valueLimit && |frames| <= frameCapacity <= frameLimit
    {
      errorHandlerDepth := errorHandlerDepth - 1;
      if errorHandlerDepth != 0 {
        return;
      }
      valueLimit, frameLimit := options.maxValues, options.maxFrames;
      TrimValues(valueLimit);
      if frameCapacity > frameLimit {
        frameCapacity := frameLimit;
      }
    }

    method TrimValues(limit: nat)
      requires length <= |values|
      modifies `values, `length
      ensures Snapshot() == Trimmed(old(Snapshot()), limit)
    {
      if length > limit {
        ClearInactive(limit, length);
        length := limit;
      } else {
        FilledNothing(values, limit, length, Empty);
      }
      if |values| > limit {
        values := values[..limit];
      }
    }
  }

  /** A call slot that holds a function holds one with a verified prototype. */
  predicate CalleeValid(values: seq<Value>, i: nat) {
    i < |values| && (values[i].Callable? ==> ShapeValid(values[i].shape))
  }

  /** `after` is what the checked path makes of a return to a caller that wants a fixed number of results. */
  predicate CompletedBy(s: Stack, firstResult: nat, resultCount: nat, after: Stack) {
    s.frames != [] && 0 <= s.frames[|s.frames| - 1].wanted && firstResult + resultCount <= s.length <= |s.values| &&
    after == FinishedLua(s, firstResult, resultCount) && NothingPending(after)
  }

  /** The same, to be taken apart only where CompletedBy is named. */
  ghost predicate CompletedAs(s: Stack, firstResult: nat, resultCount: nat, after: Stack) {
    forall n {:trigger CompletedBy(s, firstResult, n, after)} :: n == resultCount ==> CompletedBy(s, firstResult, n, after)
  }

  /** `after` is what the checked path makes of a call, and no limit stands in its way. */
  predicate EnteredBy(s: Stack, f: Shape, callBase: nat, argumentCount: nat, wanted: nat, limit: nat, after: Stack) {
    ShapeValid(f) && s.length <= |s.values| <= limit &&
    var plan := Plan(f, callBase, argumentCount, wanted, limit);
    plan.Some? && after == Pushed(s, f, plan.value, limit, Nil)
  }

  ghost predicate EnteredAs(s: Stack, f: Shape, callBase: nat, argumentCount: nat, wanted: nat, limit: nat, after: Stack) {
    forall n {:trigger EnteredBy(s, f, callBase, n, wanted, limit, after)} :: n == argumentCount ==> EnteredBy(s, f, callBase, n, wanted, limit, after)
  }

  ghost predicate Entered(s: Stack, callBase: nat, argumentCount: nat, wanted: nat, limit: nat, after: Stack) {
    callBase < |s.values| && s.values[callBase].Callable? &&
    EnteredAs(s, s.values[callBase].shape, callBase, argumentCount, wanted, limit, after)
  }

  /** With fixed windows inside the caller's frame, only the callee's frame can need room, and nothing dies. */
  lemma FixedLuaCall(s: Stack, f: Shape, callBase: nat, argumentCount: nat, wanted: nat, limit: nat)
    requires Valid(s) && |s.values| <= limit && ShapeValid(f) && f.LuaShape? && !f.vararg && s.top <= s.frameExtent
    requires callBase + 1 + argumentCount <= s.frameExtent && callBase + wanted <= s.frameExtent
    requires callBase + 1 + f.registers <= |s.values| && callBase + 1 + f.registers <= INDEX_LIMIT && s.length <= INDEX_LIMIT
    ensures var plan := Plan(f, callBase, argumentCount, wanted, limit);
            plan.Some? && plan.value.base == callBase + 1 && plan.value.frameEnd == callBase + 1 + f.registers &&
            var frameEnd := callBase + 1 + f.registers;
            var preserved := Min(f.parameters, argumentCount);
            Pushed(s, f, plan.value, limit, Nil) ==
              Published(s.(length := Max(s.length, frameEnd), values := Filled(s.values, callBase + 1 + preserved, frameEnd, Nil)),
                        f, callBase + 1, callBase, frameEnd, wanted)
  {
  }

  /** A fixed return to a Lua caller is the checked one, and leaves nothing pending if nothing waited for it. */
  lemma FixedReturn(s: Stack, firstResult: nat, resultCount: nat)
    requires Valid(s) && NothingPending(s) && |s.frames| >= 2 && s.frames[|s.frames| - 2].shape.LuaShape?
    requires s.frames[|s.frames| - 1].wanted != ALL_RESULTS
    requires firstResult + resultCount <= Live(s) && s.frames[|s.frames| - 1].resultBase <= firstResult
    ensures var frame, caller := s.frames[|s.frames| - 1], s.frames[|s.frames| - 2];
            0 <= frame.wanted && frame.resultBase + frame.wanted <= s.length && Valid(FinishedLua(s, firstResult, resultCount)) &&
            FinishedLua(s, firstResult, resultCount) ==
              Popped(s, HandedDown(s.values, frame.resultBase, firstResult, resultCount, frame.wanted), caller.base + caller.shape.registers)
    ensures s.continuations == [] || s.continuations[|s.continuations| - 1].frameDepth != |s.frames| - 1 ==>
      NothingPending(FinishedLua(s, firstResult, resultCount))
  {
    assert FrameValid(s.frames, s.frameExtent, |s.frames| - 1);
    FinishedLuaValid(s, firstResult, resultCount);
  }

  lemma FixedNativeCall(s: Stack, callBase: nat, argumentCount: nat, wanted: nat, limit: nat)
    requires Valid(s) && |s.values| <= limit && s.top <= s.frameExtent
    requires callBase + 1 + argumentCount <= s.frameExtent && callBase + wanted <= s.length
    requires callBase + 1 + argumentCount <= INDEX_LIMIT && callBase + wanted <= INDEX_LIMIT
    ensures var plan := Plan(NativeShape, callBase, argumentCount, wanted, limit);
            plan.Some? && Pushed(s, NativeShape, plan.value, limit, Nil) ==
              Published(s, NativeShape, callBase + 1, callBase, callBase + 1 + argumentCount, wanted)
  {
  }

  lemma FilledNothing(v: seq<Value>, from: int, to: int, x: Value)
    requires to <= from
    ensures Filled(v, from, to, x) == v
  {
  }
}
