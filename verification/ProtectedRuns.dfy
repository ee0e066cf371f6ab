/** Proofs about whole runs: what every step of a nested run keeps, and that checkpoints contain them. */
module ProtectedRuns {
  import opened StackCapacity
  import opened Wrappers
  import opened CallStack
  import opened CallRuns
  import opened ThreadState
  import opened ThreadSteps
  import opened ProtectedCalls

  /** What a native function's body keeps: everything but slots, extents and the token counter. */
  ghost predicate BodyKept(o: Options, t1: Thread, t: Thread) {
    ThreadValid(o, t) && t.stack.frames == t1.stack.frames && t.stack.continuations == t1.stack.continuations &&
    SameBook(t1, t) && t.cells == t1.cells && t1.stack.length <= t.stack.length
  }

  /** A native function runs: it has a token, and fewer handlers run than native functions. */
  predicate InBody(t: Thread) {
    OnNative(t.stack) && NothingPending(t.stack) && t.handlers < t.depth
  }

  /** A new thread on which the host has called a native function. */
  function FirstCall(target: Value): Thread {
    Thread(Stack([target], 1, [Activation(NativeShape, 1, 0, 0, 0, ALL_RESULTS)], [], 1, 1), [], 1, 1, 1, 1, 0)
  }

  /** With room for one value and one frame it is a valid one in the body of that function. */
  lemma FirstCallValid(o: Options, target: Value)
    requires OptionsValid(o)
    ensures (ThreadValid(o, FirstCall(target)) && InBody(FirstCall(target))) <==> o.maxValues >= 1 && o.maxFrames >= 1
  {
    var t := FirstCall(target);
    assert CallStack.Valid(t.stack) by { assert FrameValid(t.stack.frames, t.stack.frameExtent, 0); }
  }

  // ----- staging -----

  lemma StagingKept(o: Options, t: Thread, f: Shape, staged: seq<Value>, wanted: int, legacy: Value)
    requires ThreadValid(o, t)
    ensures Staging(o, t, f, staged, wanted, legacy).Some? ==> ThreadDriven(o, t, Staging(o, t, f, staged, wanted, legacy).value)
  {
    var limit := ValueLimit(o, t.handlers);
    if Staging(o, t, f, staged, wanted, legacy).Some? {
      var r := Staging(o, t, f, staged, wanted, legacy).value;
      StagedDriven(t.stack, f, staged, wanted, limit, legacy);
      StagedCallShape(t.stack, f, staged, wanted, limit, legacy);
      StagedRoomy(t.stack, f, staged, wanted, limit, legacy);
      StagedWindow(t.stack, t.cells, r.stack);
      AllBelow(t, Live(t.stack));
    }
  }

  lemma AllBelow(t: Thread, from: nat)
    requires FramesValid(t.stack.frames, t.stack.frameExtent) && Owned(t.stack.frames, t.cells) && Live(t.stack) <= from
    ensures ClosedFrom(t.cells, from) == t.cells
  {
    CellsLive(t.stack.frames, t.stack.frameExtent, t.cells);
    if t.cells != [] { assert t.cells[0] in t.cells; }
  }

  // ----- what restoring needs -----

  /** Everything that happened since is above the checkpoint. */
  predicate Contained(t: Thread, u: Thread) {
    CallStack.Valid(t.stack) && CallStack.Valid(u.stack) && Above(t.stack, u.stack) && Descending(u.cells) &&
    u.token == t.token && u.depth == t.depth && u.runtimeDepth == t.runtimeDepth && t.sequence <= u.sequence &&
    ClosedFrom(u.cells, Live(t.stack)) == t.cells
  }

  /** None of the tests of restoring fails, and it gives back what was captured. */
  lemma ContainedRestores(t: Thread, u: Thread, clearScratch: bool)
    requires Contained(t, u)
    ensures CanRestore(u, CapturedThread(t))
    ensures var r := RestoredThread(u, CapturedThread(t), clearScratch);
      r.stack.frames == t.stack.frames && r.stack.continuations == t.stack.continuations && r.stack.top == t.stack.top &&
      r.stack.frameExtent == t.stack.frameExtent && r.cells == t.cells && t.stack.length <= r.stack.length == u.stack.length &&
      |r.stack.values| == |u.stack.values| &&
      CallStack.Valid(if clearScratch then r.stack else Restored(u.stack, Captured(t.stack)))
  {
    RestoredIs(t.stack, u.stack);
    ClosedAre(u.cells, Live(t.stack));
    if t.cells != [] { assert t.cells[0] in t.cells; }
  }

  lemma DrivenContained(o: Options, t: Thread, u: Thread)
    requires ThreadDriven(o, t, u)
    ensures Contained(t, u)
  {
  }

  lemma SelfContained(o: Options, t: Thread)
    requires ThreadValid(o, t)
    ensures Contained(t, t)
  {
    AllBelow(t, Live(t.stack));
    assert t.stack.frames[..|t.stack.frames|] == t.stack.frames;
    assert t.stack.continuations[..|t.stack.continuations|] == t.stack.continuations;
  }

  /** A handler's run on top of a failed one is contained as well. */
  lemma ContainedFurther(o: Options, t: Thread, u: Thread, v: Thread)
    requires Contained(t, u) && ThreadDriven(o, u, v)
    ensures Contained(t, v)
  {
    AboveTransitive(t.stack, u.stack, v.stack);
    ClosedLower(v.cells, Live(u.stack), Live(t.stack));
  }

  // ----- error handlers -----

  lemma EnteredValid(o: Options, t: Thread)
    requires ThreadValid(o, t) && t.handlers < t.depth
    ensures !EnterFails(t) && ThreadValid(o, EnteredHandler(t))
  {
    LimitsRise(o, t.handlers);
    LimitsRise(o, t.handlers + 1);
  }

  /** Where an error handler comes to a stop, everything is still above the checkpoint. */
  lemma {:induction false} HandledContained(o: Options, t: Thread, ended: Thread, handler: Option<Handler>)
    requires ThreadValid(o, t) && ThreadValid(o, ended) && Contained(t, ended) && ended.handlers == t.handlers < t.depth
    ensures var u := Handled(o, ended, handler);
      ThreadValid(o, u) && Contained(t, u) && u.handlers == if handler.Some? then t.handlers + 1 else t.handlers
    ensures handler.Some? ==> !EnterFails(ended)
    decreases handler, 0
  {
    if handler.Some? {
      var h, entered := handler.value, EnteredHandler(ended);
      EnteredValid(o, ended);
      var called := Staging(o, entered, h.f, h.staged, 1, h.legacy);
      if called.Some? {
        StagingKept(o, entered, h.f, h.staged, 1, h.legacy);
        RunKept(o, entered, called.value, h.body);
        var u := Run(o, called.value, h.body, |ended.stack.frames|);
        ContainedFurther(o, t, entered, u);
      }
    }
  }

  /** Leaving a handler gives up nothing that is live. */
  lemma LeftValid(o: Options, t: Thread, restored: Thread)
    requires ThreadValid(o, t) && CallStack.Valid(restored.stack) && restored.handlers == t.handlers + 1
    requires Within(o, restored) && restored.stack.frames == t.stack.frames && Live(restored.stack) == Live(t.stack)
    requires t.stack.length <= restored.stack.length
    ensures !LeaveFails(o, restored)
    ensures var r := LeftHandler(o, restored);
      CallStack.Valid(r.stack) && Within(o, r) && r == restored.(stack := r.stack, handlers := t.handlers) &&
      r.stack.frames == t.stack.frames && r.stack.continuations == restored.stack.continuations &&
      r.stack.top == restored.stack.top && r.stack.frameExtent == restored.stack.frameExtent && t.stack.length <= r.stack.length
  {
    LimitsRise(o, restored.handlers);
    if t.handlers == 0 { TrimmedValid(restored.stack, o.maxValues); }
  }

  // ----- protected calls -----

  /** Nothing gives up on the way, and the thread is as it was but for slots past the checkpoint, which are empty. */
  ghost predicate Contains(o: Options, t: Thread, tr: Trace) {
    CanRestore(tr.handled, CapturedThread(t)) &&
    (tr.returned ==> tr.ended.stack.continuations == t.stack.continuations && Live(t.stack) <= tr.ended.stack.top) &&
    (tr.handling ==> !EnterFails(tr.ended) && !LeaveFails(o, tr.restored)) &&
    tr.left.stack.frames == t.stack.frames && tr.left.stack.continuations == t.stack.continuations &&
    tr.left.stack.top == t.stack.top && tr.left.stack.frameExtent == t.stack.frameExtent && tr.left.cells == t.cells &&
    SameBook(t, tr.left) && Within(o, tr.left) && (!tr.returned ==> CallStack.Valid(tr.left.stack)) && BodyKept(o, t, tr.result)
  }

  lemma NoneDeeper(u: Thread, k: nat)
    requires CallStack.Valid(u.stack) && k < |u.stack.continuations|
    ensures u.stack.continuations[k].frameDepth <= |u.stack.frames|
  {
    assert ContinuationValid(u.stack.frames, u.stack.frameExtent, u.stack.continuations[k]);
  }

  lemma NothingLeftPending(t: Thread, u: Thread)
    requires Contained(t, u) && |u.stack.frames| == |t.stack.frames|
    ensures u.stack.continuations == t.stack.continuations
  {
    if |u.stack.continuations| > |t.stack.continuations| { NoneDeeper(u, |t.stack.continuations|); }
    assert u.stack.continuations[..|t.stack.continuations|] == t.stack.continuations;
  }

  lemma {:induction false} ReturnedContains(o: Options, t: Thread, b: Body)
    requires ThreadValid(o, t) && InBody(t) && b.Protected? && ProtectedTrace(o, t, b).returned
    ensures Contains(o, t, ProtectedTrace(o, t, b))
    decreases b, 0
  {
    var called := Staging(o, t, b.f, b.staged, ALL_RESULTS, b.legacy).value;
    StagingKept(o, t, b.f, b.staged, ALL_RESULTS, b.legacy);
    RunKept(o, t, called, b.body);
    var ended := Run(o, called, b.body, |t.stack.frames|);
    DrivenContained(o, t, ended);
    ContainedRestores(t, ended, false);
    NothingLeftPending(t, ended);
    SucceededKept(o, t, ended);
  }

  /** After a return the results are past the checkpoint, and clearing all past it would leave a valid stack. */
  lemma SucceededReady(o: Options, t: Thread, ended: Thread)
    requires ThreadValid(o, t) && InBody(t) && ThreadDriven(o, t, ended) && |ended.stack.frames| == |t.stack.frames|
    ensures CanRestore(ended, CapturedThread(t)) && Live(t.stack) <= ended.stack.top
    ensures var s := RestoredThread(ended, CapturedThread(t), false).stack;
      CallStack.Valid(s.(values := Filled(s.values, Live(s), Min(Live(ended.stack), s.length), Empty))) && Live(s) == Live(t.stack) &&
      s.frames == t.stack.frames && s.continuations == t.stack.continuations && Roomy(s, ValueLimit(o, t.handlers)) &&
      ended.stack.top <= Live(ended.stack) <= s.length && t.stack.length <= s.length
  {
    ContainedRestores(t, ended, false);
  }

  /** The native function has its results; its frame and everything under it are as they were. */
  lemma ResultKept(o: Options, t: Thread, u: Thread, stack: Stack)
    requires ThreadValid(o, t) && SameBook(t, u) && u.cells == t.cells && CallStack.Valid(stack) && Roomy(stack, ValueLimit(o, t.handlers))
    requires stack.frames == t.stack.frames && stack.continuations == t.stack.continuations && t.stack.length <= stack.length
    ensures BodyKept(o, t, u.(stack := stack))
  {
  }

  /** The restored stack can take the results of a call that returned; to be taken apart only where Takes is named. */
  predicate Receives(t: Stack, ended: Stack, s: Stack, limit: nat) {
    Live(s) == Live(t) && s.frames == t.frames && Live(t) <= ended.top <= Live(ended) <= s.length && Roomy(s, limit) &&
    forall n {:trigger Takes(t, ended, s, n)} :: n == limit ==> Takes(t, ended, s, n)
  }

  predicate Takes(t: Stack, ended: Stack, s: Stack, limit: nat) {
    CallStack.Valid(s.(values := Filled(s.values, Live(s), Min(Live(ended), s.length), Empty))) && s.continuations == t.continuations && t.length <= s.length
  }

  /** A stack as it may be between the steps of the body that it belongs to; to be taken apart only where Fits is named. */
  predicate Accepted(t: Stack, r: Stack, limit: nat) {
    forall n {:trigger Fits(t, r, n)} :: n == limit ==> Fits(t, r, n)
  }

  predicate Fits(t: Stack, r: Stack, limit: nat) {
    CallStack.Valid(r) && r.frames == t.frames && r.continuations == t.continuations && t.length <= r.length && Roomy(r, limit)
  }

  lemma SuccessStack(t: Stack, ended: Stack, s: Stack, base: nat, limit: nat)
    requires base == Live(s) && Receives(t, ended, s, limit) && NothingPending(t) && OnNative(t)
    requires s.frames != [] && ALL_RESULTS <= s.frames[|s.frames| - 1].wanted
    ensures Accepted(t, PublishedSuccess(s, base, ended.top - base, base, Live(ended), limit), limit)
  {
    assert Takes(t, ended, s, limit);
    PublishedSuccessValid(s, base, ended.top - base, Live(ended), limit);
  }

  lemma AcceptedKept(o: Options, t: Thread, u: Thread, stack: Stack)
    requires ThreadValid(o, t) && SameBook(t, u) && u.cells == t.cells && Accepted(t.stack, stack, ValueLimit(o, t.handlers))
    ensures BodyKept(o, t, u.(stack := stack))
  {
    assert Fits(t.stack, stack, ValueLimit(o, t.handlers));
    ResultKept(o, t, u, stack);
  }

  lemma SucceededResult(o: Options, t: Thread, ended: Thread, restored: Thread)
    requires ThreadValid(o, t) && InBody(t) && SameBook(t, restored) && restored.cells == t.cells
    requires Receives(t.stack, ended.stack, restored.stack, ValueLimit(o, t.handlers))
    ensures BodyKept(o, t, Succeeded(o, t, ended, restored))
  {
    var s, base, limit := restored.stack, Live(t.stack), ValueLimit(o, t.handlers);
    assert ALL_RESULTS <= s.frames[|s.frames| - 1].wanted by { assert FrameValid(t.stack.frames, t.stack.frameExtent, |s.frames| - 1); }
    SuccessStack(t.stack, ended.stack, s, base, limit);
    AcceptedKept(o, t, restored, PublishedSuccess(s, base, ended.stack.top - base, base, Live(ended.stack), limit));
  }

  lemma SucceededKept(o: Options, t: Thread, ended: Thread)
    requires ThreadValid(o, t) && InBody(t) && ThreadDriven(o, t, ended) && |ended.stack.frames| == |t.stack.frames|
    ensures CanRestore(ended, CapturedThread(t)) && BodyKept(o, t, Succeeded(o, t, ended, RestoredThread(ended, CapturedThread(t), false)))
  {
    SucceededReady(o, t, ended);
    SucceededResult(o, t, ended, RestoredThread(ended, CapturedThread(t), false));
  }

  lemma FailedKept(o: Options, t: Thread, left: Thread)
    requires ThreadValid(o, t) && InBody(t) && CallStack.Valid(left.stack) && Within(o, left) && SameBook(t, left) && left.cells == t.cells
    requires left.stack.frames == t.stack.frames && left.stack.continuations == t.stack.continuations && t.stack.length <= left.stack.length
    ensures BodyKept(o, t, Failed(o, left))
  {
    PublishedFailureValid(left.stack, Nil, ValueLimit(o, t.handlers));
  }

  lemma {:induction false} FailedContains(o: Options, t: Thread, b: Body)
    requires ThreadValid(o, t) && InBody(t) && b.Protected? && !ProtectedTrace(o, t, b).returned
    ensures Contains(o, t, ProtectedTrace(o, t, b))
    decreases b, 0
  {
    var called := Staging(o, t, b.f, b.staged, ALL_RESULTS, b.legacy);
    var ended := if called.Some? then Run(o, called.value, b.body, |t.stack.frames|) else t;
    SelfContained(o, t);
    if called.Some? {
      StagingKept(o, t, b.f, b.staged, ALL_RESULTS, b.legacy);
      RunKept(o, t, called.value, b.body);
      DrivenContained(o, t, ended);
    }
    HandledContained(o, t, ended, b.handler);
    var handled := Handled(o, ended, b.handler);
    ContainedRestores(t, handled, true);
    var restored := RestoredThread(handled, CapturedThread(t), true);
    if b.handler.Some? { LeftValid(o, t, restored); }
    var left := if b.handler.None? then restored else LeftHandler(o, restored);
    FailedKept(o, t, left);
  }

  /** A protected call contains whatever its target and its error handler do. */
  lemma {:induction false} CheckpointContains(o: Options, t: Thread, b: Body)
    requires ThreadValid(o, t) && InBody(t) && b.Protected?
    ensures Contains(o, t, ProtectedTrace(o, t, b))
    decreases b, 1
  {
    if ProtectedTrace(o, t, b).returned { ReturnedContains(o, t, b); } else { FailedContains(o, t, b); }
  }

  // ----- native functions -----

  lemma PreparedKept(o: Options, t: Thread, supplied: nat)
    requires ThreadValid(o, t) && InBody(t)
    ensures ALL_RESULTS <= t.stack.frames[|t.stack.frames| - 1].wanted
    ensures PreparedResults(t.stack, supplied, ValueLimit(o, t.handlers)).Some? ==>
      BodyKept(o, t, t.(stack := PreparedResults(t.stack, supplied, ValueLimit(o, t.handlers)).value))
  {
    PreparedValid(t.stack, supplied, ValueLimit(o, t.handlers));
  }

  lemma YieldedKept(o: Options, t: Thread, results: seq<Value>)
    requires ThreadValid(o, t) && InBody(t)
    ensures FinishedYield(t.stack, results, ValueLimit(o, t.handlers)).Some? ==>
      BodyKept(o, t, t.(stack := FinishedYield(t.stack, results, ValueLimit(o, t.handlers)).value))
  {
    FinishedYieldValid(t.stack, results, ValueLimit(o, t.handlers));
  }

  lemma {:induction false} BodyStepKept(o: Options, t: Thread, b: Body)
    requires ThreadValid(o, t) && InBody(t)
    ensures BodyKept(o, t, BodyStep(o, t, b))
    decreases b, 2
  {
    PreparedKept(o, t, if b.Prepare? then b.supplied else 0);
    if b.Yield? { YieldedKept(o, t, b.results); }
    if b.Protected? { CheckpointContains(o, t, b); }
  }

  lemma {:induction false} RunBodyKept(o: Options, t: Thread, body: Bodies)
    requires ThreadValid(o, t) && InBody(t)
    ensures BodyKept(o, t, RunBody(o, t, body))
    decreases body, 0
  {
    if body.First? {
      BodyStepKept(o, t, body.first);
      RunBodyKept(o, BodyStep(o, t, body.first), body.rest);
    }
  }

  lemma {:induction false} NativeStepKept(o: Options, t0: Thread, t: Thread, body: Bodies, outputCount: Option<nat>)
    requires ThreadDriven(o, t0, t) && |t0.stack.frames| < |t.stack.frames| && NothingPending(t.stack)
    ensures ThreadDriven(o, t0, NativeStep(o, t, body, outputCount))
    decreases body, 1
  {
    if OnNative(t.stack) && t.runtimeDepth < NativeLimit(t.handlers) {
      var invoked := Invoked(t);
      RunBodyKept(o, invoked, body);
      var done := RunBody(o, invoked, body);
      var after := done.(token := t.token, depth := t.depth, runtimeDepth := t.runtimeDepth);
      SameFramesDriven(t0.stack, t.stack, after.stack);
      if outputCount.Some? { NativeReturnKept(o, t0, after, outputCount.value); }
    }
  }

  // ----- runs -----

  /** Every step above a checkpoint keeps the thread valid, stays above it, and leaves only Lua frames between the
      depth where the driver stops and the frame on top. */
  lemma {:induction false} StepKept(o: Options, t0: Thread, t: Thread, op: Op)
    requires ThreadDriven(o, t0, t)
    ensures ThreadDriven(o, t0, Step(o, t, op, |t0.stack.frames|))
    decreases op
  {
    if |t0.stack.frames| < |t.stack.frames| {
      if !NothingPending(t.stack) {
        ResumeKept(o, t0, t);
      } else {
        match op
        case Call(f, resultBase, argumentCount, wanted, legacy) => CallKept(o, t0, t, f, resultBase, argumentCount, wanted, legacy);
        case TailCall(f, callBase, argumentCount, legacy) => TailCallKept(o, t0, t, f, callBase, argumentCount, legacy);
        case Return(firstResult, resultCount) => ReturnKept(o, t0, t, firstResult, resultCount);
        case Metamethod(f, staged, wanted, legacy) => MetamethodKept(o, t0, t, f, staged, wanted, legacy);
        case Resume =>
        case Assign(index, value) => AssignKept(o, t0, t, index, value);
        case Capture(index) => CaptureKept(o, t0, t, index);
        case Close(from) => CloseKept(o, t0, t, from);
        case Unwind(stop) => UnwindKept(o, t0, t, stop);
        case Native(body, outputCount) => NativeStepKept(o, t0, t, body, outputCount);
      }
    }
  }

  lemma {:induction false} RunKept(o: Options, t0: Thread, t: Thread, ops: Ops)
    requires ThreadDriven(o, t0, t)
    ensures ThreadDriven(o, t0, Run(o, t, ops, |t0.stack.frames|))
    decreases ops
  {
    if ops.Then? {
      StepKept(o, t0, t, ops.first);
      RunKept(o, t0, Step(o, t, ops.first, |t0.stack.frames|), ops.rest);
    }
  }

  /** Wherever a driver has got to, a frame on top that is above its stop depth by two or more was called by a Lua
      function: the fast return's caller is one. */
  lemma CallerIsLua(o: Options, t0: Thread, t: Thread, ops: Ops)
    requires ThreadDriven(o, t0, t)
    ensures var u := Run(o, t, ops, |t0.stack.frames|);
      LuaBetween(u.stack.frames, |t0.stack.frames|) &&
      (|t0.stack.frames| < |u.stack.frames| - 1 ==> u.stack.frames[|u.stack.frames| - 2].shape.LuaShape?)
  {
    RunKept(o, t0, t, ops);
  }
}
