/** Protected calls and error handlers: nested runs behind checkpoints. Whatever runs above a checkpoint, restoring it
    never gives up and gives back what was captured, and after an error handler the ordinary limits hold again. */
module ProtectedCalls {
  import opened StackCapacity
  import opened Wrappers
  import opened CallStack
  import opened CallRuns
  import opened ThreadState
  import opened ThreadSteps

  // ----- the results of pcall and xpcall -----

  const TRUE_VALUE: Value := Other(1)
  const FALSE_VALUE: Value := Other(0)

  /** Slots of a native function's results, all of them live. */
  function ResultSlots(s: Stack, v: seq<Value>, outputCount: nat, previousExtent: nat, scratchBase: nat): seq<Value>
    requires s.frames != []
  {
    Filled(v, Max(scratchBase, s.frames[|s.frames| - 1].resultBase + outputCount), Min(previousExtent, |v|), Empty)
  }

  /** True and the results of the call, which are moved from past the checkpoint; then what is past both is emptied. */
  function PublishedSuccess(s: Stack, firstResult: nat, count: nat, scratchBase: nat, previousExtent: nat, limit: nat): Stack
    requires s.frames != [] && ALL_RESULTS <= s.frames[|s.frames| - 1].wanted && Roomy(s, limit) && firstResult + count <= s.length
  {
    var frame, prepared := s.frames[|s.frames| - 1], PreparedResults(s, count + 1, limit);
    if prepared.None? then s.(values := Filled(s.values, scratchBase, Min(previousExtent, s.length), Empty))
    else
      var p, output := prepared.value, Wanted(frame, count + 1);
      var copied: nat := if output == 0 then 0 else Min(count, output - 1);
      var flagged := if output != 0 && frame.resultBase < |p.values| then p.values[frame.resultBase := TRUE_VALUE] else p.values;
      var moved := Moved(flagged, frame.resultBase + 1, firstResult, copied);
      p.(values := ResultSlots(s, Filled(moved, frame.resultBase + 1 + copied, frame.resultBase + output, Nil), output, previousExtent, scratchBase))
  }

  /** Clearing scratch slots has no part in making room for results. */
  lemma PreparedCleared(s: Stack, values: seq<Value>, supplied: nat, limit: nat)
    requires s.frames != [] && ALL_RESULTS <= s.frames[|s.frames| - 1].wanted && Roomy(s, limit) && |values| == |s.values|
    ensures var p, p' := PreparedResults(s, supplied, limit), PreparedResults(s.(values := values), supplied, limit);
      (p.Some? <==> p'.Some?) &&
      (p.Some? ==> p.value == p'.value.(values := p.value.values) && |p.value.values| == |p'.value.values|) &&
      (p.Some? ==> forall i :: |s.values| <= i < |p.value.values| ==> p.value.values[i] == Empty)
  {
  }

  lemma SuccessSlotsEmpty(s: Stack, firstResult: nat, count: nat, previousExtent: nat, limit: nat)
    requires s.frames != [] && ALL_RESULTS <= s.frames[|s.frames| - 1].wanted && Roomy(s, limit) && firstResult + count <= s.length
    requires EmptyFrom(s.values, Max(Live(s), previousExtent)) && previousExtent <= s.length
    ensures var r := PublishedSuccess(s, firstResult, count, Live(s), previousExtent, limit); EmptyFrom(r.values, Live(r))
  {
    if PreparedResults(s, count + 1, limit).Some? {
      PreparedCleared(s, s.values, count + 1, limit);
    }
  }

  lemma PublishedSuccessValid(s: Stack, firstResult: nat, count: nat, previousExtent: nat, limit: nat)
    requires CallStack.Valid(s.(values := Filled(s.values, Live(s), Min(previousExtent, s.length), Empty)))
    requires NothingPending(s) && OnNative(s) && Roomy(s, limit) && firstResult + count <= s.length && previousExtent <= s.length
    ensures ALL_RESULTS <= s.frames[|s.frames| - 1].wanted
    ensures var r := PublishedSuccess(s, firstResult, count, Live(s), previousExtent, limit);
      CallStack.Valid(r) && r.frames == s.frames && r.continuations == s.continuations && s.length <= r.length && Roomy(r, limit)
  {
    var values := Filled(s.values, Live(s), Min(previousExtent, s.length), Empty);
    PreparedValid(s.(values := values), count + 1, limit);
    PreparedCleared(s, values, count + 1, limit);
    SuccessSlotsEmpty(s, firstResult, count, previousExtent, limit);
  }

  /** False and the error value. */
  function PublishedFailure(s: Stack, value: Value, limit: nat): Stack
    requires s.frames != [] && ALL_RESULTS <= s.frames[|s.frames| - 1].wanted && Roomy(s, limit)
  {
    var frame, prepared := s.frames[|s.frames| - 1], PreparedResults(s, 2, limit);
    if prepared.None? then s
    else
      var p, output, b := prepared.value, Wanted(frame, 2), frame.resultBase;
      var v1 := if output > 0 && b < |p.values| then p.values[b := FALSE_VALUE] else p.values;
      var v2 := if output > 1 && b + 1 < |p.values| then v1[b + 1 := value] else v1;
      p.(values := Filled(v2, b + 2, b + output, Nil))
  }

  lemma PublishedFailureValid(s: Stack, value: Value, limit: nat)
    requires CallStack.Valid(s) && NothingPending(s) && OnNative(s) && Roomy(s, limit)
    ensures ALL_RESULTS <= s.frames[|s.frames| - 1].wanted
    ensures var r := PublishedFailure(s, value, limit);
      CallStack.Valid(r) && r.frames == s.frames && r.continuations == s.continuations && s.length <= r.length && Roomy(r, limit)
  {
    PreparedValid(s, 2, limit);
    var r := PublishedFailure(s, value, limit);
    assert EmptyFrom(r.values, Live(r));
  }

  // ----- what a thread may do -----

  /** What happens while Lua functions run, or a native one is due. */
  datatype Op =
    | Call(f: Shape, resultBase: nat, argumentCount: nat, wanted: int, legacy: Value)
    | TailCall(f: Shape, callBase: nat, argumentCount: nat, legacy: Value)
    | Return(firstResult: nat, resultCount: nat)
    | Metamethod(f: Shape, staged: seq<Value>, wanted: int, legacy: Value)
    | Resume
    | Assign(index: nat, value: Value)
    | Capture(index: nat)
    | Close(from: nat)
    | Unwind(stop: nat)
    | Native(body: Bodies, outputCount: Option<nat>)

  datatype Ops = Done | Then(first: Op, rest: Ops)

  /** What a native function does: it makes room for results, writes values, yields, or calls pcall or xpcall's part. */
  datatype Body =
    | Prepare(supplied: nat)
    | Put(index: nat, value: Value)
    | Yield(results: seq<Value>)
    | Protected(f: Shape, staged: seq<Value>, legacy: Value, body: Ops, failed: bool, handler: Option<Handler>)

  datatype Bodies = NoMore | First(first: Body, rest: Bodies)

  datatype Handler = Handler(f: Shape, staged: seq<Value>, legacy: Value, body: Ops)

  function Staging(o: Options, t: Thread, f: Shape, staged: seq<Value>, wanted: int, legacy: Value): Option<Thread> {
    var limit := ValueLimit(o, t.handlers);
    if NothingPending(t.stack) && Stageable(t.stack, f, staged, wanted, limit) && |t.stack.frames| < FrameLimit(o, t.handlers) &&
      StagedCall(t.stack, f, staged, wanted, limit, legacy).Some?
    then Some(t.(stack := StagedCall(t.stack, f, staged, wanted, limit, legacy).value)) else None
  }

  function Step(o: Options, t: Thread, op: Op, floor: nat): Thread
    decreases op
  {
    if |t.stack.frames| <= floor then t
    else if !NothingPending(t.stack) then if op.Resume? then ResumeStep(t) else t
    else match op
      case Call(f, resultBase, argumentCount, wanted, legacy) => CallStep(o, t, f, resultBase, argumentCount, wanted, legacy)
      case TailCall(f, callBase, argumentCount, legacy) => TailCallStep(o, t, f, callBase, argumentCount, legacy)
      case Return(firstResult, resultCount) => ReturnStep(t, firstResult, resultCount)
      case Metamethod(f, staged, wanted, legacy) => MetamethodStep(o, t, f, staged, wanted, legacy)
      case Resume => t
      case Assign(index, value) => AssignStep(t, index, value)
      case Capture(index) => CaptureStep(t, index)
      case Close(from) => CloseStep(t, from)
      case Unwind(stop) => UnwindStep(t, stop, floor)
      case Native(body, outputCount) => NativeStep(o, t, body, outputCount)
  }

  function Run(o: Options, t: Thread, ops: Ops, floor: nat): Thread
    decreases ops
  {
    match ops
    case Done => t
    case Then(first, rest) => Run(o, Step(o, t, first, floor), rest, floor)
  }

  /** The native function on top is invoked under a token of its own. */
  function Invoked(t: Thread): Thread {
    t.(token := t.sequence + 1, sequence := t.sequence + 1, depth := t.depth + 1, runtimeDepth := t.runtimeDepth + 1)
  }

  function NativeStep(o: Options, t: Thread, body: Bodies, outputCount: Option<nat>): Thread
    decreases body, 1
  {
    if OnNative(t.stack) && t.runtimeDepth < NativeLimit(t.handlers) then
      var done := RunBody(o, Invoked(t), body);
      var after := done.(token := t.token, depth := t.depth, runtimeDepth := t.runtimeDepth);
      if outputCount.Some? then NativeReturnStep(after, outputCount.value) else after
    else t
  }

  function RunBody(o: Options, t: Thread, body: Bodies): Thread
    decreases body, 0
  {
    match body
    case NoMore => t
    case First(first, rest) => RunBody(o, BodyStep(o, t, first), rest)
  }

  function BodyStep(o: Options, t: Thread, b: Body): Thread
    decreases b, 2
  {
    var s, limit := t.stack, ValueLimit(o, t.handlers);
    if !(OnNative(s) && NothingPending(s) && Roomy(s, limit) && ALL_RESULTS <= s.frames[|s.frames| - 1].wanted) then t
    else match b
      case Prepare(supplied) => if PreparedResults(s, supplied, limit).Some? then t.(stack := PreparedResults(s, supplied, limit).value) else t
      case Put(index, value) => AssignStep(t, index, value)
      case Yield(results) =>
        if t.depth == 1 && s.continuations == [] && FinishedYield(s, results, limit).Some?
        then t.(stack := FinishedYield(s, results, limit).value) else t
      case Protected(_, _, _, _, _, _) => ProtectedTrace(o, t, b).result
  }

  /** A protected call, stage by stage: where its target came to a stop and whether it had returned, where its error
      handler did, what was restored, what is left when the handler has been left, and what the caller gets. */
  datatype Trace = Trace(ended: Thread, returned: bool, handled: Thread, handling: bool, restored: Thread, left: Thread, result: Thread)

  function Restoring(t: Thread, cp: ThreadCheckpoint, clearScratch: bool): Thread {
    if CanRestore(t, cp) then RestoredThread(t, cp, clearScratch) else t
  }

  function ProtectedTrace(o: Options, t: Thread, b: Body): Trace
    requires b.Protected?
    decreases b, 1
  {
    var called := Staging(o, t, b.f, b.staged, ALL_RESULTS, b.legacy);
    var ended := if called.Some? then Run(o, called.value, b.body, |t.stack.frames|) else t;
    if called.Some? && !b.failed && |ended.stack.frames| == |t.stack.frames| then
      var restored := Restoring(ended, CapturedThread(t), false);
      Trace(ended, true, ended, false, restored, restored, Succeeded(o, t, ended, restored))
    else
      var handled := Handled(o, ended, b.handler);
      var restored := Restoring(handled, CapturedThread(t), true);
      var left := if b.handler.None? || LeaveFails(o, restored) then restored else LeftHandler(o, restored);
      Trace(ended, false, handled, b.handler.Some?, restored, left, Failed(o, left))
  }

  function Handled(o: Options, t: Thread, handler: Option<Handler>): Thread
    decreases handler, 0
  {
    if handler.None? || EnterFails(t) then t
    else
      var h, entered := handler.value, EnteredHandler(t);
      var called := Staging(o, entered, h.f, h.staged, 1, h.legacy);
      if called.Some? then Run(o, called.value, h.body, |t.stack.frames|) else entered
  }

  function Succeeded(o: Options, t: Thread, ended: Thread, restored: Thread): Thread {
    var s, limit, base := restored.stack, ValueLimit(o, restored.handlers), Live(t.stack);
    if s.frames != [] && ALL_RESULTS <= s.frames[|s.frames| - 1].wanted && Roomy(s, limit) && base <= ended.stack.top <= s.length
    then restored.(stack := PublishedSuccess(s, base, ended.stack.top - base, Live(t.stack), Live(ended.stack), limit)) else restored
  }

  function Failed(o: Options, t: Thread): Thread {
    var s, limit := t.stack, ValueLimit(o, t.handlers);
    if s.frames != [] && ALL_RESULTS <= s.frames[|s.frames| - 1].wanted && Roomy(s, limit)
    then t.(stack := PublishedFailure(s, Nil, limit)) else t
  }
}
