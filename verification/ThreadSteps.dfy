/** What the instructions of Lua functions do to a thread, one at a time. */
module ThreadSteps {
  import opened StackCapacity
  import opened Wrappers
  import opened CallStack
  import opened CallRuns
  import opened ThreadState

  // ----- steps that push a frame -----

  function CallStep(o: Options, t: Thread, f: Shape, resultBase: nat, argumentCount: nat, wanted: int, legacy: Value): Thread {
    var limit := ValueLimit(o, t.handlers);
    var plan := Plan(f, resultBase, argumentCount, wanted, limit);
    if Roomy(t.stack, limit) && ShapeValid(f) && plan.Some? && CallAllowed(o, t, resultBase, argumentCount, wanted)
    then t.(stack := Pushed(t.stack, f, plan.value, limit, legacy)) else t
  }

  /** A call instruction's window is above the registers of captured locals, which is how the compiler places it. */
  predicate CallAllowed(o: Options, t: Thread, resultBase: nat, argumentCount: nat, wanted: int) {
    OnLua(t.stack) && |t.stack.frames| < FrameLimit(o, t.handlers) && CallFits(t.stack, resultBase, argumentCount, wanted) &&
    t.stack.frames[|t.stack.frames| - 1].base <= resultBase && forall c :: c in t.cells ==> c < resultBase
  }

  lemma CallKept(o: Options, t0: Thread, t: Thread, f: Shape, resultBase: nat, argumentCount: nat, wanted: int, legacy: Value)
    requires ThreadDriven(o, t0, t) && |t0.stack.frames| < |t.stack.frames| && NothingPending(t.stack)
    ensures ThreadDriven(o, t0, CallStep(o, t, f, resultBase, argumentCount, wanted, legacy))
  {
    var r, limit := CallStep(o, t, f, resultBase, argumentCount, wanted, legacy), ValueLimit(o, t.handlers);
    if r != t {
      var l := Plan(f, resultBase, argumentCount, wanted, limit).value;
      CallDriven(t0.stack, t.stack, f, l, legacy, limit);
      PushedShape(t.stack, f, l, limit, legacy);
      PushedRoomy(t.stack, f, l, limit, legacy);
      var call := Activation(f, l.base, l.resultBase, 0, t.stack.frameExtent, l.wanted);
      OwnedPushed(t.stack.frames, t.cells, call);
      WindowsPushed(t.stack.frames, t.stack.frameExtent, call);
    }
  }

  lemma WindowsPushed(frames: seq<Activation>, frameExtent: nat, f: Activation)
    requires FramesValid(frames, frameExtent) && WindowsRise(frames) && (frames != [] ==> frames[|frames| - 1].base <= f.resultBase)
    ensures WindowsRise(frames + [f])
  {
    if frames != [] { assert FrameValid(frames, frameExtent, |frames| - 1); }
  }

  lemma PushedRoomy(s: Stack, f: Shape, l: Layout, limit: nat, legacy: Value)
    requires ShapeValid(f) && Roomy(s, limit) && LayoutFits(f, l, limit)
    ensures Roomy(Pushed(s, f, l, limit, legacy), limit)
  {
  }

  function MetamethodStep(o: Options, t: Thread, f: Shape, staged: seq<Value>, wanted: int, legacy: Value): Thread {
    var limit := ValueLimit(o, t.handlers);
    if Roomy(t.stack, limit) && ShapeValid(f) && staged != [] && wanted in {0, 1} && OnLua(t.stack) &&
      |t.stack.frames| < FrameLimit(o, t.handlers) && MetamethodCall(t.stack, f, staged, wanted, limit, legacy).Some?
    then t.(stack := MetamethodCall(t.stack, f, staged, wanted, limit, legacy).value) else t
  }

  /** A staged call's window is past everything live. */
  lemma StagedWindow(s: Stack, cells: seq<nat>, r: Stack)
    requires CallStack.Valid(s) && WindowsRise(s.frames) && Owned(s.frames, cells)
    requires |r.frames| == |s.frames| + 1 && r.frames[..|s.frames|] == s.frames && r.frames[|s.frames|].resultBase == Live(s)
    ensures WindowsRise(r.frames) && Owned(r.frames, cells)
  {
    var n := |s.frames|;
    CellsLive(s.frames, s.frameExtent, cells);
    OwnedPushed(s.frames, cells, r.frames[n]);
    assert r.frames == s.frames + [r.frames[n]];
    if n > 0 { assert FrameValid(s.frames, s.frameExtent, n - 1); }
  }

  lemma StagedRoomy(s: Stack, f: Shape, staged: seq<Value>, wanted: int, limit: nat, legacy: Value)
    requires ShapeValid(f) && Roomy(s, limit) && staged != [] && ALL_RESULTS <= wanted
    requires StagedCall(s, f, staged, wanted, limit, legacy).Some?
    ensures Roomy(StagedCall(s, f, staged, wanted, limit, legacy).value, limit)
  {
    var l := Plan(f, Live(s), |staged| - 1, wanted, limit).value;
    StagedShape(s, staged, l.required, limit);
    PushedRoomy(Staged(s, staged, l.required, limit), f, l, limit, legacy);
  }

  lemma MetamethodKept(o: Options, t0: Thread, t: Thread, f: Shape, staged: seq<Value>, wanted: int, legacy: Value)
    requires ThreadDriven(o, t0, t) && |t0.stack.frames| < |t.stack.frames| && NothingPending(t.stack)
    ensures ThreadDriven(o, t0, MetamethodStep(o, t, f, staged, wanted, legacy))
  {
    var r, limit := MetamethodStep(o, t, f, staged, wanted, legacy), ValueLimit(o, t.handlers);
    if r != t {
      MetamethodDriven(t0.stack, t.stack, f, staged, wanted, legacy, limit);
      StagedCallShape(t.stack, f, staged, wanted, limit, legacy);
      StagedRoomy(t.stack, f, staged, wanted, limit, legacy);
      StagedWindow(t.stack, t.cells, r.stack);
    }
  }

  // ----- steps that replace or pop frames -----

  function TailCallStep(o: Options, t: Thread, f: Shape, callBase: nat, argumentCount: nat, legacy: Value): Thread {
    var limit, s := ValueLimit(o, t.handlers), t.stack;
    if Roomy(s, limit) && OnLua(s) && ShapeValid(f) && callBase + 1 + argumentCount <= s.top <= s.length then
      var current := s.frames[|s.frames| - 1];
      var plan := Plan(f, current.resultBase, argumentCount, current.wanted, limit);
      if plan.Some? && current.resultBase <= callBase
      then t.(stack := Replaced(s, f, callBase, plan.value, limit, legacy, TAIL_CALLS), cells := ClosedFrom(t.cells, current.base)) else t
    else t
  }

  lemma ReplacedShape(s: Stack, f: Shape, callBase: nat, l: Layout, limit: nat, legacy: Value)
    requires ShapeValid(f) && Roomy(s, limit) && s.frames != [] && callBase + 1 + l.argumentCount <= s.length && LayoutFits(f, l, limit)
    ensures var r, n := Replaced(s, f, callBase, l, limit, legacy, TAIL_CALLS), |s.frames| - 1;
      Roomy(r, limit) && r.frames == s.frames[n := TailFrame(f, l, s.frames[n], TAIL_CALLS)]
  {
  }

  /** Cells of the frame on top and above its base are closed; those left belong to frames under it. */
  lemma ClosedAbove(o: Options, t0: Thread, t: Thread, from: nat)
    requires ThreadDriven(o, t0, t) && |t0.stack.frames| < |t.stack.frames|
    requires t.stack.frames[|t.stack.frames| - 1].base <= from || Live(t0.stack) <= from
    ensures Live(t0.stack) <= from && Descending(ClosedFrom(t.cells, from))
    ensures ClosedFrom(ClosedFrom(t.cells, from), Live(t0.stack)) == t0.cells
    ensures forall c :: c in ClosedFrom(t.cells, from) ==> c in t.cells && c < from
  {
    TopAbove(t0, t);
    assert FrameValid(t.stack.frames, t.stack.frameExtent, |t.stack.frames| - 1);
    ClosedLower(t.cells, from, Live(t0.stack));
    ClosedAre(t.cells, from);
  }

  lemma TailCallKept(o: Options, t0: Thread, t: Thread, f: Shape, callBase: nat, argumentCount: nat, legacy: Value)
    requires ThreadDriven(o, t0, t) && |t0.stack.frames| < |t.stack.frames| && NothingPending(t.stack)
    ensures ThreadDriven(o, t0, TailCallStep(o, t, f, callBase, argumentCount, legacy))
  {
    var r, limit, n := TailCallStep(o, t, f, callBase, argumentCount, legacy), ValueLimit(o, t.handlers), |t.stack.frames| - 1;
    if r != t {
      var current := t.stack.frames[n];
      var l := Plan(f, current.resultBase, argumentCount, current.wanted, limit).value;
      TailCallDriven(t0.stack, t.stack, f, callBase, l, legacy, limit);
      ReplacedShape(t.stack, f, callBase, l, limit, legacy);
      ClosedAbove(o, t0, t, current.base);
      OwnedReplaced(t.stack.frames, t.cells, r.cells, TailFrame(f, l, current, TAIL_CALLS));
    }
  }

  function ReturnStep(t: Thread, firstResult: nat, resultCount: nat): Thread {
    var s := t.stack;
    if OnLua(s) && Live(s) <= s.length <= |s.values| && firstResult + resultCount <= Live(s) && ALL_RESULTS <= s.frames[|s.frames| - 1].wanted &&
      s.frames[|s.frames| - 1].resultBase <= firstResult
    then t.(stack := FinishedLua(s, firstResult, resultCount), cells := ClosedFrom(t.cells, s.frames[|s.frames| - 1].base)) else t
  }

  lemma FinishedShape(s: Stack, firstResult: nat, resultCount: nat)
    requires s.frames != [] && ALL_RESULTS <= s.frames[|s.frames| - 1].wanted && firstResult + resultCount <= s.length <= |s.values|
    ensures var r := FinishedLua(s, firstResult, resultCount);
      r.frames == s.frames[..|s.frames| - 1] && r.length == s.length && |r.values| == |s.values|
  {
  }

  lemma WindowsCut(frames: seq<Activation>, stop: nat)
    requires WindowsRise(frames) && stop <= |frames|
    ensures WindowsRise(frames[..stop])
  {
  }

  /** The frame on top has gone with its cells. */
  lemma PoppedKept(o: Options, t0: Thread, t: Thread, stack: Stack)
    requires ThreadDriven(o, t0, t) && |t0.stack.frames| < |t.stack.frames| && Driven(t0.stack, stack) && CallStack.Valid(stack)
    requires stack.frames == t.stack.frames[..|t.stack.frames| - 1] && stack.length == t.stack.length && |stack.values| == |t.stack.values|
    ensures ThreadDriven(o, t0, t.(stack := stack, cells := ClosedFrom(t.cells, t.stack.frames[|t.stack.frames| - 1].base)))
  {
    var n := |t.stack.frames| - 1;
    var base := t.stack.frames[n].base;
    ClosedAbove(o, t0, t, base);
    OwnedCut(t.stack.frames, t.cells, ClosedFrom(t.cells, base), n);
    WindowsCut(t.stack.frames, n);
  }

  lemma ReturnKept(o: Options, t0: Thread, t: Thread, firstResult: nat, resultCount: nat)
    requires ThreadDriven(o, t0, t) && |t0.stack.frames| < |t.stack.frames| && NothingPending(t.stack)
    ensures ThreadDriven(o, t0, ReturnStep(t, firstResult, resultCount))
  {
    if ReturnStep(t, firstResult, resultCount) != t {
      ReturnDriven(t0.stack, t.stack, firstResult, resultCount);
      FinishedShape(t.stack, firstResult, resultCount);
      PoppedKept(o, t0, t, FinishedLua(t.stack, firstResult, resultCount));
    }
  }

  /** A native function returns what it has prepared. */
  function NativeReturnStep(t: Thread, outputCount: nat): Thread {
    var s := t.stack;
    if OnNative(s) && NothingPending(s) && s.frames[|s.frames| - 1].resultBase + outputCount <= Live(s) && s.frames[|s.frames| - 1].wanted in {ALL_RESULTS, outputCount}
    then t.(stack := FinishedNative(s, outputCount)) else t
  }

  lemma NativeReturnKept(o: Options, t0: Thread, t: Thread, outputCount: nat)
    requires ThreadDriven(o, t0, t) && |t0.stack.frames| < |t.stack.frames|
    ensures ThreadDriven(o, t0, NativeReturnStep(t, outputCount))
  {
    var r, s, n := NativeReturnStep(t, outputCount), t.stack, |t.stack.frames| - 1;
    if r != t {
      NativeReturnDriven(t0.stack, s, outputCount);
      forall c | c in t.cells ensures exists j: nat :: Owns(s.frames[..n], j, c) {
        var j: nat :| Owns(s.frames, j, c);
        assert Owns(s.frames[..n], j, c);
      }
    }
  }

  /** Frames go one by one from the top, each closing its cells. */
  function UnwoundCells(frames: seq<Activation>, cells: seq<nat>, stop: nat): seq<nat>
    requires stop <= |frames|
  {
    if stop == |frames| then cells
    else UnwoundCells(frames[..|frames| - 1], ClosedFrom(cells, frames[|frames| - 1].base), stop)
  }

  lemma {:induction false} UnwoundCellsFewer(frames: seq<Activation>, cells: seq<nat>, stop: nat)
    requires stop <= |frames| && Descending(cells)
    ensures var r := UnwoundCells(frames, cells, stop); Descending(r) && forall c :: c in r ==> c in cells
  {
    if stop < |frames| {
      var n := |frames| - 1;
      ClosedAre(cells, frames[n].base);
      UnwoundCellsFewer(frames[..n], ClosedFrom(cells, frames[n].base), stop);
    }
  }

  lemma {:induction false} UnwoundCellsBelow(frames: seq<Activation>, cells: seq<nat>, stop: nat, k: nat)
    requires stop <= k < |frames| && Descending(cells)
    ensures forall c :: c in UnwoundCells(frames, cells, stop) ==> c < frames[k].base
  {
    var n := |frames| - 1;
    var closed := ClosedFrom(cells, frames[n].base);
    ClosedAre(cells, frames[n].base);
    UnwoundCellsFewer(frames[..n], closed, stop);
    if k < n { UnwoundCellsBelow(frames[..n], closed, stop, k); }
  }

  lemma {:induction false} UnwoundCellsKept(frames: seq<Activation>, cells: seq<nat>, stop: nat, lower: nat)
    requires stop <= |frames| && forall k :: stop <= k < |frames| ==> lower <= frames[k].base
    ensures ClosedFrom(UnwoundCells(frames, cells, stop), lower) == ClosedFrom(cells, lower)
  {
    if stop < |frames| {
      var n := |frames| - 1;
      ClosedLower(cells, frames[n].base, lower);
      UnwoundCellsKept(frames[..n], ClosedFrom(cells, frames[n].base), stop, lower);
    }
  }

  function UnwindStep(t: Thread, stop: nat, floor: nat): Thread {
    if floor < stop < |t.stack.frames|
    then t.(stack := Unwound(t.stack, stop), cells := UnwoundCells(t.stack.frames, t.cells, stop)) else t
  }

  lemma UnwindKept(o: Options, t0: Thread, t: Thread, stop: nat)
    requires ThreadDriven(o, t0, t)
    ensures ThreadDriven(o, t0, UnwindStep(t, stop, |t0.stack.frames|))
  {
    var r, s := UnwindStep(t, stop, |t0.stack.frames|), t.stack;
    if r != t {
      UnwoundDriven(t0.stack, s, stop);
      forall k | stop <= k < |s.frames| ensures Live(t0.stack) <= s.frames[k].base {
        ResultBasesRise(s.frames, |t0.stack.frames|, k);
        assert FrameValid(s.frames, s.frameExtent, k);
      }
      UnwoundCellsFewer(s.frames, t.cells, stop);
      UnwoundCellsKept(s.frames, t.cells, stop, Live(t0.stack));
      forall k | stop <= k < |s.frames| ensures forall c :: c in r.cells ==> c < s.frames[k].base {
        UnwoundCellsBelow(s.frames, t.cells, stop, k);
      }
      OwnedCut(s.frames, t.cells, r.cells, stop);
    }
  }

  // ----- steps under the same frames -----

  function ResumeStep(t: Thread): Thread {
    if t.stack.continuations != [] && !NothingPending(t.stack) then t.(stack := ResumedContinuation(t.stack)) else t
  }

  lemma ResumeKept(o: Options, t0: Thread, t: Thread)
    requires ThreadDriven(o, t0, t) && |t0.stack.frames| < |t.stack.frames|
    ensures ThreadDriven(o, t0, ResumeStep(t))
  {
    if ResumeStep(t) != t { ResumedDriven(t0.stack, t.stack); }
  }

  function AssignStep(t: Thread, index: nat, value: Value): Thread {
    if index < Live(t.stack) <= t.stack.length <= |t.stack.values| then t.(stack := Assigned(t.stack, index, value)) else t
  }

  lemma AssignKept(o: Options, t0: Thread, t: Thread, index: nat, value: Value)
    requires ThreadDriven(o, t0, t) && |t0.stack.frames| < |t.stack.frames|
    ensures ThreadDriven(o, t0, AssignStep(t, index, value))
  {
    if AssignStep(t, index, value) != t { SameFramesDriven(t0.stack, t.stack, AssignStep(t, index, value).stack); }
  }

  /** A closure captures a register of the running function. */
  function CaptureStep(t: Thread, index: nat): Thread {
    if OwnsTop(t.stack.frames, index) then t.(cells := CellAdded(t.cells, index)) else t
  }

  lemma CaptureKept(o: Options, t0: Thread, t: Thread, index: nat)
    requires ThreadDriven(o, t0, t) && |t0.stack.frames| < |t.stack.frames|
    ensures ThreadDriven(o, t0, CaptureStep(t, index))
  {
    if OwnsTop(t.stack.frames, index) {
      TopAbove(t0, t);
      assert FrameValid(t.stack.frames, t.stack.frameExtent, |t.stack.frames| - 1);
      AddedAre(t.cells, index);
      AddedClosed(t.cells, index, Live(t0.stack));
      OwnedAdded(t.stack.frames, t.cells, index);
    }
  }

  /** The running function closes cells of its own registers. */
  function CloseStep(t: Thread, from: nat): Thread {
    if OnLua(t.stack) && t.stack.frames[|t.stack.frames| - 1].base <= from then t.(cells := ClosedFrom(t.cells, from)) else t
  }

  lemma CloseKept(o: Options, t0: Thread, t: Thread, from: nat)
    requires ThreadDriven(o, t0, t) && |t0.stack.frames| < |t.stack.frames|
    ensures ThreadDriven(o, t0, CloseStep(t, from))
  {
    if CloseStep(t, from) != t {
      ClosedAbove(o, t0, t, from);
      OwnedFewer(t.stack.frames, t.cells, ClosedFrom(t.cells, from));
    }
  }
}
