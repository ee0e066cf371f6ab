/** Nested calls behind a checkpoint: whatever runs above it, restoring it never fails and gives back the
    captured frames, continuations, top and extent. */
module CallRuns {
  import opened StackCapacity
  import opened Wrappers
  import opened CallStack

  datatype Checkpoint = Checkpoint(frameDepth: nat, continuationDepth: nat, top: nat, frameExtent: nat, liveExtent: nat)

  function Captured(s: Stack): Checkpoint {
    Checkpoint(|s.frames|, |s.continuations|, s.top, s.frameExtent, Live(s))
  }

  /** None of the conditions holds under which restoring would give up. */
  predicate Restorable(s: Stack, cp: Checkpoint) {
    cp.frameDepth <= |s.frames| && cp.continuationDepth <= |s.continuations| &&
    cp.top <= cp.liveExtent && cp.frameExtent <= cp.liveExtent <= s.length && cp.liveExtent <= Live(s)
  }

  function Restored(s: Stack, cp: Checkpoint): Stack
    requires Restorable(s, cp)
  {
    s.(frames := s.frames[..cp.frameDepth], continuations := s.continuations[..cp.continuationDepth],
       top := cp.top, frameExtent := cp.frameExtent,
       values := Filled(s.values, cp.liveExtent, Min(Live(s), s.length), Empty))
  }

  const TAIL_CALLS: nat := 0xFFFF_FFFF

  predicate Roomy(s: Stack, limit: nat) {
    s.length <= |s.values| <= limit
  }

  predicate Stageable(s: Stack, f: Shape, staged: seq<Value>, wanted: int, limit: nat) {
    ShapeValid(f) && Roomy(s, limit) && staged != [] && ALL_RESULTS <= wanted &&
    (s.frames != [] && s.frames[|s.frames| - 1].shape.LuaShape? ==> wanted <= |staged|)
  }

  // ----- what stays below -----

  /** The frames and continuations of `s0` are still there, and nothing has reached below what was live then. */
  predicate Above(s0: Stack, s: Stack) {
    var d, c := |s0.frames|, |s0.continuations|;
    d <= |s.frames| && s.frames[..d] == s0.frames && c <= |s.continuations| && s.continuations[..c] == s0.continuations &&
    s0.length <= s.length && Live(s0) <= Live(s) &&
    (forall k :: c <= k < |s.continuations| ==> s.continuations[k].frameDepth > d) &&
    (d < |s.frames| ==> Live(s0) <= s.frames[d].resultBase && (d > 0 ==> Live(s0) <= s.frames[d].callerExtent))
  }

  /** Between the depth at which a driver stops and the frame on top there are Lua frames only. */
  predicate LuaBetween(frames: seq<Activation>, stopDepth: nat) {
    forall i :: stopDepth <= i < |frames| - 1 ==> frames[i].shape.LuaShape?
  }

  /** What a driver that stops at the depth of `s0` keeps. When it has returned to a native function, the results are
      past what was live before the call. */
  predicate Driven(s0: Stack, s: Stack) {
    Above(s0, s) && LuaBetween(s.frames, |s0.frames|) &&
    (|s.frames| == |s0.frames| && OnNative(s0) ==> Live(s0) <= s.top)
  }

  predicate OnNative(s: Stack) {
    s.frames != [] && s.frames[|s.frames| - 1].shape.NativeShape?
  }

  predicate OnLua(s: Stack) {
    s.frames != [] && s.frames[|s.frames| - 1].shape.LuaShape?
  }

  /** A checkpoint under another is restored through both. */
  lemma AboveTransitive(s0: Stack, s1: Stack, s2: Stack)
    requires Above(s0, s1) && Above(s1, s2)
    ensures Above(s0, s2)
  {
    assert s2.frames[..|s0.frames|] == s2.frames[..|s1.frames|][..|s0.frames|];
    assert s2.continuations[..|s0.continuations|] == s2.continuations[..|s1.continuations|][..|s0.continuations|];
    forall k | |s0.continuations| <= k < |s2.continuations| ensures s2.continuations[k].frameDepth > |s0.frames| {
      if k < |s1.continuations| { assert s2.continuations[k] == s2.continuations[..|s1.continuations|][k]; }
    }
    if |s0.frames| < |s1.frames| { assert s2.frames[|s0.frames|] == s2.frames[..|s1.frames|][|s0.frames|]; }
  }

  /** While a frame above is left, whatever the current extent is covers what was live. */
  lemma AboveLive(s0: Stack, s: Stack)
    requires FramesValid(s.frames, s.frameExtent) && |s0.frames| < |s.frames| && Live(s0) <= s.frames[|s0.frames|].resultBase
    ensures Live(s0) <= s.frameExtent
  {
    var d := |s0.frames|;
    assert FrameValid(s.frames, s.frameExtent, d);
    LastExtent(s.frames, s.frameExtent, d);
  }

  /** Frames added or replaced above the first one over the checkpoint change nothing below. */
  lemma AboveKept(s0: Stack, s: Stack, r: Stack)
    requires Above(s0, s) && |s0.frames| < |s.frames| && |s0.frames| < |r.frames| && Valid(r)
    requires r.frames[..|s0.frames|] == s.frames[..|s0.frames|] && s.length <= r.length
    requires r.frames[|s0.frames|].resultBase == s.frames[|s0.frames|].resultBase
    requires r.frames[|s0.frames|].callerExtent == s.frames[|s0.frames|].callerExtent
    requires |s0.continuations| <= |r.continuations| && r.continuations[..|s0.continuations|] == s0.continuations
    requires forall k :: |s0.continuations| <= k < |r.continuations| ==> r.continuations[k].frameDepth > |s0.frames|
    ensures Above(s0, r)
  {
    AboveLive(s0, r);
  }

  lemma DrivenKept(s0: Stack, s: Stack, r: Stack)
    requires Driven(s0, s) && Above(s0, r) && |s0.frames| < |r.frames| && |r.frames| <= |s.frames| + 1
    requires r.frames[..|r.frames| - 1] == s.frames[..|r.frames| - 1]
    requires |r.frames| > |s.frames| ==> OnLua(s)
    ensures Driven(s0, r)
  {
    forall i | |s0.frames| <= i < |r.frames| - 1 ensures r.frames[i].shape.LuaShape? {
      assert r.frames[i] == r.frames[..|r.frames| - 1][i] == s.frames[i];
    }
  }

  lemma CallDriven(s0: Stack, s: Stack, f: Shape, l: Layout, legacy: Value, limit: nat)
    requires Valid(s) && NothingPending(s) && Driven(s0, s) && |s0.frames| < |s.frames| && Roomy(s, limit) && OnLua(s)
    requires ShapeValid(f) && LayoutFits(f, l, limit)
    requires CallFits(s, l.resultBase, l.argumentCount, l.wanted)
    ensures Valid(Pushed(s, f, l, limit, legacy)) && Driven(s0, Pushed(s, f, l, limit, legacy))
  {
    var r := Pushed(s, f, l, limit, legacy);
    PushedValid(s, f, l, limit, legacy);
    PushedShape(s, f, l, limit, legacy);
    AboveKept(s0, s, r);
    assert r.frames[..|r.frames| - 1] == s.frames;
    assert s.frames[..|r.frames| - 1] == s.frames;
    DrivenKept(s0, s, r);
  }

  lemma TailCallDriven(s0: Stack, s: Stack, f: Shape, callBase: nat, l: Layout, legacy: Value, limit: nat)
    requires Valid(s) && NothingPending(s) && Driven(s0, s) && |s0.frames| < |s.frames| && Roomy(s, limit)
    requires ShapeValid(f) && LayoutFits(f, l, limit)
    requires var current := s.frames[|s.frames| - 1];
             l.resultBase == current.resultBase && l.wanted == current.wanted && current.resultBase <= callBase
    requires callBase + 1 + l.argumentCount <= s.top
    ensures var r := Replaced(s, f, callBase, l, limit, legacy, TAIL_CALLS); Valid(r) && Driven(s0, r)
  {
    var r := Replaced(s, f, callBase, l, limit, legacy, TAIL_CALLS);
    ReplacedValid(s, f, callBase, l, limit, legacy, TAIL_CALLS);
    assert r.frames[..|s0.frames|] == s.frames[..|s0.frames|];
    assert r.frames[..|r.frames| - 1] == s.frames[..|s.frames| - 1];
    AboveKept(s0, s, r);
    DrivenKept(s0, s, r);
  }

  /** A frame is gone: either another one above is left, or the extent it had saved is back. */
  lemma PoppedDriven(s0: Stack, s: Stack, values: seq<Value>, outputCount: nat)
    requires Valid(s) && Driven(s0, s) && |s0.frames| < |s.frames| && |values| == |s.values|
    requires Valid(Popped(s, values, NewTop(s, outputCount)))
    ensures Driven(s0, Popped(s, values, NewTop(s, outputCount)))
  {
    var d, r := |s0.frames|, Popped(s, values, NewTop(s, outputCount));
    assert r.frames[..d] == s.frames[..d];
    if d < |r.frames| {
      AboveKept(s0, s, r);
      assert r.frames[..|r.frames| - 1] == s.frames[..|r.frames| - 1];
      DrivenKept(s0, s, r);
    }
  }

  lemma ReturnDriven(s0: Stack, s: Stack, firstResult: nat, resultCount: nat)
    requires Valid(s) && NothingPending(s) && Driven(s0, s) && |s0.frames| < |s.frames|
    requires firstResult + resultCount <= Live(s) && s.frames[|s.frames| - 1].resultBase <= firstResult
    ensures ALL_RESULTS <= s.frames[|s.frames| - 1].wanted
    ensures Valid(FinishedLua(s, firstResult, resultCount)) && Driven(s0, FinishedLua(s, firstResult, resultCount))
  {
    FinishedLuaValid(s, firstResult, resultCount);
    var frame := s.frames[|s.frames| - 1];
    var count := Wanted(frame, resultCount);
    PoppedDriven(s0, s, HandedDown(s.values, frame.resultBase, firstResult, resultCount, count), count);
  }

  lemma NativeReturnDriven(s0: Stack, s: Stack, outputCount: nat)
    requires Valid(s) && NothingPending(s) && Driven(s0, s) && |s0.frames| < |s.frames|
    requires s.frames[|s.frames| - 1].resultBase + outputCount <= Live(s) && s.frames[|s.frames| - 1].wanted in {ALL_RESULTS, outputCount}
    ensures Valid(FinishedNative(s, outputCount)) && Driven(s0, FinishedNative(s, outputCount))
  {
    FinishedNativeValid(s, outputCount);
    PoppedDriven(s0, s, s.values, outputCount);
  }

  /** Changes of slots and extents under the same frames. */
  lemma SameFramesDriven(s0: Stack, s: Stack, r: Stack)
    requires Driven(s0, s) && |s0.frames| < |s.frames| && Valid(r) && r.frames == s.frames && r.continuations == s.continuations
    requires s.length <= r.length
    ensures Driven(s0, r)
  {
    AboveKept(s0, s, r);
  }

  lemma BelowDepth(s0: Stack, s: Stack)
    requires Valid(s0) && Above(s0, s)
    ensures forall k :: 0 <= k < |s0.continuations| ==> s.continuations[k].frameDepth <= |s0.frames|
  {
    forall k | 0 <= k < |s0.continuations| ensures s.continuations[k].frameDepth <= |s0.frames| {
      assert s.continuations[k] == s.continuations[..|s0.continuations|][k];
      assert ContinuationValid(s0.frames, s0.frameExtent, s0.continuations[k]);
    }
  }

  lemma UnwoundDriven(s0: Stack, s: Stack, stop: nat)
    requires Valid(s0) && Valid(s) && Driven(s0, s) && |s0.frames| < stop < |s.frames|
    ensures Valid(Unwound(s, stop)) && Driven(s0, Unwound(s, stop))
  {
    var c, n, r := |s0.continuations|, KeptContinuations(s.continuations, stop), Unwound(s, stop);
    UnwoundValid(s, stop);
    KeptAre(s.frames, s.frameExtent, s.continuations, stop);
    BelowDepth(s0, s);
    assert c <= n;
    AboveKept(s0, s, r);
    assert r.frames[..|r.frames| - 1] == s.frames[..|r.frames| - 1];
    DrivenKept(s0, s, r);
  }

  lemma MetamethodDriven(s0: Stack, s: Stack, f: Shape, staged: seq<Value>, wanted: int, legacy: Value, limit: nat)
    requires Valid(s) && NothingPending(s) && Driven(s0, s) && |s0.frames| < |s.frames| && Roomy(s, limit) && OnLua(s)
    requires ShapeValid(f) && staged != [] && wanted in {0, 1} && MetamethodCall(s, f, staged, wanted, limit, legacy).Some?
    ensures var r := MetamethodCall(s, f, staged, wanted, limit, legacy).value; Valid(r) && Driven(s0, r)
  {
    var r := MetamethodCall(s, f, staged, wanted, limit, legacy).value;
    MetamethodCallValid(s, f, staged, wanted, limit, legacy);
    StagedCallShape(s, f, staged, wanted, limit, legacy);
    assert r.frames[..|s0.frames|] == r.frames[..|s.frames|][..|s0.frames|] == s.frames[..|s0.frames|];
    assert r.frames[|s0.frames|] == r.frames[..|s.frames|][|s0.frames|];
    AboveKept(s0, s, r);
    assert r.frames[..|r.frames| - 1] == s.frames == s.frames[..|r.frames| - 1];
    DrivenKept(s0, s, r);
  }

  lemma ResumedDriven(s0: Stack, s: Stack)
    requires Valid(s0) && Valid(s) && !NothingPending(s) && Driven(s0, s) && |s0.frames| < |s.frames|
    ensures Valid(ResumedContinuation(s)) && Driven(s0, ResumedContinuation(s))
  {
    var c, n := |s0.continuations|, |s.continuations| - 1;
    assert ContinuationValid(s.frames, s.frameExtent, s.continuations[n]);
    ResumedValid(s);
    BelowDepth(s0, s);
    assert c <= n;
    AboveKept(s0, s, ResumedContinuation(s));
  }

  // ----- restoring -----

  /** What restoring gives back. */
  lemma RestoredIs(s0: Stack, s: Stack)
    requires Valid(s0) && Valid(s) && Above(s0, s)
    ensures Restorable(s, Captured(s0))
    ensures var r := Restored(s, Captured(s0));
            Valid(r) && r.frames == s0.frames && r.continuations == s0.continuations && r.top == s0.top && r.frameExtent == s0.frameExtent &&
            s0.length <= r.length
  {
    var r := Restored(s, Captured(s0));
    assert EmptyFrom(r.values, Live(r));
  }

  /** Staging a call puts everything that follows above the checkpoint. */
  lemma StagedDriven(s0: Stack, f: Shape, staged: seq<Value>, wanted: int, limit: nat, legacy: Value)
    requires Valid(s0) && NothingPending(s0) && Stageable(s0, f, staged, wanted, limit)
    requires StagedCall(s0, f, staged, wanted, limit, legacy).Some?
    ensures var r := StagedCall(s0, f, staged, wanted, limit, legacy).value; Valid(r) && Driven(s0, r)
  {
    StagedCallValid(s0, f, staged, wanted, limit, legacy);
    StagedCallShape(s0, f, staged, wanted, limit, legacy);
    var r := StagedCall(s0, f, staged, wanted, limit, legacy).value;
    AboveLive(s0, r);
    assert r.continuations[..|s0.continuations|] == s0.continuations;
  }
}
