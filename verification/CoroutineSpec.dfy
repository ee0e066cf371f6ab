/** Coroutines as a step system: which thread runs, who resumed it, and which native callbacks are under way. */
module CoroutineSpec {
  import opened Wrappers

  type Id = nat

  datatype FrameKind = LuaFrame | NativeFrame
  datatype Status = Ready | Running | Normal | Suspended | Dead

  /** A continuation is recorded by the number of frames there were when the suspended call was made. */
  datatype Thread = Thread(status: Status, frames: seq<FrameKind>, continuations: seq<nat>, nativeDepth: nat, token: nat)

  /** The host's own call stack: executions of a thread and native callbacks on the thread executed last. */
  datatype Control =
    | Execution(thread: Id)
    | Callback(thread: Id, depth: nat, continuations: nat, token: nat, parent: nat)

  // ----- the host stack -----

  /** An execution other than the outermost was started by a callback of another thread; a callback belongs
      to the thread under execution.  No thread is executed twice. */
  predicate NestedAt(control: seq<Control>, i: nat)
    requires i < |control|
  {
    MayFollow(control[..i], control[i])
  }

  predicate MayFollow(control: seq<Control>, e: Control) {
    if e.Execution? then e !in control && (control == [] || control[|control| - 1].Callback?)
    else control != [] && control[|control| - 1].thread == e.thread && e.token > 0 && e.parent == TokenOf(control, e.thread)
  }

  predicate Nested(control: seq<Control>) {
    forall i {:trigger NestedAt(control, i)} :: 0 <= i < |control| ==> NestedAt(control, i)
  }

  function Top(control: seq<Control>): Option<Id> {
    if control == [] then None else Some(control[|control| - 1].thread)
  }

  /** The callbacks of a thread that are under way. */
  function CallbacksOf(control: seq<Control>, id: Id): nat {
    if control == [] then 0
    else
      var last := control[|control| - 1];
      CallbacksOf(control[..|control| - 1], id) + if last.Callback? && last.thread == id then 1 else 0
  }

  function Callbacks(control: seq<Control>): nat {
    if control == [] then 0
    else Callbacks(control[..|control| - 1]) + if control[|control| - 1].Callback? then 1 else 0
  }

  /** The token of the innermost callback of a thread, 0 when there is none. */
  function TokenOf(control: seq<Control>, id: Id): nat {
    if control == [] then 0
    else
      var last := control[|control| - 1];
      if last.Callback? && last.thread == id then last.token else TokenOf(control[..|control| - 1], id)
  }

  /** The executed threads, each resumed by the one before it. */
  function Chain(control: seq<Control>): seq<Id> {
    if control == [] then []
    else
      var last := control[|control| - 1];
      Chain(control[..|control| - 1]) + if last.Execution? then [last.thread] else []
  }

  // ----- one thread -----

  predicate NoNative(frames: seq<FrameKind>) {
    NativeFrame !in frames
  }

  function Natives(frames: seq<FrameKind>): nat {
    if frames == [] then 0 else Natives(frames[..|frames| - 1]) + if frames[|frames| - 1] == NativeFrame then 1 else 0
  }

  /** Every continuation waits for a frame that exists, inner ones for higher frames. */
  predicate ContinuationsFit(continuations: seq<nat>, frames: nat) {
    (forall k :: 0 <= k < |continuations| ==> continuations[k] < frames) &&
    forall j, k :: 0 <= j < k < |continuations| ==> continuations[j] < continuations[k]
  }

  predicate Splits(continuations: seq<nat>, c: nat, depth: nat) {
    c <= |continuations| && (forall k :: 0 <= k < c ==> continuations[k] < depth) &&
    forall k :: 0 <= k < |continuations| && continuations[k] < depth ==> k < c
  }

  /** The native frames of a thread are exactly those of its callbacks, in order. */
  predicate FramesMatch(control: seq<Control>, id: Id, frames: seq<FrameKind>, continuations: seq<nat>) {
    if control == [] then NoNative(frames)
    else
      var last, rest := control[|control| - 1], control[..|control| - 1];
      if last.Callback? && last.thread == id then
        0 < last.depth <= |frames| && frames[last.depth - 1] == NativeFrame && NoNative(frames[last.depth..]) &&
        Splits(continuations, last.continuations, last.depth) &&
        FramesMatch(rest, id, frames[..last.depth - 1], continuations[..last.continuations])
      else FramesMatch(rest, id, frames, continuations)
  }

  predicate ThreadValid(control: seq<Control>, main: Id, id: Id, t: Thread) {
    t.nativeDepth == CallbacksOf(control, id) && t.token == TokenOf(control, id) &&
    (t.status == Running <==> Top(control) == Some(id)) &&
    (t.status == Normal <==> Execution(id) in control && Top(control) != Some(id)) &&
    if t.status == Running || t.status == Normal then
      FramesMatch(control, id, t.frames, t.continuations) && ContinuationsFit(t.continuations, |t.frames|)
    else
      t.continuations == [] && (id == main <==> t.status == Ready) &&
      (t.frames == [] || (t.status == Suspended && Yielded(t.frames)))
  }

  /** A thread suspended by a yield: one native frame, on top. */
  predicate Yielded(frames: seq<FrameKind>) {
    frames != [] && frames[|frames| - 1] == NativeFrame && NoNative(frames[..|frames| - 1])
  }

  // ----- everything -----

  predicate ControlOwned(threads: map<Id, Thread>, control: seq<Control>) {
    forall i :: 0 <= i < |control| ==> control[i].thread in threads
  }

  predicate Consistent(threads: map<Id, Thread>, main: Id, active: Option<Id>, control: seq<Control>, nativeDepth: nat) {
    main in threads && Nested(control) && ControlOwned(threads, control) &&
    active == Top(control) && nativeDepth == Callbacks(control) &&
    forall id {:trigger ThreadValid(control, main, id, threads[id])} :: id in threads ==> ThreadValid(control, main, id, threads[id])
  }

  // ----- what consistency means -----

  lemma {:induction false} ExecutionsInChain(control: seq<Control>, id: Id)
    ensures Execution(id) in control <==> id in Chain(control)
  {
    if control != [] {
      ExecutionsInChain(control[..|control| - 1], id);
      assert control == control[..|control| - 1] + [control[|control| - 1]];
    }
  }

  lemma NestedPrefix(control: seq<Control>, n: nat)
    requires Nested(control) && n <= |control|
    ensures Nested(control[..n])
  {
    var prefix := control[..n];
    forall i | 0 <= i < |prefix| ensures NestedAt(prefix, i) {
      assert NestedAt(control, i);
      assert prefix[..i] == control[..i];
    }
  }

  lemma {:induction false} ChainTop(control: seq<Control>)
    requires Nested(control)
    ensures control == [] <==> Chain(control) == []
    ensures control != [] ==> Top(control) == Some(Chain(control)[|Chain(control)| - 1])
    ensures forall i, j :: 0 <= i < j < |Chain(control)| ==> Chain(control)[i] != Chain(control)[j]
  {
    if control != [] {
      var n := |control| - 1;
      NestedPrefix(control, n);
      ChainTop(control[..n]);
      assert NestedAt(control, n);
      if control[n].Execution? {
        ExecutionsInChain(control[..n], control[n].thread);
      }
    }
  }

  /** The active thread is the only running one, and the normal threads are exactly those that resumed each
      other down to it. */
  lemma ActiveAndResumers(threads: map<Id, Thread>, main: Id, active: Option<Id>, control: seq<Control>, nativeDepth: nat)
    requires Consistent(threads, main, active, control, nativeDepth)
    ensures forall id :: id in threads ==> (threads[id].status == Running <==> active == Some(id))
    ensures var chain := Chain(control);
            (active == None <==> chain == []) && (chain != [] ==> active == Some(chain[|chain| - 1])) &&
            (forall i, j :: 0 <= i < j < |chain| ==> chain[i] != chain[j]) &&
            forall id :: id in threads ==> (threads[id].status == Normal <==> chain != [] && id in chain[..|chain| - 1])
  {
    ChainTop(control);
    var chain := Chain(control);
    forall id | id in threads
      ensures threads[id].status == Running <==> active == Some(id)
      ensures threads[id].status == Normal <==> chain != [] && id in chain[..|chain| - 1]
    {
      assert ThreadValid(control, main, id, threads[id]);
      ExecutionsInChain(control, id);
      if chain != [] { assert chain == chain[..|chain| - 1] + [chain[|chain| - 1]]; }
    }
  }

  /** Every thread suspended by a yield has no continuations, no native depth, and exactly one native frame, on top. */
  lemma SuspendedShape(threads: map<Id, Thread>, main: Id, active: Option<Id>, control: seq<Control>, nativeDepth: nat, id: Id)
    requires Consistent(threads, main, active, control, nativeDepth) && id in threads && threads[id].status == Suspended
    ensures threads[id].continuations == [] && threads[id].nativeDepth == 0
    ensures threads[id].frames != [] ==>
      threads[id].frames[|threads[id].frames| - 1] == NativeFrame && Natives(threads[id].frames) == 1
  {
    assert ThreadValid(control, main, id, threads[id]);
    OffChainNoCallbacks(control, id);
    NoNativeCount(threads[id].frames[..if threads[id].frames == [] then 0 else |threads[id].frames| - 1]);
  }

  lemma {:induction false} NoNativeCount(frames: seq<FrameKind>)
    requires NoNative(frames)
    ensures Natives(frames) == 0
  {
    if frames != [] {
      assert forall k :: k in frames[..|frames| - 1] ==> k in frames;
      NoNativeCount(frames[..|frames| - 1]);
    }
  }

  /** A thread that is not under execution has no callbacks under way. */
  lemma {:induction false} OffChainNoCallbacks(control: seq<Control>, id: Id)
    requires Nested(control) && Execution(id) !in control
    ensures CallbacksOf(control, id) == 0 && TokenOf(control, id) == 0 && Top(control) != Some(id)
  {
    if control != [] {
      var n := |control| - 1;
      NestedPrefix(control, n);
      assert forall x :: x in control[..n] ==> x in control;
      OffChainNoCallbacks(control[..n], id);
      assert NestedAt(control, n);
      if control[n].Callback? { assert Top(control[..n]) == Some(control[n - 1].thread); }
    }
  }

  // ----- the native depth as a sum over threads -----

  function SumDepths(ids: seq<Id>, threads: map<Id, Thread>): nat
    requires forall i :: 0 <= i < |ids| ==> ids[i] in threads
  {
    if ids == [] then 0 else SumDepths(ids[..|ids| - 1], threads) + threads[ids[|ids| - 1]].nativeDepth
  }

  function SumCallbacks(ids: seq<Id>, control: seq<Control>): nat {
    if ids == [] then 0 else SumCallbacks(ids[..|ids| - 1], control) + CallbacksOf(control, ids[|ids| - 1])
  }

  predicate Distinct(ids: seq<Id>) {
    forall i, j :: 0 <= i < j < |ids| ==> ids[i] != ids[j]
  }

  /** Taking one callback away lowers the sum by one if its thread is counted. */
  lemma {:induction false} SumStep(ids: seq<Id>, control: seq<Control>)
    requires control != [] && Distinct(ids)
    ensures var last := control[|control| - 1];
            SumCallbacks(ids, control) ==
            SumCallbacks(ids, control[..|control| - 1]) + if last.Callback? && last.thread in ids then 1 else 0
  {
    if ids != [] {
      SumStep(ids[..|ids| - 1], control);
      assert ids == ids[..|ids| - 1] + [ids[|ids| - 1]];
    }
  }

  lemma {:induction false} SumIsTotal(ids: seq<Id>, control: seq<Control>)
    requires Distinct(ids) && forall i :: 0 <= i < |control| ==> control[i].thread in ids
    ensures SumCallbacks(ids, control) == Callbacks(control)
  {
    if control == [] {
      SumEmpty(ids);
    } else {
      SumStep(ids, control);
      SumIsTotal(ids, control[..|control| - 1]);
    }
  }

  lemma {:induction false} SumEmpty(ids: seq<Id>)
    ensures SumCallbacks(ids, []) == 0
  {
    if ids != [] { SumEmpty(ids[..|ids| - 1]); }
  }

  lemma {:induction false} SumsAgree(ids: seq<Id>, threads: map<Id, Thread>, control: seq<Control>)
    requires forall i :: 0 <= i < |ids| ==> ids[i] in threads && threads[ids[i]].nativeDepth == CallbacksOf(control, ids[i])
    ensures SumDepths(ids, threads) == SumCallbacks(ids, control)
  {
    if ids != [] { SumsAgree(ids[..|ids| - 1], threads, control); }
  }

  /** The runtime's native depth is the sum of its threads' depths, whatever order they are counted in. */
  lemma NativeDepthIsSum(threads: map<Id, Thread>, main: Id, active: Option<Id>, control: seq<Control>, nativeDepth: nat, ids: seq<Id>)
    requires Consistent(threads, main, active, control, nativeDepth)
    requires Distinct(ids) && forall id :: id in ids <==> id in threads
    ensures nativeDepth == SumDepths(ids, threads)
  {
    forall i | 0 <= i < |ids| ensures threads[ids[i]].nativeDepth == CallbacksOf(control, ids[i]) {
      assert ids[i] in ids;
      assert ThreadValid(control, main, ids[i], threads[ids[i]]);
    }
    SumsAgree(ids, threads, control);
    SumIsTotal(ids, control);
  }

  // ----- growing and shrinking the host stack -----

  lemma Pushed(control: seq<Control>, e: Control)
    ensures (control + [e])[..|control|] == control && (control + [e])[|control|] == e
    ensures Top(control + [e]) == Some(e.thread)
    ensures forall x :: x in control + [e] <==> x in control || x == e
  {
  }

  lemma PushNested(control: seq<Control>, e: Control)
    requires Nested(control) && MayFollow(control, e)
    ensures Nested(control + [e])
  {
    var grown := control + [e];
    Pushed(control, e);
    forall i | 0 <= i < |grown| ensures NestedAt(grown, i) {
      if i < |control| { assert NestedAt(control, i); }
      assert grown[..i] == control[..i];
    }
  }

  /** An entry of another thread, or an execution, does not concern a thread's callbacks. */
  lemma OtherEntry(control: seq<Control>, id: Id, frames: seq<FrameKind>, continuations: seq<nat>)
    requires control != [] && !(control[|control| - 1].Callback? && control[|control| - 1].thread == id)
    ensures var rest := control[..|control| - 1];
            CallbacksOf(control, id) == CallbacksOf(rest, id) && TokenOf(control, id) == TokenOf(rest, id) &&
            (FramesMatch(control, id, frames, continuations) <==> FramesMatch(rest, id, frames, continuations))
  {
  }

  /** A thread that is not under execution has frames of Lua functions only when they match. */
  lemma {:induction false} OffChainMatch(control: seq<Control>, id: Id, frames: seq<FrameKind>, continuations: seq<nat>)
    requires Nested(control) && Execution(id) !in control
    ensures FramesMatch(control, id, frames, continuations) <==> NoNative(frames)
  {
    if control != [] {
      var n := |control| - 1;
      NestedPrefix(control, n);
      assert forall x :: x in control[..n] ==> x in control;
      OffChainMatch(control[..n], id, frames, continuations);
      OffChainNoCallbacks(control[..n], id);
      assert NestedAt(control, n);
      if control[n].Callback? { assert Top(control[..n]) == Some(control[n - 1].thread); }
    }
  }

  /** The thread on top of the host stack is under execution. */
  lemma {:induction false} TopOnChain(control: seq<Control>, id: Id)
    requires Nested(control) && Top(control) == Some(id)
    ensures Execution(id) in control
  {
    var n := |control| - 1;
    if control[n].Callback? {
      NestedPrefix(control, n);
      assert NestedAt(control, n);
      TopOnChain(control[..n], id);
      assert forall x :: x in control[..n] ==> x in control;
    }
  }

  // ----- starting and ending a callback -----

  lemma CallbackStarts(control: seq<Control>, main: Id, e: Control, id: Id, t: Thread)
    requires Nested(control + [e]) && e.Callback? && e.thread != id && ThreadValid(control, main, id, t)
    requires Top(control) == Some(e.thread)
    ensures ThreadValid(control + [e], main, id, t)
  {
    Pushed(control, e);
    OtherEntry(control + [e], id, t.frames, t.continuations);
  }

  lemma CallbackEnds(control: seq<Control>, main: Id, id: Id, t: Thread)
    requires control != [] && Nested(control) && control[|control| - 1].Callback? && control[|control| - 1].thread != id
    requires ThreadValid(control, main, id, t)
    ensures ThreadValid(control[..|control| - 1], main, id, t)
  {
    var rest := control[..|control| - 1];
    assert NestedAt(control, |control| - 1);
    assert control == rest + [control[|control| - 1]];
    OtherEntry(control, id, t.frames, t.continuations);
  }

  // ----- starting and ending an execution -----

  /** What `id` becomes when another thread is resumed: the resumer turns normal. */
  function AfterResume(t: Thread, resumer: bool): Thread {
    if resumer then t.(status := Normal) else t
  }

  lemma ExecutionStarts(control: seq<Control>, main: Id, started: Id, id: Id, t: Thread)
    requires Nested(control) && Execution(started) !in control && (control == [] || control[|control| - 1].Callback?)
    requires id != started && ThreadValid(control, main, id, t)
    ensures ThreadValid(control + [Execution(started)], main, id, AfterResume(t, Top(control) == Some(id)))
  {
    var e := Execution(started);
    Pushed(control, e);
    OtherEntry(control + [e], id, t.frames, t.continuations);
    if Top(control) == Some(id) { TopOnChain(control, id); }
  }

  /** The thread below the ended execution runs again. */
  function AfterEnd(t: Thread, resumer: bool): Thread {
    if resumer then t.(status := Running) else t
  }

  lemma ExecutionEnds(control: seq<Control>, main: Id, id: Id, t: Thread)
    requires control != [] && Nested(control) && control[|control| - 1].Execution? && control[|control| - 1].thread != id
    requires ThreadValid(control, main, id, t)
    ensures ThreadValid(control[..|control| - 1], main, id, AfterEnd(t, Top(control[..|control| - 1]) == Some(id)))
  {
    var n := |control| - 1;
    var rest := control[..n];
    assert control == rest + [control[n]];
    NestedPrefix(control, n);
    OtherEntry(control, id, t.frames, t.continuations);
    if Top(rest) == Some(id) {
      TopOnChain(rest, id);
      assert Execution(id) in control;
    }
  }

  /** The thread whose execution has ended has nothing left on the host stack. */
  lemma EndedOffChain(control: seq<Control>)
    requires control != [] && Nested(control) && control[|control| - 1].Execution?
    ensures var rest, id := control[..|control| - 1], control[|control| - 1].thread;
            Nested(rest) && Execution(id) !in rest && CallbacksOf(control, id) == 0 && TokenOf(control, id) == 0 &&
            CallbacksOf(rest, id) == 0 && TokenOf(rest, id) == 0 && Top(rest) != Some(id)
  {
    var n := |control| - 1;
    assert NestedAt(control, n);
    NestedPrefix(control, n);
    OffChainNoCallbacks(control[..n], control[n].thread);
    OtherEntry(control, control[n].thread, [], []);
  }

  /** The threads once the active one has made way for another. */
  function MadeWay(threads: map<Id, Thread>, active: Option<Id>): map<Id, Thread> {
    if active.Some? && active.value in threads then threads[active.value := threads[active.value].(status := Normal)] else threads
  }

  /** A thread the runtime does not know is nowhere on the host stack. */
  lemma UnknownOffChain(threads: map<Id, Thread>, main: Id, active: Option<Id>, control: seq<Control>, nativeDepth: nat, id: Id)
    requires Consistent(threads, main, active, control, nativeDepth) && id !in threads
    ensures Execution(id) !in control && CallbacksOf(control, id) == 0 && TokenOf(control, id) == 0 && Top(control) != Some(id)
  {
    assert forall x :: x in control ==> x.thread in threads;
    OffChainNoCallbacks(control, id);
  }

  /** Only one thread's record changes, and it stays valid. */
  lemma ChangedOne(threads: map<Id, Thread>, main: Id, active: Option<Id>, control: seq<Control>, nativeDepth: nat, id: Id, t: Thread)
    requires Consistent(threads, main, active, control, nativeDepth) && id in threads && ThreadValid(control, main, id, t)
    ensures Consistent(threads[id := t], main, active, control, nativeDepth)
  {
    var changed := threads[id := t];
    forall other | other in changed ensures ThreadValid(control, main, other, changed[other]) {
      if other != id { assert ThreadValid(control, main, other, threads[other]); }
    }
  }

  /** How many frames of the executed thread belong to what its innermost callback was called from. */
  function Boundary(control: seq<Control>): nat {
    if control != [] && control[|control| - 1].Callback? then control[|control| - 1].depth else 0
  }

  /** Above the boundary there are only Lua frames, and every continuation that waits there is above it too. */
  lemma AboveBoundary(control: seq<Control>, id: Id, frames: seq<FrameKind>, continuations: seq<nat>)
    requires Nested(control) && Top(control) == Some(id)
    requires FramesMatch(control, id, frames, continuations) && ContinuationsFit(continuations, |frames|)
    ensures Boundary(control) <= |frames| && NoNative(frames[Boundary(control)..])
  {
    var n := |control| - 1;
    if control[n].Execution? {
      EndedOffChain(control);
      OtherEntry(control, id, frames, continuations);
      OffChainMatch(control[..n], id, frames, continuations);
    }
  }

  /** The record of a thread that calls a Lua function, suspending work of its own until the call returns or not. */
  function Calling(t: Thread, suspends: bool): Thread {
    t.(continuations := if suspends then t.continuations + [|t.frames|] else t.continuations)
  }

  lemma CallMatches(control: seq<Control>, id: Id, t: Thread, suspends: bool)
    requires Nested(control) && Top(control) == Some(id)
    requires FramesMatch(control, id, t.frames, t.continuations) && ContinuationsFit(t.continuations, |t.frames|)
    ensures var called := Calling(t, suspends);
            FramesMatch(control, id, t.frames + [LuaFrame], called.continuations) &&
            ContinuationsFit(called.continuations, |t.frames| + 1)
  {
    var n := |control| - 1;
    var frames, conts := t.frames + [LuaFrame], Calling(t, suspends).continuations;
    AboveBoundary(control, id, t.frames, t.continuations);
    if control[n].Execution? {
      EndedOffChain(control);
      OtherEntry(control, id, frames, conts);
      OffChainMatch(control[..n], id, frames, conts);
      assert frames[0..] == frames && t.frames[0..] == t.frames;
    } else {
      var d, c := control[n].depth, control[n].continuations;
      assert frames[..d - 1] == t.frames[..d - 1] && frames[d..] == t.frames[d..] + [LuaFrame];
      assert conts[..c] == t.continuations[..c];
    }
  }

  /** The frame on top is gone, and with it the continuation that waited for it. */
  function Returning(t: Thread): Thread
    requires t.frames != []
  {
    var frames, n := t.frames[..|t.frames| - 1], |t.continuations|;
    t.(frames := frames, continuations := if n > 0 && t.continuations[n - 1] == |frames| then t.continuations[..n - 1] else t.continuations)
  }

  lemma ReturnFits(t: Thread)
    requires t.frames != [] && ContinuationsFit(t.continuations, |t.frames|)
    ensures ContinuationsFit(Returning(t).continuations, |t.frames| - 1)
  {
  }

  lemma ReturnMatches(control: seq<Control>, id: Id, t: Thread)
    requires Nested(control) && Top(control) == Some(id) && |t.frames| > Boundary(control)
    requires FramesMatch(control, id, t.frames, t.continuations) && ContinuationsFit(t.continuations, |t.frames|)
    ensures FramesMatch(control, id, Returning(t).frames, Returning(t).continuations)
  {
    var n := |control| - 1;
    var frames, conts := Returning(t).frames, Returning(t).continuations;
    AboveBoundary(control, id, t.frames, t.continuations);
    if control[n].Execution? {
      EndedOffChain(control);
      OtherEntry(control, id, frames, conts);
      OffChainMatch(control[..n], id, frames, conts);
      assert t.frames[0..] == t.frames;
      assert forall x :: x in frames ==> x in t.frames;
    } else {
      var d, c := control[n].depth, control[n].continuations;
      assert frames[..d - 1] == t.frames[..d - 1];
      assert forall x :: x in frames[d..] ==> x in t.frames[d..];
      assert conts[..c] == t.continuations[..c];
    }
  }

  lemma NativeMatches(control: seq<Control>, id: Id, t: Thread, suspends: bool, token: nat)
    requires Nested(control) && Top(control) == Some(id)
    requires FramesMatch(control, id, t.frames, t.continuations) && ContinuationsFit(t.continuations, |t.frames|)
    ensures var called := Calling(t, suspends);
            var e := Callback(id, |t.frames| + 1, |called.continuations|, token, TokenOf(control, id));
            FramesMatch(control + [e], id, t.frames + [NativeFrame], called.continuations) &&
            ContinuationsFit(called.continuations, |t.frames| + 1)
  {
    var called := Calling(t, suspends);
    var e := Callback(id, |t.frames| + 1, |called.continuations|, token, TokenOf(control, id));
    Pushed(control, e);
    assert (t.frames + [NativeFrame])[..|t.frames|] == t.frames;
    assert called.continuations[..|called.continuations|] == called.continuations;
    MoreContinuations(control, id, t.frames, t.continuations, called.continuations);
  }

  /** A continuation that waits for a frame yet to come does not disturb the callbacks below. */
  lemma MoreContinuations(control: seq<Control>, id: Id, frames: seq<FrameKind>, continuations: seq<nat>, more: seq<nat>)
    requires FramesMatch(control, id, frames, continuations)
    requires more == continuations || more == continuations + [|frames|]
    ensures FramesMatch(control, id, frames, more)
  {
    if control != [] {
      var last, rest := control[|control| - 1], control[..|control| - 1];
      if last.Callback? && last.thread == id {
        assert more[..last.continuations] == continuations[..last.continuations];
      } else {
        MoreContinuations(rest, id, frames, continuations, more);
      }
    }
  }

  /** A callback ends with its frame on top and nothing left waiting above it. */
  lemma CallbackDone(control: seq<Control>, id: Id, t: Thread)
    requires Nested(control) && Top(control) == Some(id) && control[|control| - 1].Callback?
    requires |t.frames| == control[|control| - 1].depth
    requires FramesMatch(control, id, t.frames, t.continuations) && ContinuationsFit(t.continuations, |t.frames|)
    ensures FramesMatch(control[..|control| - 1], id, Returning(t).frames, Returning(t).continuations)
    ensures FramesMatch(control[..|control| - 1], id, t.frames[..|t.frames| - 1], t.continuations)
    ensures t.frames[|t.frames| - 1] == NativeFrame && |t.continuations| == control[|control| - 1].continuations
  {
    var e, rest := control[|control| - 1], control[..|control| - 1];
    assert t.continuations != [] ==> t.continuations[|t.continuations| - 1] < e.depth;
    assert t.continuations[..e.continuations] == t.continuations;
    if Returning(t).continuations != t.continuations {
      FewerContinuations(rest, id, Returning(t).frames, t.continuations);
    }
  }

  /** Likewise when the continuation waiting for the frame that has just gone is taken. */
  lemma FewerContinuations(control: seq<Control>, id: Id, frames: seq<FrameKind>, continuations: seq<nat>)
    requires FramesMatch(control, id, frames, continuations) && continuations != []
    requires continuations[|continuations| - 1] == |frames|
    ensures FramesMatch(control, id, frames, continuations[..|continuations| - 1])
  {
    if control != [] {
      var last, rest, fewer := control[|control| - 1], control[..|control| - 1], continuations[..|continuations| - 1];
      if last.Callback? && last.thread == id {
        assert last.continuations <= |fewer|;
        assert fewer[..last.continuations] == continuations[..last.continuations];
      } else {
        FewerContinuations(rest, id, frames, continuations);
      }
    }
  }

  /** A failure inside a callback's own calls takes the thread back to where the callback was. */
  function UnwoundTo(t: Thread, e: Control): Thread
    requires e.Callback? && e.depth <= |t.frames| && e.continuations <= |t.continuations|
  {
    t.(frames := t.frames[..e.depth], continuations := t.continuations[..e.continuations])
  }

  lemma UnwoundMatches(control: seq<Control>, id: Id, frames: seq<FrameKind>, continuations: seq<nat>)
    requires control != [] && control[|control| - 1].Callback? && control[|control| - 1].thread == id
    requires FramesMatch(control, id, frames, continuations)
    ensures var e := control[|control| - 1];
            e.depth <= |frames| && e.continuations <= |continuations| &&
            FramesMatch(control, id, frames[..e.depth], continuations[..e.continuations])
  {
    var e := control[|control| - 1];
    assert frames[..e.depth][..e.depth - 1] == frames[..e.depth - 1];
    assert continuations[..e.continuations][..e.continuations] == continuations[..e.continuations];
    assert frames[..e.depth][e.depth..] == [];
  }

  function Called(t: Thread, suspends: bool, kind: FrameKind): Thread {
    Calling(t, suspends).(frames := t.frames + [kind])
  }

  lemma CalledFits(control: seq<Control>, main: Id, id: Id, t: Thread, suspends: bool)
    requires ThreadValid(control, main, id, t) && Top(control) == Some(id)
    requires FramesMatch(control, id, t.frames + [LuaFrame], Calling(t, suspends).continuations)
    requires ContinuationsFit(Calling(t, suspends).continuations, |t.frames| + 1)
    ensures ThreadValid(control, main, id, Called(t, suspends, LuaFrame))
  {
  }

  /** What the host stack says about a thread when its innermost callback ends. */
  lemma PopCallback(control: seq<Control>, id: Id)
    requires Nested(control) && Top(control) == Some(id) && control[|control| - 1].Callback?
    ensures var rest, e := control[..|control| - 1], control[|control| - 1];
            Nested(rest) && Top(rest) == Some(id) && e.parent == TokenOf(rest, id) && TokenOf(control, id) == e.token &&
            CallbacksOf(rest, id) + 1 == CallbacksOf(control, id) && Callbacks(rest) + 1 == Callbacks(control) &&
            (Execution(id) in rest <==> Execution(id) in control)
  {
    var n := |control| - 1;
    NestedPrefix(control, n);
    assert NestedAt(control, n);
    assert control == control[..n] + [control[n]];
  }

  /** A resumed thread goes on from its yield, whose native frame has gone; a new one begins with no frames. */
  function Continued(frames: seq<FrameKind>): seq<FrameKind> {
    if frames == [] then [] else frames[..|frames| - 1]
  }

  /** The threads once the one that waited for the active one runs again. */
  function Continuing(threads: map<Id, Thread>, active: Option<Id>): map<Id, Thread> {
    if active.Some? && active.value in threads then threads[active.value := threads[active.value].(status := Running)] else threads
  }

  /** What a thread that is not under execution may look like. */
  predicate Stopped(main: Id, id: Id, t: Thread) {
    t.nativeDepth == 0 && t.token == 0 && t.continuations == [] && t.status in {Ready, Suspended, Dead} &&
    (id == main <==> t.status == Ready) && (t.frames == [] || (t.status == Suspended && Yielded(t.frames)))
  }

  /** With one callback under way it was called from the execution itself. */
  lemma OnlyCallback(control: seq<Control>, id: Id)
    requires Nested(control) && Top(control) == Some(id) && control[|control| - 1].Callback? && CallbacksOf(control, id) == 1
    ensures |control| >= 2 && control[|control| - 2] == Execution(id)
    ensures control[..|control| - 1][|control| - 2] == Execution(id)
  {
    var n := |control| - 1;
    assert NestedAt(control, n);
    assert control[..n][n - 1] == control[n - 1] && control[..n][..n - 1] == control[..n - 1];
    assert CallbacksOf(control[..n], id) == 0;
  }

  lemma YieldedFrames(control: seq<Control>, id: Id, frames: seq<FrameKind>)
    requires Nested(control) && control != [] && control[|control| - 1] == Execution(id)
    requires frames != [] && frames[|frames| - 1] == NativeFrame && FramesMatch(control, id, frames[..|frames| - 1], [])
    ensures Yielded(frames)
  {
    EndedOffChain(control);
    OtherEntry(control, id, frames[..|frames| - 1], []);
    OffChainMatch(control[..|control| - 1], id, frames[..|frames| - 1], []);
  }

  // ----- which calls are waited for -----

  /** Which frames were called by an instruction that waits for them. */
  ghost predicate Known(t: Thread, w: seq<bool>) {
    |w| == |t.frames| && forall i :: 0 <= i < |w| ==> (w[i] <==> i in t.continuations)
  }

  ghost predicate KnownAt(threads: map<Id, Thread>, waits: map<Id, seq<bool>>, id: Id)
    requires id in threads
  {
    id in waits && Known(threads[id], waits[id])
  }

  ghost predicate Recorded(threads: map<Id, Thread>, waits: map<Id, seq<bool>>) {
    forall id {:trigger KnownAt(threads, waits, id)} :: id in threads ==> KnownAt(threads, waits, id)
  }

  /** The same for all but one thread. */
  ghost predicate RecordedExcept(threads: map<Id, Thread>, waits: map<Id, seq<bool>>, except: Id) {
    forall id {:trigger KnownAt(threads, waits, id)} :: id in threads && id != except ==> KnownAt(threads, waits, id)
  }

  lemma RecordedChange(threads: map<Id, Thread>, waits: map<Id, seq<bool>>, id: Id, t: Thread, w: seq<bool>)
    requires RecordedExcept(threads, waits, id) && Known(t, w)
    ensures Recorded(threads[id := t], waits[id := w])
  {
    var changed, kept := threads[id := t], waits[id := w];
    forall other | other in changed ensures KnownAt(changed, kept, other) {
      if other != id { assert KnownAt(threads, waits, other); }
    }
  }

  /** A thread's status says nothing about what its frames wait for. */
  lemma RecordedStatus(threads: map<Id, Thread>, waits: map<Id, seq<bool>>, id: Id, status: Status, except: Id)
    requires RecordedExcept(threads, waits, except) && id in threads
    ensures RecordedExcept(threads[id := threads[id].(status := status)], waits, except)
  {
    var changed := threads[id := threads[id].(status := status)];
    forall other | other in changed && other != except ensures KnownAt(changed, waits, other) {
      assert KnownAt(threads, waits, other);
    }
  }

  lemma RecordedAll(threads: map<Id, Thread>, waits: map<Id, seq<bool>>, id: Id)
    requires Recorded(threads, waits) && id in threads
    ensures KnownAt(threads, waits, id) && RecordedExcept(threads, waits, id)
  {
  }

  lemma KnownCall(t: Thread, w: seq<bool>, suspends: bool, kind: FrameKind)
    requires Known(t, w) && ContinuationsFit(t.continuations, |t.frames|)
    ensures Known(Called(t, suspends, kind), w + [suspends])
  {
    assert |t.frames| !in t.continuations;
  }

  lemma KnownReturn(t: Thread, w: seq<bool>)
    requires t.frames != [] && Known(t, w) && ContinuationsFit(t.continuations, |t.frames|)
    ensures Known(Returning(t), w[..|w| - 1])
  {
    var left, n := Returning(t).continuations, |w| - 1;
    forall i | 0 <= i < n ensures i in t.continuations <==> i in left {
      if i in t.continuations {
        var k :| 0 <= k < |t.continuations| && t.continuations[k] == i;
        assert k < |left| ==> left[k] == i;
      }
    }
  }

  lemma KnownUnwound(t: Thread, w: seq<bool>, e: Control)
    requires e.Callback? && e.depth <= |t.frames| && Splits(t.continuations, e.continuations, e.depth) && Known(t, w)
    ensures Known(UnwoundTo(t, e), w[..e.depth])
  {
    var left := t.continuations[..e.continuations];
    forall i | 0 <= i < e.depth ensures i in t.continuations <==> i in left {
      if i in t.continuations {
        var k :| 0 <= k < |t.continuations| && t.continuations[k] == i;
        assert k < |left| ==> left[k] == i;
      }
    }
  }

  /** Nothing waits exactly when no frame was called by an instruction that waits. */
  lemma NothingWaits(t: Thread, w: seq<bool>)
    requires Known(t, w) && ContinuationsFit(t.continuations, |t.frames|)
    ensures t.continuations == [] <==> true !in w
  {
    if t.continuations != [] {
      assert w[t.continuations[0]];
    }
  }

  /** A thread starts to run, and whoever ran becomes normal. */
  lemma ThreadsBegin(threads: map<Id, Thread>, main: Id, active: Option<Id>, control: seq<Control>, nativeDepth: nat, id: Id, frames: seq<FrameKind>)
    requires Consistent(threads, main, active, control, nativeDepth) && id in threads && (active == None || control[|control| - 1].Callback?)
    requires threads[id].status in {Ready, Suspended} && NoNative(frames)
    ensures threads[id].continuations == [] && (active.Some? ==> active.value in threads)
    ensures Consistent(MadeWay(threads, active)[id := threads[id].(status := Running, frames := frames)], main, Some(id),
                       control + [Execution(id)], nativeDepth)
  {
    assert ThreadValid(control, main, id, threads[id]);
    assert MayFollow(control, Execution(id));
    PushNested(control, Execution(id));
    Pushed(control, Execution(id));
    if active.Some? {
      assert ThreadValid(control, main, active.value, threads[active.value]);
    }
    var after, stack := MadeWay(threads, active)[id := threads[id].(status := Running, frames := frames)], control + [Execution(id)];
    OffChainMatch(control, id, frames, []);
    OtherEntry(stack, id, frames, []);
    OffChainNoCallbacks(control, id);
    forall other | other in after ensures ThreadValid(stack, main, other, after[other]) {
      if other != id {
        assert ThreadValid(control, main, other, threads[other]);
        ExecutionStarts(control, main, id, other, threads[other]);
      }
    }
  }

  lemma RecordedBegin(threads: map<Id, Thread>, waits: map<Id, seq<bool>>, active: Option<Id>, id: Id, frames: seq<FrameKind>)
    requires Recorded(threads, waits) && id in threads && threads[id].continuations == [] && |frames| <= |threads[id].frames|
    ensures id in waits && |frames| <= |waits[id]|
    ensures Recorded(MadeWay(threads, active)[id := threads[id].(status := Running, frames := frames)], waits[id := waits[id][..|frames|]])
  {
    RecordedAll(threads, waits, id);
    if active.Some? && active.value in threads { RecordedStatus(threads, waits, active.value, Normal, id); }
    var w := waits[id][..|frames|];
    assert Known(threads[id].(status := Running, frames := frames), w);
    RecordedChange(MadeWay(threads, active), waits, id, threads[id].(status := Running, frames := frames), w);
  }

  lemma RecordedEnd(threads: map<Id, Thread>, waits: map<Id, seq<bool>>, active: Option<Id>, id: Id, final: Thread)
    requires RecordedExcept(threads, waits, id) && id in waits && |final.frames| <= |waits[id]| && true !in waits[id][..|final.frames|]
    requires final.continuations == []
    ensures Recorded(Continuing(threads, active)[id := final], waits[id := waits[id][..|final.frames|]])
  {
    if active.Some? && active.value in threads { RecordedStatus(threads, waits, active.value, Running, id); }
    assert Known(final, waits[id][..|final.frames|]);
    RecordedChange(Continuing(threads, active), waits, id, final, waits[id][..|final.frames|]);
  }

  /** Consistent but for the thread that is about to stop. */
  predicate ConsistentExcept(threads: map<Id, Thread>, main: Id, control: seq<Control>, nativeDepth: nat, id: Id) {
    main in threads && Nested(control) && ControlOwned(threads, control) && nativeDepth == Callbacks(control) &&
    forall other {:trigger ThreadValid(control, main, other, threads[other])} ::
      other in threads && other != id ==> ThreadValid(control, main, other, threads[other])
  }

  /** An execution ends, and whoever resumed it runs again. */
  lemma ThreadsEnd(threads: map<Id, Thread>, main: Id, control: seq<Control>, nativeDepth: nat, id: Id, final: Thread)
    requires ConsistentExcept(threads, main, control, nativeDepth, id) && id in threads && control != [] && control[|control| - 1] == Execution(id)
    requires Stopped(main, id, final)
    ensures var rest := control[..|control| - 1];
      Consistent(Continuing(threads, Top(rest))[id := final], main, Top(rest), rest, nativeDepth) &&
      (Top(rest).Some? ==> Top(rest).value in threads)
  {
    EndedOffChain(control);
    var rest := control[..|control| - 1];
    assert control == rest + [control[|control| - 1]];
    var active := Top(rest);
    if active.Some? {
      assert rest[|rest| - 1] in control;
      assert ThreadValid(control, main, active.value, threads[active.value]);
    }
    var after := Continuing(threads, active)[id := final];
    forall other | other in after ensures ThreadValid(rest, main, other, after[other]) {
      if other != id {
        assert ThreadValid(control, main, other, threads[other]);
        ExecutionEnds(control, main, other, threads[other]);
      }
    }
  }

  /** A callback begins on the active thread. */
  lemma ThreadsCall(threads: map<Id, Thread>, main: Id, active: Option<Id>, control: seq<Control>, nativeDepth: nat, suspends: bool, token: nat)
    requires Consistent(threads, main, active, control, nativeDepth) && active.Some? && token > 0
    ensures active.value in threads
    ensures var t := Called(threads[active.value], suspends, NativeFrame);
      Consistent(threads[active.value := t.(nativeDepth := t.nativeDepth + 1, token := token)], main, active,
                 control + [Callback(active.value, |t.frames|, |t.continuations|, token, t.token)], nativeDepth + 1)
  {
    TopOnChain(control, active.value);
    var id := active.value;
    assert ThreadValid(control, main, id, threads[id]);
    var t := Called(threads[id], suspends, NativeFrame);
    var e := Callback(id, |t.frames|, |t.continuations|, token, t.token);
    NativeMatches(control, id, threads[id], suspends, token);
    PushNested(control, e);
    Pushed(control, e);
    var after := threads[id := t.(nativeDepth := t.nativeDepth + 1, token := token)];
    forall other | other in after ensures ThreadValid(control + [e], main, other, after[other]) {
      if other != id {
        assert ThreadValid(control, main, other, threads[other]);
        CallbackStarts(control, main, e, other, threads[other]);
      }
    }
  }

  lemma RecordedCall(threads: map<Id, Thread>, waits: map<Id, seq<bool>>, id: Id, suspends: bool, token: nat)
    requires Recorded(threads, waits) && id in threads && ContinuationsFit(threads[id].continuations, |threads[id].frames|)
    ensures id in waits
    ensures var t := Called(threads[id], suspends, NativeFrame);
      Recorded(threads[id := t.(nativeDepth := t.nativeDepth + 1, token := token)], waits[id := waits[id] + [suspends]])
  {
    RecordedAll(threads, waits, id);
    KnownCall(threads[id], waits[id], suspends, NativeFrame);
    var t := Called(threads[id], suspends, NativeFrame);
    RecordedChange(threads, waits, id, t.(nativeDepth := t.nativeDepth + 1, token := token), waits[id] + [suspends]);
  }
}
