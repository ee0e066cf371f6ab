/** Resuming, yielding, native callbacks and failures, as the steps of a runtime. */
module Coroutines {
  import opened Wrappers
  import opened CoroutineSpec

  const MAX_NATIVE_CALL_DEPTH: nat := 200

  datatype Resumption = Resumed | Refused(message: string)

  /** The name used in the message that refuses to resume a thread. */
  function StatusName(current: Option<Id>, id: Id, status: Status): string {
    if current == Some(id) || status == Running then "running"
    else if status == Normal then "normal"
    else if status == Suspended then "suspended"
    else "dead"
  }

  datatype Step =
    | New(thread: Id) | Enter | Resume(thread: Id, fits: bool) | Call(suspends: bool) | Return
    | CallNative(suspends: bool) | NativeReturn | NativeYield | NativeError | Finish | Error

  class Runtime {
    var threads: map<Id, Thread>
    const main: Id
    var active: Option<Id>
    var control: seq<Control>
    var nativeDepth: nat
    var nativeSequence: nat
    /** For every thread, which of its frames were called by an instruction that waits for them. */
    ghost var waits: map<Id, seq<bool>>

    ghost predicate Valid()
      reads this
    {
      Consistent(threads, main, active, control, nativeDepth) && Recorded(threads, waits)
    }

    /** Which frames of the active thread were called by an instruction that waits for them. */
    ghost function Waiting(): seq<bool>
      reads this
    {
      if active.Some? && active.value in waits then waits[active.value] else []
    }

    constructor ()
      ensures Valid() && active == None && control == []
      ensures threads == map[main := Thread(Ready, [], [], 0, 0)]
    {
      main := 0;
      threads := map[0 := Thread(Ready, [], [], 0, 0)];
      active, control, nativeDepth, nativeSequence := None, [], 0, 0;
      waits := map[0 := []];
    }

    /** A new coroutine is suspended and has not begun. */
    method ConstructThread(id: Id)
      requires Valid() && id !in threads
      modifies `threads, `waits
      ensures Valid() && threads == old(threads)[id := Thread(Suspended, [], [], 0, 0)]
    {
      UnknownOffChain(threads, main, active, control, nativeDepth, id);
      RecordedChange(threads, waits, id, Thread(Suspended, [], [], 0, 0), []);
      threads := threads[id := Thread(Suspended, [], [], 0, 0)];
      waits := waits[id := []];
      forall other | other in threads ensures ThreadValid(control, main, other, threads[other]) {
        if other != id { assert ThreadValid(control, main, other, old(threads)[other]); }
      }
    }

    // ----- the main thread -----

    /** The host enters Lua on the main thread. */
    method EnterMain() returns (ok: bool)
      requires Valid()
      modifies `threads, `active, `control, `waits
      ensures Valid() && ok == (old(active) == None && old(threads)[main].status == Ready)
      ensures ok ==> active == Some(main) && control == old(control) + [Execution(main)]
      ensures !ok ==> threads == old(threads) && active == old(active) && control == old(control)
    {
      ok := active == None && threads[main].status == Ready;
      if ok {
        BeginExecution(main, []);
      }
    }

    /** A thread starts to run: whoever ran becomes normal. */
    method BeginExecution(id: Id, frames: seq<FrameKind>)
      requires Valid() && id in threads && (active == None || control[|control| - 1].Callback?)
      requires threads[id].status in {Ready, Suspended} && NoNative(frames) && |frames| <= |threads[id].frames|
      modifies `threads, `active, `control, `waits
      ensures Valid() && active == Some(id) && control == old(control) + [Execution(id)]
      ensures threads == MadeWay(old(threads), old(active))[id := old(threads)[id].(status := Running, frames := frames)]
    {
      ThreadsBegin(threads, main, active, control, nativeDepth, id, frames);
      RecordedBegin(threads, waits, active, id, frames);
      if active.Some? {
        threads := threads[active.value := threads[active.value].(status := Normal)];
      }
      active := Some(id);
      threads := threads[id := threads[id].(status := Running, frames := frames)];
      waits := waits[id := waits[id][..|frames|]];
      control := control + [Execution(id)];
    }

    // ----- calls on the active thread -----

    /** A Lua function is called; `suspends` says that an instruction of the caller waits for it. */
    method CallLua(suspends: bool)
      requires Valid() && active.Some?
      modifies `threads, `waits
      ensures Valid() && threads == old(threads)[active.value := Called(old(threads)[active.value], suspends, LuaFrame)]
      ensures waits == old(waits)[active.value := old(Waiting()) + [suspends]]
    {
      ghost var id, t := active.value, threads[active.value];
      assert ThreadValid(control, main, id, t);
      CallMatches(control, id, t, suspends);
      CalledFits(control, main, id, t, suspends);
      ChangedOne(threads, main, active, control, nativeDepth, id, Called(t, suspends, LuaFrame));
      RecordedAll(threads, waits, id);
      KnownCall(t, waits[id], suspends, LuaFrame);
      RecordedChange(threads, waits, id, Called(t, suspends, LuaFrame), waits[id] + [suspends]);
      threads := threads[active.value := Called(threads[active.value], suspends, LuaFrame)];
      waits := waits[id := waits[id] + [suspends]];
    }

    /** A Lua function returns; the instruction that waited for it, if any, goes on. */
    method ReturnLua()
      requires Valid() && active.Some? && |threads[active.value].frames| > Boundary(control)
      modifies `threads, `waits
      ensures Valid() && threads == old(threads)[active.value := Returning(old(threads)[active.value])]
    {
      ghost var id, t := active.value, threads[active.value];
      assert ThreadValid(control, main, id, t);
      ReturnMatches(control, id, t);
      ReturnFits(t);
      ChangedOne(threads, main, active, control, nativeDepth, id, Returning(t));
      RecordedAll(threads, waits, id);
      KnownReturn(t, waits[id]);
      RecordedChange(threads, waits, id, Returning(t), waits[id][..|waits[id]| - 1]);
      threads := threads[active.value := Returning(threads[active.value])];
      waits := waits[id := waits[id][..|waits[id]| - 1]];
    }

    /** A native function is called: its callback begins, unless callbacks are nested too deep already. */
    method InvokeNativeCall(suspends: bool) returns (ok: bool)
      requires Valid() && active.Some?
      modifies `threads, `control, `nativeDepth, `nativeSequence, `waits
      ensures Valid() && ok == (old(nativeDepth) < MAX_NATIVE_CALL_DEPTH)
      ensures ok ==>
        var t := Called(old(threads)[active.value], suspends, NativeFrame);
        nativeDepth == old(nativeDepth) + 1 && nativeSequence == old(nativeSequence) + 1 &&
        waits == old(waits)[active.value := old(Waiting()) + [suspends]] &&
        control == old(control) + [Callback(active.value, |t.frames|, |t.continuations|, nativeSequence, t.token)] &&
        threads == old(threads)[active.value := t.(nativeDepth := t.nativeDepth + 1, token := nativeSequence)]
      ensures !ok ==> threads == old(threads) && control == old(control) && nativeDepth == old(nativeDepth)
    {
      ok := nativeDepth < MAX_NATIVE_CALL_DEPTH;
      if !ok {
        return;
      }
      ghost var id := active.value;
      assert ThreadValid(control, main, id, threads[id]);
      ThreadsCall(threads, main, active, control, nativeDepth, suspends, nativeSequence + 1);
      RecordedCall(threads, waits, id, suspends, nativeSequence + 1);
      var t := Called(threads[active.value], suspends, NativeFrame);
      nativeSequence := nativeSequence + 1;
      var e := Callback(active.value, |t.frames|, |t.continuations|, nativeSequence, t.token);
      threads := threads[active.value := t.(nativeDepth := t.nativeDepth + 1, token := nativeSequence)];
      waits := waits[id := waits[id] + [suspends]];
      nativeDepth := nativeDepth + 1;
      control := control + [e];
    }

    /** A callback returns: its frame goes, its parent's token is back. */
    method ReturnNative()
      requires Valid() && active.Some? && control[|control| - 1].Callback?
      requires |threads[active.value].frames| == control[|control| - 1].depth
      modifies `threads, `control, `nativeDepth, `waits
      ensures Valid() && control == old(control)[..|old(control)| - 1] && nativeDepth + 1 == old(nativeDepth)
      ensures var t, e := old(threads)[active.value], old(control)[|old(control)| - 1];
              t.frames != [] && t.nativeDepth > 0 &&
              threads == old(threads)[active.value := Returning(t).(nativeDepth := t.nativeDepth - 1, token := e.parent)]
    {
      ghost var id, before, stack := active.value, threads, control;
      var t, e := threads[active.value], control[|control| - 1];
      assert ThreadValid(control, main, id, t);
      CallbackDone(control, id, t);
      ReturnFits(t);
      PopCallback(control, id);
      RecordedAll(threads, waits, id);
      KnownReturn(t, waits[id]);
      RecordedChange(threads, waits, id, Returning(t).(nativeDepth := t.nativeDepth - 1, token := e.parent), waits[id][..|waits[id]| - 1]);
      threads := threads[active.value := Returning(t).(nativeDepth := t.nativeDepth - 1, token := e.parent)];
      waits := waits[id := waits[id][..|waits[id]| - 1]];
      control := control[..|control| - 1];
      nativeDepth := nativeDepth - 1;
      forall other | other in threads ensures ThreadValid(control, main, other, threads[other]) {
        if other != id {
          assert ThreadValid(stack, main, other, before[other]);
          CallbackEnds(stack, main, other, before[other]);
        }
      }
    }

    // ----- resuming and yielding -----

    /** The active thread, or the host when there is none, resumes a coroutine. */
    method ResumeThread(id: Id, fits: bool) returns (result: Resumption)
      requires Valid() && id in threads
      requires active.Some? ==> control[|control| - 1].Callback? && |threads[active.value].frames| == control[|control| - 1].depth
      modifies `threads, `active, `control, `waits
      ensures Valid()
      ensures result.Resumed? <==> old(threads)[id].status == Suspended && fits
      ensures result.Resumed? ==>
        active == Some(id) && control == old(control) + [Execution(id)] &&
        threads == MadeWay(old(threads), old(active))[id := old(threads)[id].(status := Running, frames := Continued(old(threads)[id].frames))]
      ensures result.Refused? ==> threads == old(threads) && active == old(active) && control == old(control)
      ensures !fits || result == Refused("cannot resume " + StatusName(old(active), id, old(threads)[id].status) + " coroutine") ||
              old(threads)[id].status == Suspended
    {
      if active == Some(id) {
        assert ThreadValid(control, main, id, threads[id]);
        return Refused("cannot resume running coroutine");
      }
      if threads[id].status != Suspended {
        return Refused("cannot resume " + StatusName(active, id, threads[id].status) + " coroutine");
      }
      if !fits {
        return Refused("too many arguments to resume");
      }
      assert ThreadValid(control, main, id, threads[id]);
      BeginExecution(id, Continued(threads[id].frames));
      result := Resumed;
    }

    /** Consistent but for the thread that is about to stop. */
    ghost predicate ValidExcept(id: Id)
      reads this
    {
      ConsistentExcept(threads, main, control, nativeDepth, id) && RecordedExcept(threads, waits, id)
    }

    /** An execution ends, leaving its thread as `final`; whoever resumed it runs again. */
    method EndExecution(id: Id, final: Thread)
      requires ValidExcept(id) && id in threads && control != [] && control[|control| - 1] == Execution(id)
      requires Stopped(main, id, final) && id in waits && |final.frames| <= |waits[id]| && true !in waits[id][..|final.frames|]
      modifies `threads, `active, `control, `waits
      ensures Valid() && control == old(control)[..|old(control)| - 1] && active == Top(control)
      ensures threads == Continuing(old(threads), active)[id := final]
    {
      ghost var before := threads;
      ThreadsEnd(threads, main, control, nativeDepth, id, final);
      control := control[..|control| - 1];
      active := if control == [] then None else Some(control[|control| - 1].thread);
      if active.Some? {
        threads := threads[active.value := threads[active.value].(status := Running)];
      }
      threads := threads[id := final];
      RecordedEnd(before, waits, active, id, final);
      waits := waits[id := waits[id][..|final.frames|]];
    }

    /** A callback yields.  Refused, with nothing changed, on the main thread, across another callback or
        across a metamethod call. */
    method YieldNative() returns (ok: bool)
      requires Valid() && active.Some? && control[|control| - 1].Callback?
      requires |threads[active.value].frames| == control[|control| - 1].depth
      modifies `threads, `active, `control, `nativeDepth, `waits
      ensures Valid()
      ensures var id := old(active).value;
              ok == (id != main && old(threads)[id].nativeDepth == 1 && old(threads)[id].continuations == [])
      ensures ok == (old(active).value != main && old(threads)[old(active).value].nativeDepth == 1 && true !in old(Waiting()))
      ensures ok ==>
        var id, n := old(active).value, |old(control)|;
        n >= 2 && old(control)[n - 2] == Execution(id) && control == old(control)[..n - 2] && active == Top(control) &&
        nativeDepth + 1 == old(nativeDepth) &&
        threads == Continuing(old(threads), active)[id := Thread(Suspended, old(threads)[id].frames, [], 0, 0)]
      ensures !ok ==> threads == old(threads) && active == old(active) && control == old(control) && nativeDepth == old(nativeDepth)
    {
      var id := active.value;
      var t := threads[id];
      assert ThreadValid(control, main, id, t);
      ok := id != main && t.nativeDepth == 1 && t.continuations == [];
      RecordedAll(threads, waits, id);
      NothingWaits(t, waits[id]);
      if !ok {
        return;
      }
      ghost var before, stack := threads, control;
      PopCallback(control, id);
      OnlyCallback(control, id);
      CallbackDone(control, id, t);
      nativeDepth := nativeDepth - 1;
      control := control[..|control| - 1];
      forall other | other in threads && other != id ensures ThreadValid(control, main, other, threads[other]) {
        assert ThreadValid(stack, main, other, before[other]);
        CallbackEnds(stack, main, other, before[other]);
      }
      YieldedFrames(control, id, t.frames);
      EndExecution(id, Thread(Suspended, t.frames, [], 0, 0));
    }

    // ----- ending -----

    /** The body of the executed thread has returned: a coroutine is dead, the main thread ready again. */
    method FinishExecution()
      requires Valid() && active.Some? && control[|control| - 1].Execution? && threads[active.value].frames == []
      modifies `threads, `active, `control, `waits
      ensures Valid() && control == old(control)[..|old(control)| - 1] && active == Top(control)
      ensures var id := old(active).value;
              threads == Continuing(old(threads), active)[id := Thread(if id == main then Ready else Dead, [], [], 0, 0)]
    {
      RecordedAll(threads, waits, active.value);
      EndExecution(active.value, Thread(if active.value == main then Ready else Dead, [], [], 0, 0));
    }

    /** A failure goes to whoever is waiting below: the innermost callback takes its thread back to where it was
        when the callback was called; an execution is discarded and its thread is dead. */
    method Fail()
      requires Valid() && active.Some?
      modifies `threads, `active, `control, `waits
      ensures Valid()
      ensures var id, n := old(active).value, |old(control)|;
              var e := old(control)[n - 1];
              if e.Callback? then
                active == Some(id) && control == old(control) &&
                e.depth <= |old(threads)[id].frames| && e.continuations <= |old(threads)[id].continuations| &&
                threads == old(threads)[id := UnwoundTo(old(threads)[id], e)]
              else
                control == old(control)[..n - 1] && active == Top(control) &&
                threads == Continuing(old(threads), active)[id := Thread(if id == main then Ready else Dead, [], [], 0, 0)]
    {
      var id, e := active.value, control[|control| - 1];
      assert ThreadValid(control, main, id, threads[id]);
      if e.Callback? {
        UnwoundMatches(control, id, threads[id].frames, threads[id].continuations);
        ChangedOne(threads, main, active, control, nativeDepth, id, UnwoundTo(threads[id], e));
        RecordedAll(threads, waits, id);
        KnownUnwound(threads[id], waits[id], e);
        RecordedChange(threads, waits, id, UnwoundTo(threads[id], e), waits[id][..e.depth]);
        threads := threads[id := UnwoundTo(threads[id], e)];
        waits := waits[id := waits[id][..e.depth]];
      } else {
        DiscardCoroutineExecution(id);
      }
    }

    /** Discarding sets the thread's native depth to zero without touching the runtime's: it was zero already. */
    method DiscardCoroutineExecution(id: Id)
      requires Valid() && active == Some(id) && control[|control| - 1].Execution?
      modifies `threads, `active, `control, `waits
      ensures Valid() && old(threads)[id].nativeDepth == 0
      ensures control == old(control)[..|old(control)| - 1] && active == Top(control)
      ensures threads == Continuing(old(threads), active)[id := Thread(if id == main then Ready else Dead, [], [], 0, 0)]
    {
      assert ThreadValid(control, main, id, threads[id]);
      EndedOffChain(control);
      RecordedAll(threads, waits, id);
      EndExecution(id, Thread(if id == main then Ready else Dead, [], [], 0, 0));
    }

    /** A callback returns an error: it ends, and the failure goes on to whoever waits below it. */
    method FailNative()
      requires Valid() && active.Some? && control[|control| - 1].Callback?
      requires |threads[active.value].frames| == control[|control| - 1].depth
      modifies `threads, `active, `control, `nativeDepth, `waits
      ensures Valid() && nativeDepth + 1 == old(nativeDepth)
      ensures var id, n := old(active).value, |old(control)|;
              n >= 2 && old(threads)[id].nativeDepth > 0 &&
              var t, e := old(threads)[id], old(control)[n - 2];
              if e.Callback? then
                active == Some(id) && control == old(control)[..n - 1] &&
                e.depth < |t.frames| && e.continuations <= |t.continuations| &&
                threads == old(threads)[id := UnwoundTo(t, e).(nativeDepth := t.nativeDepth - 1, token := old(control)[n - 1].parent)]
              else
                control == old(control)[..n - 2] && active == Top(control) &&
                threads == Continuing(old(threads), active)[id := Thread(if id == main then Ready else Dead, [], [], 0, 0)]
    {
      ghost var id, t, n := active.value, threads[active.value], |control|;
      ghost var before, stack := threads, control;
      assert NestedAt(control, n - 1);
      ReturnNative();
      assert control[n - 2] == stack[n - 2] && stack[..n - 1][..n - 2] == stack[..n - 2];
      ghost var left := threads[id];
      Fail();
      if stack[n - 2].Callback? {
        assert left.frames[..stack[n - 2].depth] == t.frames[..stack[n - 2].depth];
        assert left.continuations[..stack[n - 2].continuations] == t.continuations[..stack[n - 2].continuations];
      }
    }

    // ----- whole runs -----

    /** One step, skipped when it does not apply to the present state. */
    method Perform(step: Step)
      requires Valid()
      modifies `threads, `active, `control, `nativeDepth, `nativeSequence, `waits
      ensures Valid()
      ensures step.NativeYield? && old(active).Some? && true in old(Waiting()) ==>
        threads == old(threads) && active == old(active) && control == old(control) && nativeDepth == old(nativeDepth)
    {
      ghost var id := if active.Some? then active.value else 0;
      if active.Some? {
        assert ThreadValid(control, main, id, threads[id]);
      }
      var inCallback := active.Some? && control[|control| - 1].Callback? &&
                        |threads[active.value].frames| == control[|control| - 1].depth;
      match step
      case New(t) => if t !in threads { ConstructThread(t); }
      case Enter => var _ := EnterMain();
      case Resume(t, fits) => if t in threads && (active == None || inCallback) { var _ := ResumeThread(t, fits); }
      case Call(suspends) => if active.Some? { CallLua(suspends); }
      case Return => if active.Some? && |threads[active.value].frames| > Boundary(control) { ReturnLua(); }
      case CallNative(suspends) => if active.Some? { var _ := InvokeNativeCall(suspends); }
      case NativeReturn => if inCallback { ReturnNative(); }
      case NativeYield => if inCallback { var _ := YieldNative(); }
      case NativeError => if inCallback { FailNative(); }
      case Finish =>
        if active.Some? && control[|control| - 1].Execution? && threads[active.value].frames == [] { FinishExecution(); }
      case Error => if active.Some? { Fail(); }
    }

    /** Whatever happens, in whatever order, the state stays consistent. */
    method Run(steps: seq<Step>)
      requires Valid()
      modifies `threads, `active, `control, `nativeDepth, `nativeSequence, `waits
      ensures Valid()
    {
      for i := 0 to |steps|
        invariant Valid()
      {
        Perform(steps[i]);
      }
    }
  }
}
