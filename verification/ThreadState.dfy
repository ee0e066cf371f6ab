/** A thread's limits, native calls and open cells around its stack, and what a checkpoint tests and gives back. */
module ThreadState {
  import opened StackCapacity
  import opened Wrappers
  import opened CallStack
  import opened CallRuns

  const MACHINE_INT: nat := 0x7fff_ffff_ffff_ffff
  const NATIVE_DEPTH: nat := 200
  const FRAME_RESERVE: nat := 8
  const VALUE_RESERVE: nat := 64
  const HANDLER_DEPTH: nat := 0xFFFF

  datatype Options = Options(maxValues: nat, maxFrames: nat)

  /** `token` names the native function that runs, 0 for none; `depth` counts those of this thread, `runtimeDepth`
      those of all. `handlers` counts the error handlers that run; `cells` are the stack slots of open cells, from
      the highest down. */
  datatype Thread = Thread(stack: Stack, cells: seq<nat>, token: nat, depth: nat, runtimeDepth: nat, sequence: nat, handlers: nat)

  // ----- limits -----

  function ProtectedLimit(limit: nat, minimumReserve: nat): nat {
    var reserve := if limit / 8 < minimumReserve then minimumReserve else limit / 8;
    if limit > MACHINE_INT - reserve then MACHINE_INT else limit + reserve
  }

  function ValueLimit(o: Options, handlers: nat): nat {
    if handlers != 0 then ProtectedLimit(o.maxValues, VALUE_RESERVE) else o.maxValues
  }

  function FrameLimit(o: Options, handlers: nat): nat {
    if handlers != 0 then ProtectedLimit(o.maxFrames, FRAME_RESERVE) else o.maxFrames
  }

  function NativeLimit(handlers: nat): nat {
    if handlers != 0 then ProtectedLimit(NATIVE_DEPTH, FRAME_RESERVE) else NATIVE_DEPTH
  }

  /** Options are machine integers. */
  predicate OptionsValid(o: Options) {
    o.maxValues <= MACHINE_INT && o.maxFrames <= MACHINE_INT
  }

  /** An error handler has more room, never less. */
  lemma LimitsRise(o: Options, handlers: nat)
    requires OptionsValid(o)
    ensures o.maxValues <= ValueLimit(o, handlers) && o.maxFrames <= FrameLimit(o, handlers)
    ensures NATIVE_DEPTH <= NativeLimit(handlers) <= 225
  {
  }

  // ----- open cells -----

  predicate Descending(cells: seq<nat>) {
    forall i, j :: 0 <= i < j < |cells| ==> cells[i] > cells[j]
  }

  /** Closing from a slot: the open list loses its first cells while they are at or past it. */
  function ClosedFrom(cells: seq<nat>, from: nat): (r: seq<nat>)
    ensures forall c :: c in r ==> c in cells
  {
    if cells != [] && cells[0] >= from then ClosedFrom(cells[1..], from) else cells
  }

  function CellAdded(cells: seq<nat>, index: nat): seq<nat> {
    if cells == [] || cells[0] < index then [index] + cells
    else if cells[0] == index then cells
    else [cells[0]] + CellAdded(cells[1..], index)
  }

  /** On a descending list exactly the cells below the slot are left. */
  lemma {:induction false} ClosedAre(cells: seq<nat>, from: nat)
    requires Descending(cells)
    ensures Descending(ClosedFrom(cells, from)) && forall c :: c in ClosedFrom(cells, from) <==> c in cells && c < from
  {
    if cells != [] && cells[0] >= from {
      ClosedAre(cells[1..], from);
      assert cells == [cells[0]] + cells[1..];
    }
  }

  lemma {:induction false} ClosedLower(cells: seq<nat>, from: nat, lower: nat)
    requires lower <= from
    ensures ClosedFrom(ClosedFrom(cells, from), lower) == ClosedFrom(cells, lower)
  {
    if cells != [] && cells[0] >= from { ClosedLower(cells[1..], from, lower); }
  }

  lemma {:induction false} AddedAre(cells: seq<nat>, index: nat)
    requires Descending(cells)
    ensures Descending(CellAdded(cells, index)) && forall c :: c in CellAdded(cells, index) <==> c in cells || c == index
  {
    if cells != [] {
      assert cells == [cells[0]] + cells[1..];
      if cells[0] > index {
        AddedAre(cells[1..], index);
        var rest := CellAdded(cells[1..], index);
        forall i | 0 <= i < |rest| ensures rest[i] < cells[0] { assert rest[i] in rest; }
      }
    }
  }

  lemma {:induction false} AddedClosed(cells: seq<nat>, index: nat, lower: nat)
    requires lower <= index
    ensures ClosedFrom(CellAdded(cells, index), lower) == ClosedFrom(cells, lower)
  {
    if cells != [] && cells[0] > index {
      AddedClosed(cells[1..], index, lower);
      assert ([cells[0]] + CellAdded(cells[1..], index))[1..] == CellAdded(cells[1..], index);
    } else if cells == [] || cells[0] < index {
      assert ([index] + cells)[1..] == cells;
    }
  }

  // ----- frames and cells -----

  /** A callee's window starts where its caller's registers do or later. */
  predicate WindowsRise(frames: seq<Activation>) {
    forall k :: 0 <= k < |frames| - 1 ==>
      frames[k].resultBase <= frames[k + 1].resultBase && (frames[k].shape.LuaShape? ==> frames[k].base <= frames[k + 1].resultBase)
  }

  lemma {:induction false} ResultBasesRise(frames: seq<Activation>, i: nat, j: nat)
    requires WindowsRise(frames) && i <= j < |frames|
    ensures frames[i].resultBase <= frames[j].resultBase
    decreases j - i
  {
    if i < j {
      ResultBasesRise(frames, i, j - 1);
      assert frames[j - 1].resultBase <= frames[j - 1 + 1].resultBase;
    }
  }

  /** The cell is over a register of Lua frame j that the call made from it does not cover. */
  predicate Owns(frames: seq<Activation>, j: nat, cell: nat) {
    j < |frames| && frames[j].shape.LuaShape? && frames[j].base <= cell < frames[j].base + frames[j].shape.registers &&
    (j + 1 < |frames| ==> cell < frames[j + 1].resultBase)
  }

  ghost predicate Owned(frames: seq<Activation>, cells: seq<nat>) {
    forall c :: c in cells ==> exists j: nat :: Owns(frames, j, c)
  }

  /** No open cell lies among the arguments below a frame, so handing down results overwrites none. */
  lemma NoCellInWindow(frames: seq<Activation>, cells: seq<nat>)
    requires WindowsRise(frames) && Owned(frames, cells) && frames != []
    ensures forall c :: c in cells ==> c < frames[|frames| - 1].resultBase || frames[|frames| - 1].base <= c
  {
    var n := |frames| - 1;
    forall c | c in cells ensures c < frames[n].resultBase || frames[n].base <= c {
      var j: nat :| Owns(frames, j, c);
      if j < n { ResultBasesRise(frames, j + 1, n); }
    }
  }

  /** Every open cell is over a live slot. */
  lemma CellsLive(frames: seq<Activation>, frameExtent: nat, cells: seq<nat>)
    requires FramesValid(frames, frameExtent) && Owned(frames, cells)
    ensures forall c :: c in cells ==> c < frameExtent
  {
    forall c | c in cells ensures c < frameExtent {
      var j: nat :| Owns(frames, j, c);
      assert FrameValid(frames, frameExtent, j);
      LastExtent(frames, frameExtent, j);
    }
  }

  lemma OwnedPushed(frames: seq<Activation>, cells: seq<nat>, f: Activation)
    requires Owned(frames, cells) && forall c :: c in cells ==> c < f.resultBase
    ensures Owned(frames + [f], cells)
  {
    forall c | c in cells ensures exists j: nat :: Owns(frames + [f], j, c) {
      var j: nat :| Owns(frames, j, c);
      assert Owns(frames + [f], j, c);
    }
  }

  /** Cells below the base of the frame on top belong to frames under it. */
  lemma OwnedCut(frames: seq<Activation>, cells: seq<nat>, cells': seq<nat>, stop: nat)
    requires Owned(frames, cells) && stop <= |frames| && forall c :: c in cells' ==> c in cells
    requires forall c, k :: c in cells' && stop <= k < |frames| && frames[k].shape.LuaShape? ==> c < frames[k].base
    ensures Owned(frames[..stop], cells')
  {
    forall c | c in cells' ensures exists j: nat :: Owns(frames[..stop], j, c) {
      var j: nat :| Owns(frames, j, c);
      assert Owns(frames[..stop], j, c);
    }
  }

  lemma OwnedReplaced(frames: seq<Activation>, cells: seq<nat>, cells': seq<nat>, f: Activation)
    requires Owned(frames, cells) && frames != [] && f.resultBase == frames[|frames| - 1].resultBase
    requires forall c :: c in cells' ==> c in cells && c < frames[|frames| - 1].base
    ensures Owned(frames[|frames| - 1 := f], cells')
  {
    var after := frames[|frames| - 1 := f];
    forall c | c in cells' ensures exists j: nat :: Owns(after, j, c) {
      var j: nat :| Owns(frames, j, c);
      assert Owns(after, j, c);
    }
  }

  lemma OwnedAdded(frames: seq<Activation>, cells: seq<nat>, index: nat)
    requires Owned(frames, cells) && Descending(cells) && OwnsTop(frames, index)
    ensures Owned(frames, CellAdded(cells, index))
  {
    AddedAre(cells, index);
    assert Owns(frames, |frames| - 1, index);
  }

  predicate OwnsTop(frames: seq<Activation>, index: nat) {
    frames != [] && frames[|frames| - 1].shape.LuaShape? &&
    frames[|frames| - 1].base <= index < frames[|frames| - 1].base + frames[|frames| - 1].shape.registers
  }

  lemma OwnedFewer(frames: seq<Activation>, cells: seq<nat>, cells': seq<nat>)
    requires Owned(frames, cells) && forall c :: c in cells' ==> c in cells
    ensures Owned(frames, cells')
  {
  }

  // ----- validity -----

  predicate Within(o: Options, t: Thread) {
    Roomy(t.stack, ValueLimit(o, t.handlers)) && |t.stack.frames| <= FrameLimit(o, t.handlers)
  }

  /** Handlers run inside native functions, and the native functions of a thread are some of the runtime's. */
  predicate Booked(t: Thread) {
    t.handlers <= t.depth <= t.runtimeDepth <= NativeLimit(t.handlers) && (t.token == 0 <==> t.depth == 0) && t.token <= t.sequence
  }

  ghost predicate ThreadValid(o: Options, t: Thread) {
    OptionsValid(o) && CallStack.Valid(t.stack) && Within(o, t) && Booked(t) && WindowsRise(t.stack.frames) &&
    Descending(t.cells) && Owned(t.stack.frames, t.cells)
  }

  // ----- checkpoints -----

  datatype ThreadCheckpoint = ThreadCheckpoint(stack: Checkpoint, token: nat, depth: nat, runtimeDepth: nat)

  function CapturedThread(t: Thread): ThreadCheckpoint {
    ThreadCheckpoint(Captured(t.stack), t.token, t.depth, t.runtimeDepth)
  }

  /** None of the conditions holds under which restoring gives up, the retained cell tested at its end included. */
  predicate CanRestore(t: Thread, cp: ThreadCheckpoint) {
    Restorable(t.stack, cp.stack) && t.token == cp.token && t.depth == cp.depth && t.runtimeDepth == cp.runtimeDepth &&
    var left := ClosedFrom(t.cells, cp.stack.liveExtent);
    left != [] ==> left[0] < cp.stack.liveExtent
  }

  /** The frames and extents are as captured; whether the slots past them are emptied is the caller's choice. */
  function RestoredSlots(s: Stack, cp: Checkpoint, clearScratch: bool): Stack
    requires Restorable(s, cp)
  {
    if clearScratch then Restored(s, cp) else Restored(s, cp).(values := s.values)
  }

  function RestoredThread(t: Thread, cp: ThreadCheckpoint, clearScratch: bool): Thread
    requires Restorable(t.stack, cp.stack)
  {
    t.(stack := RestoredSlots(t.stack, cp.stack, clearScratch), cells := ClosedFrom(t.cells, cp.stack.liveExtent))
  }

  /** What stays the same while calls run above a checkpoint. */
  predicate SameBook(t0: Thread, t: Thread) {
    t.token == t0.token && t.depth == t0.depth && t.runtimeDepth == t0.runtimeDepth && t.handlers == t0.handlers && t0.sequence <= t.sequence
  }

  ghost predicate ThreadDriven(o: Options, t0: Thread, t: Thread) {
    CallStack.Valid(t0.stack) && ThreadValid(o, t) && Driven(t0.stack, t.stack) && SameBook(t0, t) && ClosedFrom(t.cells, Live(t0.stack)) == t0.cells
  }

  /** The frame on top is above the checkpoint, and so are its registers. */
  lemma TopAbove(t0: Thread, t: Thread)
    requires Above(t0.stack, t.stack) && |t0.stack.frames| < |t.stack.frames| && WindowsRise(t.stack.frames)
    ensures Live(t0.stack) <= t.stack.frames[|t.stack.frames| - 1].resultBase
  {
    ResultBasesRise(t.stack.frames, |t0.stack.frames|, |t.stack.frames| - 1);
  }

  // ----- error handlers -----

  /** Whether entering a handler would give up. */
  predicate EnterFails(t: Thread) {
    t.handlers == HANDLER_DEPTH
  }

  function EnteredHandler(t: Thread): Thread {
    t.(handlers := t.handlers + 1)
  }

  /** Whether leaving a handler would give up: no handler runs, or what is left does not fit the ordinary limits. */
  predicate LeaveFails(o: Options, t: Thread) {
    t.handlers == 0 || (t.handlers == 1 && (Live(t.stack) > o.maxValues || |t.stack.frames| > o.maxFrames))
  }

  /** Backing slots past the limit are given up. */
  function Trimmed(s: Stack, limit: nat): Stack {
    s.(values := Filled(s.values, limit, s.length, Empty)[..Min(|s.values|, limit)], length := Min(s.length, limit))
  }

  /** After the last handler the ordinary limits hold again. */
  function LeftHandler(o: Options, t: Thread): Thread
    requires t.handlers > 0
  {
    var after := t.(handlers := t.handlers - 1);
    if after.handlers != 0 then after else after.(stack := Trimmed(t.stack, o.maxValues))
  }

  lemma TrimmedValid(s: Stack, limit: nat)
    requires CallStack.Valid(s) && Live(s) <= limit && ResultsFit(s.frames, Min(s.length, limit))
    ensures CallStack.Valid(Trimmed(s, limit)) && Roomy(Trimmed(s, limit), limit) && Live(Trimmed(s, limit)) == Live(s)
  {
    var r := Trimmed(s, limit);
    assert EmptyFrom(r.values, Live(r));
  }
}
