/** What calls and returns do, slot by slot. */
module CallLaws {
  import opened StackCapacity
  import opened Wrappers
  import opened CallStack

  /** Register 0 is right behind the callable, or behind the arguments and missing parameters of a vararg function. */
  function BaseOf(f: Shape, resultBase: nat, argumentCount: nat): nat {
    if f.LuaShape? && f.vararg then resultBase + 1 + (if argumentCount < f.parameters then f.parameters else argumentCount) else resultBase + 1
  }

  /** A Lua frame ends with its registers, a native one with its arguments. */
  function EndOf(f: Shape, resultBase: nat, argumentCount: nat): nat {
    if f.LuaShape? then BaseOf(f, resultBase, argumentCount) + f.registers else resultBase + 1 + argumentCount
  }

  /** The i-th argument of a call whose callable is in slot `source`, or nil past the arguments. */
  function Argument(v: seq<Value>, source: nat, argumentCount: nat, i: nat): Value
    requires source + argumentCount < |v|
  {
    if i < argumentCount then v[source + 1 + i] else Nil
  }

  /** Register i of a new Lua frame: the parameters are the arguments, a wanted table of extra arguments comes behind
      them, and all others are nil. */
  function Register(v: seq<Value>, f: Shape, source: nat, argumentCount: nat, legacy: Value, i: nat): Value
    requires f.LuaShape? && source + argumentCount < |v|
  {
    if i < f.parameters then Argument(v, source, argumentCount, i)
    else if f.vararg && f.needsArg && i == f.parameters then legacy
    else Nil
  }

  /** Slot j after a call whose callable was in slot `source` of v. What lies below the callable stays. The arguments of
      a native function start its frame. Those of a vararg function lie below its registers, without its parameters. */
  function SlotOf(v: seq<Value>, f: Shape, resultBase: nat, source: nat, argumentCount: nat, legacy: Value, j: nat): Value
    requires resultBase <= source && source + argumentCount < |v|
  {
    if j < resultBase then v[j]
    else if j == resultBase then v[source]
    else if f.NativeShape? then Argument(v, source, argumentCount, j - resultBase - 1)
    else if j >= BaseOf(f, resultBase, argumentCount) then Register(v, f, source, argumentCount, legacy, j - BaseOf(f, resultBase, argumentCount))
    else if j - resultBase - 1 < f.parameters then Nil
    else Argument(v, source, argumentCount, j - resultBase - 1)
  }

  /** Every slot up to the end of the new frame. */
  ghost predicate FrameStarts(v: seq<Value>, w: seq<Value>, f: Shape, resultBase: nat, source: nat, argumentCount: nat, legacy: Value) {
    resultBase <= source && source + argumentCount < |v| && EndOf(f, resultBase, argumentCount) <= |w| &&
    forall j :: 0 <= j < EndOf(f, resultBase, argumentCount) ==> w[j] == SlotOf(v, f, resultBase, source, argumentCount, legacy, j)
  }

  /** A layout puts base and end where the frame has them. */
  predicate LaidOut(f: Shape, l: Layout) {
    l.base == BaseOf(f, l.resultBase, l.argumentCount) && l.frameEnd == EndOf(f, l.resultBase, l.argumentCount)
  }

  lemma PlanLaysOut(f: Shape, resultBase: nat, argumentCount: nat, wanted: int, limit: nat)
    ensures var plan := Plan(f, resultBase, argumentCount, wanted, limit);
      plan.Some? ==> LaidOut(f, plan.value) && plan.value.resultBase == resultBase && plan.value.argumentCount == argumentCount && plan.value.wanted == wanted
  {
  }

  /** The registers of a vararg function. */
  lemma VarargRegister(v: seq<Value>, f: Shape, l: Layout, legacy: Value, i: nat)
    requires ShapeValid(f) && LayoutFits(f, l, |v|) && LaidOut(f, l) && f.LuaShape? && f.vararg && i < f.registers
    ensures VarargSlots(v, f, l, legacy)[l.base + i] == Register(v, f, l.resultBase, l.argumentCount, legacy, i)
  {
    var first, j := l.resultBase + 1, l.base + i;
    var cleared := Filled(Filled(v, first + l.argumentCount, first + f.parameters, Nil), l.base, l.frameEnd, Nil);
    var copied := ParametersUp(v, f, l);
    if i < f.parameters {
      assert copied[j] == cleared[first + i];
    } else {
      assert copied[j] == cleared[j];
    }
  }

  /** What is left of a vararg function's arguments below its registers. */
  lemma VarargBelow(v: seq<Value>, f: Shape, l: Layout, legacy: Value, j: nat)
    requires ShapeValid(f) && LayoutFits(f, l, |v|) && LaidOut(f, l) && f.LuaShape? && f.vararg && j < l.base
    ensures VarargSlots(v, f, l, legacy)[j] ==
      if j <= l.resultBase then v[j]
      else if j - l.resultBase - 1 < f.parameters then Nil else Argument(v, l.resultBase, l.argumentCount, j - l.resultBase - 1)
  {
    var first := l.resultBase + 1;
    var padded := Filled(v, first + l.argumentCount, first + f.parameters, Nil);
    assert ParametersUp(v, f, l)[j] == padded[j];
  }

  /** Setting up where callable and arguments already are. */
  lemma SetUpSlot(v: seq<Value>, f: Shape, l: Layout, legacy: Value, j: nat)
    requires ShapeValid(f) && LayoutFits(f, l, |v|) && LaidOut(f, l) && j < l.frameEnd
    ensures SetUp(v, f, l, legacy)[j] == SlotOf(v, f, l.resultBase, l.resultBase, l.argumentCount, legacy, j)
  {
    if f.LuaShape? && f.vararg {
      if j < l.base { VarargBelow(v, f, l, legacy, j); } else { VarargRegister(v, f, l, legacy, j - l.base); }
    }
  }

  lemma SetUpStarts(v: seq<Value>, f: Shape, l: Layout, legacy: Value, w: seq<Value>)
    requires ShapeValid(f) && LayoutFits(f, l, |v|) && LaidOut(f, l) && w == SetUp(v, f, l, legacy)
    ensures FrameStarts(v, w, f, l.resultBase, l.resultBase, l.argumentCount, legacy)
  {
    forall j: nat | j < l.frameEnd ensures w[j] == SlotOf(v, f, l.resultBase, l.resultBase, l.argumentCount, legacy, j) {
      SetUpSlot(v, f, l, legacy, j);
    }
  }

  /** Where the callable, its arguments and what lies below them come from. */
  function Origin(v: seq<Value>, resultBase: nat, source: nat, j: nat): Value
    requires resultBase <= source && j < |v| && (j >= resultBase ==> source + (j - resultBase) < |v|)
  {
    if j < resultBase then v[j] else v[source + (j - resultBase)]
  }

  ghost predicate Arranged(v: seq<Value>, u: seq<Value>, resultBase: nat, source: nat, argumentCount: nat) {
    resultBase <= source && source + argumentCount < |v| && resultBase + argumentCount < |u| &&
    forall j :: 0 <= j <= resultBase + argumentCount ==> u[j] == Origin(v, resultBase, source, j)
  }

  /** Slots that were there before room was made, and a callable that has moved, count as they were. */
  lemma StartsFrom(v: seq<Value>, u: seq<Value>, w: seq<Value>, f: Shape, resultBase: nat, source: nat, argumentCount: nat, legacy: Value)
    requires FrameStarts(u, w, f, resultBase, resultBase, argumentCount, legacy) && Arranged(v, u, resultBase, source, argumentCount)
    ensures FrameStarts(v, w, f, resultBase, source, argumentCount, legacy)
  {
    forall j: nat | j < EndOf(f, resultBase, argumentCount)
      ensures w[j] == SlotOf(v, f, resultBase, source, argumentCount, legacy, j)
    {
      assert w[j] == SlotOf(u, f, resultBase, resultBase, argumentCount, legacy, j);
      var i := j - BaseOf(f, resultBase, argumentCount);
      assert 0 <= i < argumentCount ==> u[resultBase + 1 + i] == v[source + 1 + i];
    }
  }

  ghost predicate Unchanged(v: seq<Value>, w: seq<Value>, from: nat, to: nat) {
    |v| <= |w| && forall j :: from <= j < to && j < |v| ==> w[j] == v[j]
  }

  lemma SettledKeeps(s: Stack, oldExtent: nat)
    ensures |Settled(s, oldExtent).values| == |s.values| && Unchanged(s.values, Settled(s, oldExtent).values, 0, Live(s))
  {
  }

  /** A frame that starts as it should still does when what is dead has been emptied. */
  lemma StartsSettled(v: seq<Value>, s: Stack, oldExtent: nat, f: Shape, resultBase: nat, source: nat, argumentCount: nat, legacy: Value)
    requires FrameStarts(v, s.values, f, resultBase, source, argumentCount, legacy) && EndOf(f, resultBase, argumentCount) <= Live(s)
    ensures FrameStarts(v, Settled(s, oldExtent).values, f, resultBase, source, argumentCount, legacy)
  {
    SettledKeeps(s, oldExtent);
  }

  lemma CallSlotsStart(s: Stack, f: Shape, l: Layout, limit: nat, legacy: Value)
    requires ShapeValid(f) && s.length <= |s.values| <= limit && LayoutFits(f, l, limit) && LaidOut(f, l)
    requires l.resultBase + l.argumentCount < s.length
    ensures FrameStarts(s.values, CallSlots(s, f, l, limit, legacy).values, f, l.resultBase, l.resultBase, l.argumentCount, legacy)
    ensures Unchanged(s.values, CallSlots(s, f, l, limit, legacy).values, l.frameEnd, s.frameExtent)
  {
    var u, w := Reserved(s, l.required, limit).values, CallSlots(s, f, l, limit, legacy).values;
    assert Arranged(s.values, u, l.resultBase, l.resultBase, l.argumentCount);
    SetUpStarts(u, f, l, legacy, w);
    StartsFrom(s.values, u, w, f, l.resultBase, l.resultBase, l.argumentCount, legacy);
  }

  /** A call starts the frame; nothing else that stays live changes. */
  lemma PushedSlots(s: Stack, f: Shape, l: Layout, limit: nat, legacy: Value, r: Stack)
    requires ShapeValid(f) && s.length <= |s.values| <= limit && LayoutFits(f, l, limit) && LaidOut(f, l)
    requires l.resultBase + l.argumentCount < s.length && r == Pushed(s, f, l, limit, legacy)
    ensures FrameStarts(s.values, r.values, f, l.resultBase, l.resultBase, l.argumentCount, legacy)
    ensures Unchanged(s.values, r.values, l.frameEnd, s.frameExtent)
  {
    CallSlotsStart(s, f, l, limit, legacy);
    var called := CallSlots(s, f, l, limit, legacy);
    var published := Published(called, f, l.base, l.resultBase, l.frameEnd, l.wanted);
    StartsSettled(s.values, published, Live(s), f, l.resultBase, l.resultBase, l.argumentCount, legacy);
    SettledKeeps(published, Live(s));
    UnchangedOn(s.values, called.values, r.values, l.frameEnd, s.frameExtent, Live(published));
  }

  lemma UnchangedOn(v: seq<Value>, u: seq<Value>, w: seq<Value>, from: nat, to: nat, end: nat)
    requires Unchanged(v, u, from, to) && Unchanged(u, w, 0, end) && to <= end
    ensures Unchanged(v, w, from, to)
  {
    forall j | from <= j < to && j < |v| ensures w[j] == v[j] {
      assert u[j] == v[j];
    }
  }

  lemma ArrangedTail(s: Stack, callBase: nat, resultBase: nat, argumentCount: nat, required: nat, limit: nat)
    requires required <= limit && s.length <= |s.values| <= limit && resultBase <= callBase && callBase + 1 + argumentCount <= s.length
    ensures Arranged(s.values, Moved(Reserved(s, required, limit).values, resultBase, callBase, argumentCount + 1), resultBase, callBase, argumentCount)
  {
  }

  lemma ArgumentsStart(v: seq<Value>, room: seq<Value>, u: seq<Value>, f: Shape, callBase: nat, l: Layout, legacy: Value, w: seq<Value>)
    requires ShapeValid(f) && LayoutFits(f, l, |room|) && LaidOut(f, l) && callBase + 1 + l.argumentCount <= |room|
    requires u == Moved(room, l.resultBase, callBase, l.argumentCount + 1) && w == TailArguments(room, f, callBase, l, legacy)
    requires Arranged(v, u, l.resultBase, callBase, l.argumentCount)
    ensures FrameStarts(v, w, f, l.resultBase, callBase, l.argumentCount, legacy)
  {
    SetUpStarts(u, f, l, legacy, w);
    StartsFrom(v, u, w, f, l.resultBase, callBase, l.argumentCount, legacy);
  }

  lemma TailSlotsStart(s: Stack, f: Shape, callBase: nat, l: Layout, limit: nat, legacy: Value)
    requires ShapeValid(f) && s.length <= |s.values| <= limit && LayoutFits(f, l, limit) && LaidOut(f, l)
    requires l.resultBase <= callBase && callBase + 1 + l.argumentCount <= s.length
    ensures FrameStarts(s.values, TailSlots(s, f, callBase, l, limit, legacy).values, f, l.resultBase, callBase, l.argumentCount, legacy)
  {
    var room := Reserved(s, l.required, limit);
    ArrangedTail(s, callBase, l.resultBase, l.argumentCount, l.required, limit);
    ArgumentsStart(s.values, room.values, Moved(room.values, l.resultBase, callBase, l.argumentCount + 1), f, callBase, l, legacy,
                   TailSlots(s, f, callBase, l, limit, legacy).values);
  }

  /** A tail call starts the frame where its caller was. */
  lemma ReplacedSlots(s: Stack, f: Shape, callBase: nat, l: Layout, limit: nat, legacy: Value, tailLimit: nat, r: Stack)
    requires ShapeValid(f) && s.length <= |s.values| <= limit && s.frames != [] && LayoutFits(f, l, limit) && LaidOut(f, l)
    requires l.resultBase <= callBase && callBase + 1 + l.argumentCount <= s.length
    requires r == Replaced(s, f, callBase, l, limit, legacy, tailLimit)
    ensures FrameStarts(s.values, r.values, f, l.resultBase, callBase, l.argumentCount, legacy)
  {
    var called := TailSlots(s, f, callBase, l, limit, legacy);
    TailSlotsStart(s, f, callBase, l, limit, legacy);
    StartsSettled(s.values, TailPublished(called, f, l, tailLimit), Live(s), f, l.resultBase, callBase, l.argumentCount, legacy);
  }

  // ----- returns -----

  /** Slot j after a return: results go to `resultBase` in order, missing ones are nil, and what lies below stays. */
  function ReturnedSlot(v: seq<Value>, resultBase: nat, firstResult: nat, resultCount: nat, j: nat): Value
    requires firstResult + resultCount <= |v| && (j < resultBase ==> j < |v|)
  {
    if j < resultBase then v[j] else if j - resultBase < resultCount then v[firstResult + (j - resultBase)] else Nil
  }

  /** A frame has returned `outputCount` results: it is gone, its results are in place, and its caller has its extent
      and its top back. */
  ghost predicate Returns(s: Stack, t: Stack, firstResult: nat, resultCount: nat, outputCount: nat) {
    s.frames != [] && firstResult + resultCount <= |s.values| == |t.values| &&
    var n := |s.frames| - 1;
    var frame := s.frames[n];
    t.frames == s.frames[..n] && t.continuations == s.continuations && t.frameExtent == frame.callerExtent && t.length == s.length &&
    t.top == (if n > 0 && s.frames[n - 1].shape.LuaShape? && frame.wanted != ALL_RESULTS then s.frames[n - 1].base + s.frames[n - 1].shape.registers
              else frame.resultBase + outputCount) &&
    (forall j :: 0 <= j < frame.resultBase + outputCount && j < |t.values| && (j < t.top || j < t.frameExtent) ==>
      t.values[j] == ReturnedSlot(s.values, frame.resultBase, firstResult, resultCount, j)) &&
    forall j :: frame.resultBase + outputCount <= j < |t.values| && (j < t.top || j < t.frameExtent) ==> t.values[j] == s.values[j]
  }

  /** A Lua function hands down as many results as its caller wants, or all it has. */
  lemma FinishedLuaSlots(s: Stack, firstResult: nat, resultCount: nat, t: Stack)
    requires s.frames != [] && ALL_RESULTS <= s.frames[|s.frames| - 1].wanted && firstResult + resultCount <= s.length <= |s.values|
    requires t == FinishedLua(s, firstResult, resultCount)
    ensures var wanted := s.frames[|s.frames| - 1].wanted;
      Returns(s, t, firstResult, resultCount, if wanted == -1 then resultCount else wanted)
  {
    var frame := s.frames[|s.frames| - 1];
    var outputCount := Wanted(frame, resultCount);
    var v := HandedDown(s.values, frame.resultBase, firstResult, resultCount, outputCount);
    PoppedReturns(s, v, firstResult, resultCount, outputCount, t);
  }

  lemma PoppedReturns(s: Stack, v: seq<Value>, firstResult: nat, resultCount: nat, outputCount: nat, t: Stack)
    requires s.frames != [] && firstResult + resultCount <= s.length <= |s.values| == |v|
    requires forall j :: 0 <= j < |v| ==> v[j] == Result(s.values, s.frames[|s.frames| - 1].resultBase, firstResult, resultCount, outputCount, j)
    requires t == Popped(s, v, NewTop(s, outputCount))
    ensures Returns(s, t, firstResult, resultCount, outputCount)
  {
    var n := |s.frames| - 1;
    var after := s.(values := v, frames := s.frames[..n], top := NewTop(s, outputCount), frameExtent := s.frames[n].callerExtent);
    SettledKeeps(after, Live(s));
    assert Unchanged(v, t.values, 0, Live(after));
  }

  /** A native function's results are where it left them. */
  lemma FinishedNativeSlots(s: Stack, outputCount: nat, t: Stack)
    requires s.frames != [] && s.frames[|s.frames| - 1].resultBase + outputCount <= s.length <= |s.values|
    requires t == FinishedNative(s, outputCount)
    ensures Returns(s, t, s.frames[|s.frames| - 1].resultBase, outputCount, outputCount)
  {
    PoppedReturns(s, s.values, s.frames[|s.frames| - 1].resultBase, outputCount, outputCount, t);
  }

  // ----- unwinding -----

  /** The frames from `stop` on are gone, and so is what waited for them; what waited for others stays. An instruction
      that waited for frame `stop` gets its extents back, or else the frame below has what it had when it called. */
  ghost predicate Unwinds(s: Stack, t: Stack, stop: nat) {
    stop < |s.frames| && t.frames == s.frames[..stop] && t.length == s.length && |t.values| == |s.values| &&
    t.continuations <= s.continuations &&
    (forall k :: 0 <= k < |s.continuations| ==> (k < |t.continuations| <==> s.continuations[k].frameDepth < stop)) &&
    (forall k :: 0 <= k < |s.continuations| && s.continuations[k].frameDepth == stop ==>
      t.top == s.continuations[k].savedTop && t.frameExtent == s.continuations[k].savedExtent) &&
    ((forall k :: 0 <= k < |s.continuations| ==> s.continuations[k].frameDepth != stop) ==>
      t.top == t.frameExtent == s.frames[stop].callerExtent) &&
    forall j :: 0 <= j < |s.values| && (j < t.top || j < t.frameExtent) ==> t.values[j] == s.values[j]
  }

  lemma UnwoundSlots(s: Stack, stop: nat, t: Stack)
    requires Valid(s) && stop < |s.frames| && t == Unwound(s, stop)
    ensures Unwinds(s, t, stop)
  {
    var n := KeptContinuations(s.continuations, stop);
    KeptAre(s.frames, s.frameExtent, s.continuations, stop);
    var waiting := n < |s.continuations| && s.continuations[n].frameDepth == stop;
    var after := s.(frames := s.frames[..stop], continuations := s.continuations[..n],
      frameExtent := if waiting then s.continuations[n].savedExtent else s.frames[stop].callerExtent,
      top := if waiting then s.continuations[n].savedTop else s.frames[stop].callerExtent);
    SettledKeeps(after, Live(s));
    forall k | n < k < |s.continuations| ensures s.continuations[k].frameDepth > stop {
      assert s.continuations[n].frameDepth < s.continuations[k].frameDepth;
    }
  }
}
