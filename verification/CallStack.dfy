/** The value stack and the call frames of one thread, as values: what each call, return and unwinding does
    to them, and that saved extents never decrease and dead slots are always empty. */
module CallStack {
  import opened StackCapacity
  import opened Wrappers

  datatype Value = Empty | Nil | Callable(shape: Shape) | Other(n: int)

  /** What a call needs to know about a function. */
  datatype Shape = LuaShape(parameters: nat, registers: nat, vararg: bool, needsArg: bool) | NativeShape

  const ALL_RESULTS: int := -1
  const INDEX_LIMIT: nat := 0xFFFF_FFFF

  datatype Activation = Activation(shape: Shape, base: nat, resultBase: nat, tailCalls: nat, callerExtent: nat, wanted: int)
  datatype Continuation = Continuation(frameDepth: nat, scratchBase: nat, savedTop: nat, savedExtent: nat)

  /** `values` is the backing array, of which the first `length` slots are in use. */
  datatype Stack = Stack(values: seq<Value>, length: nat, frames: seq<Activation>, continuations: seq<Continuation>,
                         top: nat, frameExtent: nat)

  function Live(s: Stack): nat {
    if s.frameExtent > s.top then s.frameExtent else s.top
  }

  // ----- slots -----

  function Filled(v: seq<Value>, from: int, to: int, x: Value): (r: seq<Value>)
    ensures |r| == |v| && forall i :: 0 <= i < |r| ==> r[i] == if from <= i < to then x else v[i]
  {
    seq(|v|, i requires 0 <= i < |v| => if from <= i < to then x else v[i])
  }

  /** `count` slots copied as a block, wherever source and target overlap. */
  function Moved(v: seq<Value>, target: nat, source: nat, count: nat): (r: seq<Value>)
    requires source + count <= |v|
    ensures |r| == |v| && forall i :: 0 <= i < |r| ==> r[i] == if target <= i < target + count then v[source + (i - target)] else v[i]
  {
    seq(|v|, i requires 0 <= i < |v| => if target <= i < target + count then v[source + (i - target)] else v[i])
  }

  predicate EmptyFrom(v: seq<Value>, from: nat) {
    forall i :: from <= i < |v| ==> v[i] == Empty
  }

  // ----- validity -----

  /** How far the slots of frame `i` reach: what its callee saved, or the current extent for the top one. */
  function ExtentAt(frames: seq<Activation>, frameExtent: nat, i: nat): nat
    requires i < |frames|
  {
    if i + 1 < |frames| then frames[i + 1].callerExtent else frameExtent
  }

  /** An extent leaves room for the frame's registers and keeps what its caller had. */
  predicate Covers(extent: nat, f: Activation) {
    f.callerExtent <= extent && f.resultBase <= extent && (f.shape.LuaShape? ==> f.base + f.shape.registers <= extent)
  }

  predicate FrameValid(frames: seq<Activation>, frameExtent: nat, i: nat)
    requires i < |frames|
  {
    Covers(ExtentAt(frames, frameExtent, i), frames[i]) && frames[i].resultBase < frames[i].base && ALL_RESULTS <= frames[i].wanted &&
    (i > 0 && frames[i - 1].shape.LuaShape? ==> frames[i].resultBase + frames[i].wanted <= frames[i].callerExtent)
  }

  predicate FramesValid(frames: seq<Activation>, frameExtent: nat) {
    forall i {:trigger FrameValid(frames, frameExtent, i)} :: 0 <= i < |frames| ==> FrameValid(frames, frameExtent, i)
  }

  /** A continuation holds what the frame below its call had before the call was staged. */
  predicate ContinuationValid(frames: seq<Activation>, frameExtent: nat, c: Continuation) {
    0 < c.frameDepth <= |frames| && c.scratchBase == Max(c.savedTop, c.savedExtent) &&
    c.scratchBase <= ExtentAt(frames, frameExtent, c.frameDepth - 1) && Covers(c.savedExtent, frames[c.frameDepth - 1])
  }

  predicate ContinuationsValid(frames: seq<Activation>, frameExtent: nat, continuations: seq<Continuation>) {
    (forall k {:trigger ContinuationValid(frames, frameExtent, continuations[k])} ::
      0 <= k < |continuations| ==> ContinuationValid(frames, frameExtent, continuations[k])) &&
    forall j, k :: 0 <= j < k < |continuations| ==> continuations[j].frameDepth < continuations[k].frameDepth
  }

  predicate Valid(s: Stack) {
    Live(s) <= s.length <= |s.values| && EmptyFrom(s.values, Live(s)) &&
    FramesValid(s.frames, s.frameExtent) && ContinuationsValid(s.frames, s.frameExtent, s.continuations) &&
    ResultsFit(s.frames, s.length)
  }

  /** The results a frame's caller wants have room on the stack. */
  predicate ResultsFit(frames: seq<Activation>, length: nat) {
    forall i :: 0 <= i < |frames| ==> frames[i].resultBase + frames[i].wanted <= length
  }

  /** No suspended instruction waits for the frame on top. */
  predicate NothingPending(s: Stack) {
    s.continuations == [] || s.continuations[|s.continuations| - 1].frameDepth < |s.frames|
  }

  // ----- extents up the stack -----

  /** Saved caller extents never decrease up the stack, and the current extent is not below the last of them. */
  lemma {:induction false} ExtentsRise(frames: seq<Activation>, frameExtent: nat, i: nat, j: nat)
    requires FramesValid(frames, frameExtent) && i <= j < |frames|
    ensures ExtentAt(frames, frameExtent, i) <= ExtentAt(frames, frameExtent, j)
    ensures frames[i].callerExtent <= frames[j].callerExtent <= frameExtent
    decreases j - i
  {
    assert FrameValid(frames, frameExtent, i) && FrameValid(frames, frameExtent, j);
    LastExtent(frames, frameExtent, j);
    if i < j { ExtentsRise(frames, frameExtent, i + 1, j); }
  }

  lemma {:induction false} LastExtent(frames: seq<Activation>, frameExtent: nat, j: nat)
    requires FramesValid(frames, frameExtent) && j < |frames|
    ensures frames[j].callerExtent <= ExtentAt(frames, frameExtent, j) <= frameExtent
    decreases |frames| - j
  {
    assert FrameValid(frames, frameExtent, j);
    if j + 1 < |frames| { LastExtent(frames, frameExtent, j + 1); }
  }

  /** Raising the current extent, or replacing it by one that still covers the top frame, keeps frames valid. */
  lemma FramesStayValid(frames: seq<Activation>, before: nat, after: nat)
    requires FramesValid(frames, before) && (frames != [] ==> Covers(after, frames[|frames| - 1]))
    ensures FramesValid(frames, after)
  {
    forall i | 0 <= i < |frames| ensures FrameValid(frames, after, i) {
      assert FrameValid(frames, before, i);
    }
  }

  lemma ContinuationsStayValid(frames: seq<Activation>, before: nat, after: nat, continuations: seq<Continuation>)
    requires ContinuationsValid(frames, before, continuations)
    requires before <= after || (continuations != [] ==> continuations[|continuations| - 1].frameDepth < |frames|)
    ensures ContinuationsValid(frames, after, continuations)
  {
    forall k | 0 <= k < |continuations| ensures ContinuationValid(frames, after, continuations[k]) {
      assert ContinuationValid(frames, before, continuations[k]);
      if k < |continuations| - 1 { assert continuations[k].frameDepth < continuations[|continuations| - 1].frameDepth; }
    }
  }

  lemma FramePushed(frames: seq<Activation>, frameExtent: nat, f: Activation, extent: nat)
    requires FramesValid(frames, frameExtent) && f.callerExtent == frameExtent && Covers(extent, f)
    requires f.resultBase < f.base && ALL_RESULTS <= f.wanted
    requires frames != [] && frames[|frames| - 1].shape.LuaShape? ==> f.resultBase + f.wanted <= frameExtent
    ensures FramesValid(frames + [f], extent)
  {
    forall i | 0 <= i < |frames + [f]| ensures FrameValid(frames + [f], extent, i) {
      if i < |frames| { assert FrameValid(frames, frameExtent, i); }
    }
  }

  lemma ContinuationsPushed(frames: seq<Activation>, frameExtent: nat, f: Activation, extent: nat, continuations: seq<Continuation>)
    requires ContinuationsValid(frames, frameExtent, continuations) && f.callerExtent == frameExtent
    ensures ContinuationsValid(frames + [f], extent, continuations)
  {
    forall k | 0 <= k < |continuations| ensures ContinuationValid(frames + [f], extent, continuations[k]) {
      assert ContinuationValid(frames, frameExtent, continuations[k]);
    }
  }

  /** Cutting the stack back to `depth` frames leaves the extent its next frame had saved. */
  lemma FramesCut(frames: seq<Activation>, frameExtent: nat, depth: nat)
    requires FramesValid(frames, frameExtent) && depth < |frames|
    ensures FramesValid(frames[..depth], frames[depth].callerExtent)
  {
    forall i | 0 <= i < depth ensures FrameValid(frames[..depth], frames[depth].callerExtent, i) {
      assert FrameValid(frames, frameExtent, i);
    }
  }

  lemma ContinuationsCut(frames: seq<Activation>, frameExtent: nat, depth: nat, continuations: seq<Continuation>, n: nat)
    requires ContinuationsValid(frames, frameExtent, continuations) && depth < |frames| && n <= |continuations|
    requires forall k :: 0 <= k < n ==> continuations[k].frameDepth <= depth
    ensures ContinuationsValid(frames[..depth], frames[depth].callerExtent, continuations[..n])
  {
    var kept := continuations[..n];
    forall k | 0 <= k < |kept| ensures ContinuationValid(frames[..depth], frames[depth].callerExtent, kept[k]) {
      assert ContinuationValid(frames, frameExtent, continuations[k]);
    }
  }

  // ----- room on the stack -----

  function Blank(n: nat): (r: seq<Value>)
    ensures |r| == n && forall i :: 0 <= i < n ==> r[i] == Empty
  {
    seq(n, _ => Empty)
  }

  function Reserved(s: Stack, required: nat, limit: nat): (r: Stack)
    requires required <= limit && s.length <= |s.values| <= limit
    ensures r.length == Max(s.length, required) <= |r.values| <= limit && |s.values| <= |r.values|
    ensures r == s.(values := r.values, length := r.length)
    ensures forall i :: 0 <= i < |r.values| ==> r.values[i] == if i < |s.values| then s.values[i] else Empty
  {
    if required <= s.length then s
    else if required <= |s.values| then s.(length := required)
    else s.(values := s.values + Blank(NewCapacity(|s.values|, required, limit) - |s.values|), length := required)
  }

  // ----- calls -----

  datatype Layout = Layout(base: nat, resultBase: nat, frameEnd: nat, required: nat, argumentCount: nat, wanted: int)

  /** The arguments, the frame and the results of a call have room. */
  predicate LayoutFits(f: Shape, l: Layout, limit: nat) {
    l.required <= limit && l.required <= INDEX_LIMIT && l.resultBase < l.base <= l.frameEnd <= l.required && l.resultBase + 1 + l.argumentCount <= l.required &&
    l.resultBase + l.wanted <= l.required &&
    (f.LuaShape? ==> l.base + f.registers == l.frameEnd && (f.vararg ==> l.resultBase + 1 + f.parameters <= l.base))
  }

  /** Where the parts of a call go, or nothing when the value stack would exceed its limit. */
  function Plan(f: Shape, resultBase: nat, argumentCount: nat, wanted: int, limit: nat): (r: Option<Layout>)
    ensures r.Some? ==>
      var l := r.value;
      l.resultBase == resultBase && l.argumentCount == argumentCount && l.wanted == wanted && LayoutFits(f, l, limit)
  {
    var padded := if f.LuaShape? && f.vararg then Max(argumentCount, f.parameters) else argumentCount;
    var argumentEnd := resultBase + 1 + padded;
    var base := if f.LuaShape? && f.vararg then argumentEnd else resultBase + 1;
    var frameEnd := if f.LuaShape? then base + f.registers else argumentEnd;
    var required := Max(Max(argumentEnd, frameEnd), if wanted == ALL_RESULTS then 0 else resultBase + wanted);
    if required > limit || required > INDEX_LIMIT then None
    else Some(Layout(base, resultBase, frameEnd, required, argumentCount, wanted))
  }

  /** The prototype's registers hold its parameters, and the table of extra arguments if it wants one. */
  predicate ShapeValid(f: Shape) {
    f.LuaShape? ==> f.parameters + (if f.needsArg then 1 else 0) <= f.registers
  }

  /** Registers are nil but for the parameters, copied up from the arguments. */
  function ParametersUp(v: seq<Value>, f: Shape, l: Layout): (r: seq<Value>)
    requires ShapeValid(f) && f.LuaShape? && l.base + f.registers == l.frameEnd <= |v| && l.resultBase + 1 + f.parameters <= l.base
    ensures |r| == |v|
    ensures forall i :: 0 <= i <= l.resultBase && i < |v| ==> r[i] == v[i]
    ensures forall i :: 0 <= i < |v| && i >= l.frameEnd ==> r[i] == v[i]
  {
    var first := l.resultBase + 1;
    Moved(Filled(Filled(v, first + l.argumentCount, first + f.parameters, Nil), l.base, l.frameEnd, Nil), l.base, first, f.parameters)
  }

  /** A vararg function's parameters are copied above its arguments, which lose them. */
  function VarargSlots(v: seq<Value>, f: Shape, l: Layout, legacy: Value): (r: seq<Value>)
    requires ShapeValid(f) && f.LuaShape? && l.base + f.registers == l.frameEnd <= |v| && l.resultBase + 1 + f.parameters <= l.base
    ensures |r| == |v|
    ensures forall i :: 0 <= i <= l.resultBase && i < |v| ==> r[i] == v[i]
    ensures forall i :: 0 <= i < |v| && i >= l.frameEnd ==> r[i] == v[i]
  {
    var first := l.resultBase + 1;
    var hidden := Filled(ParametersUp(v, f, l), first, first + f.parameters, Nil);
    if f.needsArg then hidden[l.base + f.parameters := legacy] else hidden
  }

  /** Arguments become parameters: missing ones are nil, extra ones of a vararg function stay below its base. */
  function SetUp(v: seq<Value>, f: Shape, l: Layout, legacy: Value): (r: seq<Value>)
    requires ShapeValid(f) && LayoutFits(f, l, |v|)
    ensures |r| == |v|
    ensures forall i :: 0 <= i <= l.resultBase && i < |v| ==> r[i] == v[i]
    ensures forall i :: 0 <= i < |v| && i >= l.frameEnd ==> r[i] == v[i]
  {
    if f.NativeShape? then v
    else if f.vararg then VarargSlots(v, f, l, legacy)
    else Filled(v, l.base + Min(f.parameters, l.argumentCount), l.frameEnd, Nil)
  }

  function Published(s: Stack, f: Shape, base: nat, resultBase: nat, frameEnd: nat, wanted: int): Stack {
    s.(frames := s.frames + [Activation(f, base, resultBase, 0, s.frameExtent, wanted)], top := frameEnd,
       frameExtent := if frameEnd > s.frameExtent then frameEnd else s.frameExtent)
  }

  /** Slots that were live before and are no longer are emptied. */
  function Settled(s: Stack, oldExtent: nat): Stack {
    if Live(s) < oldExtent then s.(values := Filled(s.values, Live(s), Min(oldExtent, s.length), Empty)) else s
  }

  /** The slots of a call: room is made and parameters are set up. */
  function CallSlots(s: Stack, f: Shape, l: Layout, limit: nat, legacy: Value): (r: Stack)
    requires ShapeValid(f) && s.length <= |s.values| <= limit
    requires LayoutFits(f, l, limit)
    ensures r == s.(values := r.values, length := r.length) && l.required <= r.length <= |r.values| && s.length <= r.length
  {
    var r := Reserved(s, l.required, limit);
    r.(values := SetUp(r.values, f, l, legacy))
  }

  /** A call through the checked path, once it has been planned. */
  function Pushed(s: Stack, f: Shape, l: Layout, limit: nat, legacy: Value): Stack
    requires ShapeValid(f) && s.length <= |s.values| <= limit
    requires LayoutFits(f, l, limit)
  {
    Settled(Published(CallSlots(s, f, l, limit, legacy), f, l.base, l.resultBase, l.frameEnd, l.wanted), Live(s))
  }

  /** The window of a call lies in the live stack, and fixed results have room in a Lua caller's frame. */
  predicate CallFits(s: Stack, resultBase: nat, argumentCount: nat, wanted: int) {
    resultBase + 1 + argumentCount <= s.top && ALL_RESULTS <= wanted &&
    (s.frames != [] && s.frames[|s.frames| - 1].shape.LuaShape? ==> resultBase + wanted <= s.frameExtent)
  }

  lemma SettledEmpty(s: Stack, oldExtent: nat)
    requires oldExtent <= s.length <= |s.values| && EmptyFrom(s.values, Max(Live(s), oldExtent))
    ensures EmptyFrom(Settled(s, oldExtent).values, Live(s))
    ensures Live(Settled(s, oldExtent)) == Live(s) && |Settled(s, oldExtent).values| == |s.values|
  {
  }

  /** Emptying what has died leaves a valid stack. */
  lemma SettledValid(s: Stack, oldExtent: nat)
    requires Live(s) <= s.length <= |s.values| && oldExtent <= s.length && EmptyFrom(s.values, Max(Live(s), oldExtent))
    requires FramesValid(s.frames, s.frameExtent) && ContinuationsValid(s.frames, s.frameExtent, s.continuations)
    requires ResultsFit(s.frames, s.length)
    ensures Valid(Settled(s, oldExtent))
  {
    SettledEmpty(s, oldExtent);
  }

  /** Setting a call up writes no slot past its frame. */
  lemma SetUpEmpty(v: seq<Value>, f: Shape, l: Layout, legacy: Value, live: nat)
    requires ShapeValid(f) && LayoutFits(f, l, |v|)
    requires EmptyFrom(v, live)
    ensures EmptyFrom(SetUp(v, f, l, legacy), Max(live, l.frameEnd))
  {
  }

  lemma ReservedEmpty(s: Stack, required: nat, limit: nat)
    requires required <= limit && s.length <= |s.values| <= limit && EmptyFrom(s.values, Live(s))
    ensures EmptyFrom(Reserved(s, required, limit).values, Live(s))
  {
  }

  lemma CallSlotsEmpty(s: Stack, f: Shape, l: Layout, limit: nat, legacy: Value)
    requires ShapeValid(f) && s.length <= |s.values| <= limit
    requires LayoutFits(f, l, limit) && EmptyFrom(s.values, Live(s))
    ensures EmptyFrom(CallSlots(s, f, l, limit, legacy).values, Max(Live(s), l.frameEnd))
  {
    ReservedEmpty(s, l.required, limit);
    SetUpEmpty(Reserved(s, l.required, limit).values, f, l, legacy, Live(s));
  }

  lemma PushedValid(s: Stack, f: Shape, l: Layout, limit: nat, legacy: Value)
    requires Valid(s) && NothingPending(s) && ShapeValid(f) && |s.values| <= limit
    requires LayoutFits(f, l, limit)
    requires CallFits(s, l.resultBase, l.argumentCount, l.wanted)
    ensures Valid(Pushed(s, f, l, limit, legacy)) && NothingPending(Pushed(s, f, l, limit, legacy))
  {
    var r, extent := CallSlots(s, f, l, limit, legacy), Max(s.frameExtent, l.frameEnd);
    CallSlotsEmpty(s, f, l, limit, legacy);
    var call := Activation(f, l.base, l.resultBase, 0, s.frameExtent, l.wanted);
    FramePushed(s.frames, s.frameExtent, call, extent);
    ContinuationsPushed(s.frames, s.frameExtent, call, extent, s.continuations);
    SettledValid(Published(r, f, l.base, l.resultBase, l.frameEnd, l.wanted), Live(s));
  }

  // ----- tail calls -----

  function TailArguments(v: seq<Value>, f: Shape, callBase: nat, l: Layout, legacy: Value): (r: seq<Value>)
    requires ShapeValid(f) && LayoutFits(f, l, |v|) && callBase + 1 + l.argumentCount <= |v|
    ensures |r| == |v|
  {
    SetUp(Moved(v, l.resultBase, callBase, l.argumentCount + 1), f, l, legacy)
  }

  /** The slots of a tail call: callable and arguments move down to the frame they replace. */
  function TailSlots(s: Stack, f: Shape, callBase: nat, l: Layout, limit: nat, legacy: Value): (r: Stack)
    requires ShapeValid(f) && s.length <= |s.values| <= limit && callBase + 1 + l.argumentCount <= s.length
    requires LayoutFits(f, l, limit)
    ensures r == s.(values := r.values, length := r.length) && l.frameEnd <= r.length <= |r.values| && s.length <= r.length
  {
    var r := Reserved(s, l.required, limit);
    r.(values := TailArguments(r.values, f, callBase, l, legacy))
  }

  lemma TailSlotsEmpty(s: Stack, f: Shape, callBase: nat, l: Layout, limit: nat, legacy: Value)
    requires ShapeValid(f) && s.length <= |s.values| <= limit && callBase + 1 + l.argumentCount <= s.top <= s.length
    requires LayoutFits(f, l, limit) && l.resultBase <= callBase
    requires EmptyFrom(s.values, Live(s))
    ensures EmptyFrom(TailSlots(s, f, callBase, l, limit, legacy).values, Max(Live(s), l.frameEnd))
  {
    var r := Reserved(s, l.required, limit);
    var moved := Moved(r.values, l.resultBase, callBase, l.argumentCount + 1);
    ReservedEmpty(s, l.required, limit);
    assert EmptyFrom(moved, Live(s));
    SetUpEmpty(moved, f, l, legacy, Live(s));
  }

  function TailFrame(f: Shape, l: Layout, current: Activation, tailLimit: nat): Activation {
    Activation(f, l.base, current.resultBase, if current.tailCalls < tailLimit then current.tailCalls + 1 else current.tailCalls,
               current.callerExtent, current.wanted)
  }

  function Replaced(s: Stack, f: Shape, callBase: nat, l: Layout, limit: nat, legacy: Value, tailLimit: nat): Stack
    requires ShapeValid(f) && s.length <= |s.values| <= limit && s.frames != [] && callBase + 1 + l.argumentCount <= s.length
    requires LayoutFits(f, l, limit)
  {
    Settled(TailPublished(TailSlots(s, f, callBase, l, limit, legacy), f, l, tailLimit), Live(s))
  }

  function TailPublished(s: Stack, f: Shape, l: Layout, tailLimit: nat): Stack
    requires s.frames != []
  {
    var n := |s.frames| - 1;
    s.(frames := s.frames[n := TailFrame(f, l, s.frames[n], tailLimit)],
       top := l.frameEnd, frameExtent := Max(s.frames[n].callerExtent, l.frameEnd))
  }

  /** A frame replaced in place: the frames below keep their extents. */
  lemma FrameReplaced(frames: seq<Activation>, frameExtent: nat, f: Activation, extent: nat, continuations: seq<Continuation>)
    requires FramesValid(frames, frameExtent) && frames != [] && ContinuationsValid(frames, frameExtent, continuations)
    requires continuations == [] || continuations[|continuations| - 1].frameDepth < |frames|
    requires var previous := frames[|frames| - 1];
             f.resultBase == previous.resultBase && f.callerExtent == previous.callerExtent && f.wanted == previous.wanted
    requires f.resultBase < f.base && Covers(extent, f)
    ensures FramesValid(frames[|frames| - 1 := f], extent) && ContinuationsValid(frames[|frames| - 1 := f], extent, continuations)
  {
    var changed := frames[|frames| - 1 := f];
    forall i | 0 <= i < |frames| ensures FrameValid(changed, extent, i) {
      assert FrameValid(frames, frameExtent, i);
    }
    forall k | 0 <= k < |continuations| ensures ContinuationValid(changed, extent, continuations[k]) {
      assert ContinuationValid(frames, frameExtent, continuations[k]);
      assert continuations[k].frameDepth <= continuations[|continuations| - 1].frameDepth;
    }
  }

  lemma ReplacedValid(s: Stack, f: Shape, callBase: nat, l: Layout, limit: nat, legacy: Value, tailLimit: nat)
    requires Valid(s) && NothingPending(s) && ShapeValid(f) && |s.values| <= limit && s.frames != []
    requires var current := s.frames[|s.frames| - 1];
             l.resultBase == current.resultBase && l.wanted == current.wanted && current.resultBase <= callBase
    requires LayoutFits(f, l, limit) && callBase + 1 + l.argumentCount <= s.top
    ensures Valid(Replaced(s, f, callBase, l, limit, legacy, tailLimit))
  {
    var n := |s.frames| - 1;
    var t, extent := TailSlots(s, f, callBase, l, limit, legacy), Max(s.frames[n].callerExtent, l.frameEnd);
    LastExtent(s.frames, s.frameExtent, n);
    TailSlotsEmpty(s, f, callBase, l, limit, legacy);
    var frame := TailFrame(f, l, s.frames[n], tailLimit);
    FrameReplaced(s.frames, s.frameExtent, frame, extent, s.continuations);
    SettledValid(TailPublished(t, f, l, tailLimit), Live(s));
  }

  // ----- returns -----

  /** Where the stack top goes on a return: past the results, or to the end of a Lua caller that wanted a fixed number. */
  function NewTop(s: Stack, outputCount: nat): nat
    requires s.frames != []
  {
    var n := |s.frames| - 1;
    if s.frames[n].wanted != ALL_RESULTS && n > 0 && s.frames[n - 1].shape.LuaShape?
    then s.frames[n - 1].base + s.frames[n - 1].shape.registers
    else s.frames[n].resultBase + outputCount
  }

  function Wanted(f: Activation, resultCount: nat): nat
    requires ALL_RESULTS <= f.wanted
  {
    if f.wanted == ALL_RESULTS then resultCount else f.wanted
  }

  /** The top frame is gone; `values` already holds its results. */
  function Popped(s: Stack, values: seq<Value>, top: nat): Stack
    requires s.frames != []
  {
    var n := |s.frames| - 1;
    Settled(s.(values := values, frames := s.frames[..n], top := top, frameExtent := s.frames[n].callerExtent), Live(s))
  }

  function Result(v: seq<Value>, resultBase: nat, firstResult: nat, resultCount: nat, outputCount: nat, i: nat): Value
    requires firstResult + resultCount <= |v| && i < |v|
  {
    if resultBase <= i < resultBase + outputCount then
      if i - resultBase < resultCount then v[firstResult + (i - resultBase)] else Nil
    else v[i]
  }

  /** Results handed down to where the caller wants them, padded with nil. */
  function HandedDown(v: seq<Value>, resultBase: nat, firstResult: nat, resultCount: nat, outputCount: nat): (r: seq<Value>)
    requires firstResult + resultCount <= |v|
    ensures |r| == |v|
    ensures forall i :: 0 <= i < |v| ==> r[i] == Result(v, resultBase, firstResult, resultCount, outputCount, i)
  {
    var copied := Min(resultCount, outputCount);
    Filled(Moved(v, resultBase, firstResult, copied), resultBase + copied, resultBase + outputCount, Nil)
  }

  function FinishedLua(s: Stack, firstResult: nat, resultCount: nat): Stack
    requires s.frames != [] && ALL_RESULTS <= s.frames[|s.frames| - 1].wanted && firstResult + resultCount <= s.length <= |s.values|
  {
    var frame := s.frames[|s.frames| - 1];
    var outputCount := Wanted(frame, resultCount);
    Popped(s, HandedDown(s.values, frame.resultBase, firstResult, resultCount, outputCount), NewTop(s, outputCount))
  }

  /** Results written where the caller wants them are within what stays live. */
  lemma PoppedValid(s: Stack, values: seq<Value>, outputCount: nat)
    requires Valid(s) && NothingPending(s) && s.frames != [] && |values| == |s.values|
    requires s.frames[|s.frames| - 1].wanted == ALL_RESULTS || outputCount == s.frames[|s.frames| - 1].wanted
    requires s.frames[|s.frames| - 1].resultBase + outputCount <= s.length
    requires EmptyFrom(values, Max(Live(s), s.frames[|s.frames| - 1].resultBase + outputCount))
    ensures Valid(Popped(s, values, NewTop(s, outputCount)))
  {
    var n := |s.frames| - 1;
    assert FrameValid(s.frames, s.frameExtent, n);
    var after := s.(values := values, frames := s.frames[..n], top := NewTop(s, outputCount), frameExtent := s.frames[n].callerExtent);
    FramesCut(s.frames, s.frameExtent, n);
    forall k | 0 <= k < |s.continuations| ensures s.continuations[k].frameDepth <= n {
      assert s.continuations[k].frameDepth <= s.continuations[|s.continuations| - 1].frameDepth;
    }
    ContinuationsCut(s.frames, s.frameExtent, n, s.continuations, |s.continuations|);
    assert s.continuations[..|s.continuations|] == s.continuations;
    if n > 0 { assert FrameValid(s.frames, s.frameExtent, n - 1); }
    LastExtent(s.frames, s.frameExtent, n);
    SettledValid(after, Live(s));
  }

  /** A Lua function returns values from its frame: no slot outside the live stack is read or left filled. */
  lemma FinishedLuaValid(s: Stack, firstResult: nat, resultCount: nat)
    requires Valid(s) && NothingPending(s) && s.frames != [] && firstResult + resultCount <= Live(s)
    requires s.frames[|s.frames| - 1].resultBase <= firstResult
    ensures ALL_RESULTS <= s.frames[|s.frames| - 1].wanted && Valid(FinishedLua(s, firstResult, resultCount))
  {
    var n := |s.frames| - 1;
    assert FrameValid(s.frames, s.frameExtent, n);
    var frame := s.frames[n];
    var outputCount := Wanted(frame, resultCount);
    PoppedValid(s, HandedDown(s.values, frame.resultBase, firstResult, resultCount, outputCount), outputCount);
  }

  /** A native function makes room for its results, which stay live until it returns. */
  function PreparedResults(s: Stack, supplied: nat, limit: nat): Option<Stack>
    requires s.frames != [] && ALL_RESULTS <= s.frames[|s.frames| - 1].wanted && s.length <= |s.values| <= limit
  {
    var frame := s.frames[|s.frames| - 1];
    var required := frame.resultBase + Wanted(frame, supplied);
    if required > limit || required > INDEX_LIMIT then None
    else
      var r := Reserved(s, required, limit);
      Some(r.(top := Max(r.top, required), frameExtent := Max(r.frameExtent, required)))
  }

  lemma PreparedValid(s: Stack, supplied: nat, limit: nat)
    requires Valid(s) && NothingPending(s) && s.frames != [] && |s.values| <= limit
    ensures ALL_RESULTS <= s.frames[|s.frames| - 1].wanted
    ensures PreparedResults(s, supplied, limit).Some? ==>
      var r := PreparedResults(s, supplied, limit).value;
      Valid(r) && NothingPending(r) && r.frames == s.frames && r.continuations == s.continuations &&
      s.frames[|s.frames| - 1].resultBase + Wanted(s.frames[|s.frames| - 1], supplied) <= Live(r)
  {
    var n := |s.frames| - 1;
    assert FrameValid(s.frames, s.frameExtent, n);
    if PreparedResults(s, supplied, limit).Some? {
      var r := PreparedResults(s, supplied, limit).value;
      var required := s.frames[n].resultBase + Wanted(s.frames[n], supplied);
      ReservedEmpty(s, required, limit);
      FramesStayValid(s.frames, s.frameExtent, r.frameExtent);
      ContinuationsStayValid(s.frames, s.frameExtent, r.frameExtent, s.continuations);
    }
  }

  function FinishedNative(s: Stack, outputCount: nat): Stack
    requires s.frames != []
  {
    Popped(s, s.values, NewTop(s, outputCount))
  }

  lemma FinishedNativeValid(s: Stack, outputCount: nat)
    requires Valid(s) && NothingPending(s) && s.frames != [] && s.frames[|s.frames| - 1].resultBase + outputCount <= Live(s)
    requires s.frames[|s.frames| - 1].wanted == ALL_RESULTS || outputCount == s.frames[|s.frames| - 1].wanted
    ensures Valid(FinishedNative(s, outputCount))
  {
    PoppedValid(s, s.values, outputCount);
  }

  /** A write to a live slot. */
  function Assigned(s: Stack, i: nat, v: Value): Stack
    requires i < Live(s) <= s.length <= |s.values|
  {
    s.(values := s.values[i := v])
  }

  // ----- unwinding -----

  /** How many continuations are left when those of frames from `stop` on have gone. */
  function KeptContinuations(continuations: seq<Continuation>, stop: nat): (n: nat)
    ensures n <= |continuations|
  {
    if continuations == [] || continuations[|continuations| - 1].frameDepth < stop then |continuations|
    else KeptContinuations(continuations[..|continuations| - 1], stop)
  }

  lemma {:induction false} KeptAre(frames: seq<Activation>, frameExtent: nat, continuations: seq<Continuation>, stop: nat)
    requires ContinuationsValid(frames, frameExtent, continuations)
    ensures var n := KeptContinuations(continuations, stop);
            (forall k :: 0 <= k < n ==> continuations[k].frameDepth < stop) &&
            forall k :: n <= k < |continuations| ==> continuations[k].frameDepth >= stop
  {
    if continuations != [] {
      var m := |continuations| - 1;
      if continuations[m].frameDepth >= stop {
        assert forall k :: 0 <= k < m ==> continuations[..m][k] == continuations[k];
        forall k | 0 <= k < m ensures ContinuationValid(frames, frameExtent, continuations[..m][k]) {
          assert ContinuationValid(frames, frameExtent, continuations[k]);
        }
        KeptAre(frames, frameExtent, continuations[..m], stop);
      } else {
        assert forall k :: 0 <= k < m ==> continuations[k].frameDepth < continuations[m].frameDepth;
      }
    }
  }

  /** All frames from `stop` on are gone; an instruction that waited for the first of them gets back what it had. */
  function Unwound(s: Stack, stop: nat): Stack
    requires stop < |s.frames|
  {
    var n := KeptContinuations(s.continuations, stop);
    var waiting := n < |s.continuations| && s.continuations[n].frameDepth == stop;
    Settled(s.(frames := s.frames[..stop], continuations := s.continuations[..n],
               frameExtent := if waiting then s.continuations[n].savedExtent else s.frames[stop].callerExtent,
               top := if waiting then s.continuations[n].savedTop else s.frames[stop].callerExtent), Live(s))
  }

  lemma UnwoundValid(s: Stack, stop: nat)
    requires Valid(s) && stop < |s.frames|
    ensures Valid(Unwound(s, stop)) && NothingPending(Unwound(s, stop))
  {
    var n := KeptContinuations(s.continuations, stop);
    var waiting := n < |s.continuations| && s.continuations[n].frameDepth == stop;
    KeptAre(s.frames, s.frameExtent, s.continuations, stop);
    LastExtent(s.frames, s.frameExtent, stop);
    FramesCut(s.frames, s.frameExtent, stop);
    ContinuationsCut(s.frames, s.frameExtent, stop, s.continuations, n);
    var saved, kept := s.frames[stop].callerExtent, s.continuations[..n];
    if waiting {
      assert ContinuationValid(s.frames, s.frameExtent, s.continuations[n]);
      FramesStayValid(s.frames[..stop], saved, s.continuations[n].savedExtent);
      ContinuationsStayValid(s.frames[..stop], saved, s.continuations[n].savedExtent, kept);
    }
    var extent := if waiting then s.continuations[n].savedExtent else saved;
    var top := if waiting then s.continuations[n].savedTop else saved;
    SettledValid(s.(frames := s.frames[..stop], continuations := kept, frameExtent := extent, top := top), Live(s));
  }

  // ----- staged calls and metamethods -----

  function Written(v: seq<Value>, from: nat, vs: seq<Value>): (r: seq<Value>)
    requires from + |vs| <= |v|
    ensures |r| == |v| && forall i :: 0 <= i < |r| ==> r[i] == if from <= i < from + |vs| then vs[i - from] else v[i]
  {
    v[..from] + vs + v[from + |vs|..]
  }

  /** A callable and its arguments laid out past everything live.  With a caller they are part of its extent. */
  function Staged(s: Stack, staged: seq<Value>, required: nat, limit: nat): Stack
    requires required <= limit && Live(s) + |staged| <= required && s.length <= |s.values| <= limit
  {
    var r, end := Reserved(s, required, limit), Live(s) + |staged|;
    r.(values := Written(r.values, Live(s), staged), top := end, frameExtent := if s.frames == [] then s.frameExtent else end)
  }

  lemma StagedValid(s: Stack, staged: seq<Value>, required: nat, limit: nat)
    requires Valid(s) && NothingPending(s) && |s.values| <= limit && staged != []
    requires required <= limit && Live(s) + |staged| <= required
    ensures Valid(Staged(s, staged, required, limit)) && NothingPending(Staged(s, staged, required, limit))
    ensures Live(Staged(s, staged, required, limit)) == Live(s) + |staged|
  {
    var r := Staged(s, staged, required, limit);
    ReservedEmpty(s, required, limit);
    if s.frames != [] {
      assert FrameValid(s.frames, s.frameExtent, |s.frames| - 1);
    }
    FramesStayValid(s.frames, s.frameExtent, r.frameExtent);
    ContinuationsStayValid(s.frames, s.frameExtent, r.frameExtent, s.continuations);
  }

  /** A call from outside the instruction stream: staged, then made like any other. */
  function StagedCall(s: Stack, f: Shape, staged: seq<Value>, wanted: int, limit: nat, legacy: Value): Option<Stack>
    requires ShapeValid(f) && s.length <= |s.values| <= limit && staged != [] && ALL_RESULTS <= wanted
  {
    var plan := Plan(f, Live(s), |staged| - 1, wanted, limit);
    if plan.None? then None
    else Some(Pushed(Staged(s, staged, plan.value.required, limit), f, plan.value, limit, legacy))
  }

  lemma PushedShape(s: Stack, f: Shape, l: Layout, limit: nat, legacy: Value)
    requires ShapeValid(f) && s.length <= |s.values| <= limit
    requires LayoutFits(f, l, limit)
    ensures var r := Pushed(s, f, l, limit, legacy);
            r.frames == s.frames + [Activation(f, l.base, l.resultBase, 0, s.frameExtent, l.wanted)] &&
            r.continuations == s.continuations && s.length <= r.length
  {
  }

  lemma StagedCallValid(s: Stack, f: Shape, staged: seq<Value>, wanted: int, limit: nat, legacy: Value)
    requires Valid(s) && NothingPending(s) && ShapeValid(f) && |s.values| <= limit && staged != [] && ALL_RESULTS <= wanted
    requires s.frames != [] && s.frames[|s.frames| - 1].shape.LuaShape? ==> wanted <= |staged|
    ensures var r := StagedCall(s, f, staged, wanted, limit, legacy);
            r.Some? ==> Valid(r.value) && NothingPending(r.value)
  {
    var plan := Plan(f, Live(s), |staged| - 1, wanted, limit);
    if plan.Some? {
      var l := plan.value;
      StagedValid(s, staged, l.required, limit);
      StagedShape(s, staged, l.required, limit);
      PushedValid(Staged(s, staged, l.required, limit), f, l, limit, legacy);
    }
  }

  lemma StagedCallShape(s: Stack, f: Shape, staged: seq<Value>, wanted: int, limit: nat, legacy: Value)
    requires ShapeValid(f) && s.length <= |s.values| <= limit && staged != [] && ALL_RESULTS <= wanted
    requires StagedCall(s, f, staged, wanted, limit, legacy).Some?
    ensures var r := StagedCall(s, f, staged, wanted, limit, legacy).value;
            |r.frames| == |s.frames| + 1 && r.frames[..|s.frames|] == s.frames && r.continuations == s.continuations &&
            s.length <= r.length && r.frames[|s.frames|].resultBase == Live(s) &&
            (s.frames != [] ==> r.frames[|s.frames|].callerExtent == Live(s) + |staged|)
  {
    var l := Plan(f, Live(s), |staged| - 1, wanted, limit).value;
    StagedShape(s, staged, l.required, limit);
    PushedShape(Staged(s, staged, l.required, limit), f, l, limit, legacy);
  }

  lemma StagedShape(s: Stack, staged: seq<Value>, required: nat, limit: nat)
    requires required <= limit && Live(s) + |staged| <= required && s.length <= |s.values| <= limit
    ensures var r := Staged(s, staged, required, limit);
            r.frames == s.frames && r.continuations == s.continuations && r.top == Live(s) + |staged| && |r.values| <= limit &&
            s.length <= r.length <= |r.values| &&
            r.frameExtent == if s.frames == [] then s.frameExtent else r.top
  {
  }

  /** An instruction calls a metamethod and waits for it. */
  function MetamethodCall(s: Stack, f: Shape, staged: seq<Value>, wanted: int, limit: nat, legacy: Value): Option<Stack>
    requires ShapeValid(f) && s.length <= |s.values| <= limit && staged != [] && ALL_RESULTS <= wanted
  {
    var called := StagedCall(s, f, staged, wanted, limit, legacy);
    if called.None? then None
    else Some(called.value.(continuations := called.value.continuations + [Continuation(|s.frames|, Live(s), s.top, s.frameExtent)]))
  }

  lemma OneMoreContinuation(r: Stack, c: Continuation)
    requires Valid(r) && ContinuationValid(r.frames, r.frameExtent, c) && c.frameDepth < |r.frames|
    requires forall k :: 0 <= k < |r.continuations| ==> r.continuations[k].frameDepth < c.frameDepth
    ensures Valid(r.(continuations := r.continuations + [c])) && NothingPending(r.(continuations := r.continuations + [c]))
  {
    forall k | 0 <= k < |r.continuations + [c]| ensures ContinuationValid(r.frames, r.frameExtent, (r.continuations + [c])[k]) {
      if k < |r.continuations| { assert ContinuationValid(r.frames, r.frameExtent, r.continuations[k]); }
    }
  }

  lemma DepthsBelow(s: Stack)
    requires Valid(s) && NothingPending(s)
    ensures forall k :: 0 <= k < |s.continuations| ==> s.continuations[k].frameDepth < |s.frames|
  {
    forall k | 0 <= k < |s.continuations| ensures s.continuations[k].frameDepth < |s.frames| {
      assert s.continuations[k].frameDepth <= s.continuations[|s.continuations| - 1].frameDepth;
    }
  }

  lemma NewContinuation(s: Stack, f: Shape, staged: seq<Value>, wanted: int, limit: nat, legacy: Value)
    requires Valid(s) && NothingPending(s) && ShapeValid(f) && |s.values| <= limit && staged != [] && ALL_RESULTS <= wanted && s.frames != []
    requires StagedCall(s, f, staged, wanted, limit, legacy).Some?
    ensures var r := StagedCall(s, f, staged, wanted, limit, legacy).value;
      ContinuationValid(r.frames, r.frameExtent, Continuation(|s.frames|, Live(s), s.top, s.frameExtent))
  {
    StagedCallShape(s, f, staged, wanted, limit, legacy);
    var r := StagedCall(s, f, staged, wanted, limit, legacy).value;
    assert FrameValid(s.frames, s.frameExtent, |s.frames| - 1);
    assert r.frames[|s.frames| - 1] == r.frames[..|s.frames|][|s.frames| - 1];
  }

  lemma MetamethodCallValid(s: Stack, f: Shape, staged: seq<Value>, wanted: int, limit: nat, legacy: Value)
    requires Valid(s) && NothingPending(s) && ShapeValid(f) && |s.values| <= limit && staged != [] && wanted in {0, 1} && s.frames != []
    ensures MetamethodCall(s, f, staged, wanted, limit, legacy).Some? ==>
      Valid(MetamethodCall(s, f, staged, wanted, limit, legacy).value) &&
      NothingPending(MetamethodCall(s, f, staged, wanted, limit, legacy).value)
  {
    StagedCallValid(s, f, staged, wanted, limit, legacy);
    if StagedCall(s, f, staged, wanted, limit, legacy).Some? {
      StagedCallShape(s, f, staged, wanted, limit, legacy);
      NewContinuation(s, f, staged, wanted, limit, legacy);
      DepthsBelow(s);
      OneMoreContinuation(StagedCall(s, f, staged, wanted, limit, legacy).value, Continuation(|s.frames|, Live(s), s.top, s.frameExtent));
    }
  }

  /** The waiting instruction goes on: the stack is as it was before the call was staged. */
  function ResumedContinuation(s: Stack): Stack
    requires s.continuations != []
  {
    var n := |s.continuations| - 1;
    var c := s.continuations[n];
    Settled(s.(continuations := s.continuations[..n], top := c.savedTop, frameExtent := c.savedExtent), Live(s))
  }

  lemma ResumedValid(s: Stack)
    requires Valid(s) && s.continuations != [] && s.continuations[|s.continuations| - 1].frameDepth == |s.frames|
    ensures Valid(ResumedContinuation(s)) && NothingPending(ResumedContinuation(s))
  {
    var n := |s.continuations| - 1;
    var c, rest := s.continuations[n], s.continuations[..n];
    assert ContinuationValid(s.frames, s.frameExtent, c);
    LastExtent(s.frames, s.frameExtent, |s.frames| - 1);
    FramesStayValid(s.frames, s.frameExtent, c.savedExtent);
    forall k | 0 <= k < |rest| ensures ContinuationValid(s.frames, s.frameExtent, rest[k]) {
      assert ContinuationValid(s.frames, s.frameExtent, s.continuations[k]);
    }
    ContinuationsStayValid(s.frames, s.frameExtent, c.savedExtent, rest);
    SettledValid(s.(continuations := rest, top := c.savedTop, frameExtent := c.savedExtent), Live(s));
  }

  // ----- yields -----

  function YieldSlots(s: Stack, from: nat, results: seq<Value>, limit: nat): (r: Stack)
    requires from + |results| <= limit && s.length <= |s.values| <= limit
    ensures r == s.(values := r.values, length := r.length) && s.length <= r.length && from + |results| <= r.length <= |r.values|
  {
    var r := Reserved(s, from + |results|, limit);
    r.(values := Filled(Written(r.values, from, results), from + |results|, Min(s.top, r.length), Empty))
  }

  lemma YieldSlotsEmpty(s: Stack, from: nat, results: seq<Value>, limit: nat)
    requires from + |results| <= limit && s.length <= |s.values| <= limit && EmptyFrom(s.values, Live(s))
    ensures EmptyFrom(YieldSlots(s, from, results, limit).values, Max(Live(s), from + |results|))
  {
    ReservedEmpty(s, from + |results|, limit);
  }

  function YieldStack(s: Stack, results: seq<Value>, limit: nat): Stack
    requires s.frames != [] && s.frames[|s.frames| - 1].resultBase + |results| <= limit && s.length <= |s.values| <= limit
  {
    var frame := s.frames[|s.frames| - 1];
    var end := frame.resultBase + |results|;
    YieldSlots(s, frame.resultBase, results, limit).(top := end, frameExtent := Max(frame.callerExtent, end))
  }

  /** The values yielded take the place of everything the native function had. */
  function FinishedYield(s: Stack, results: seq<Value>, limit: nat): Option<Stack>
    requires s.frames != [] && s.length <= |s.values| <= limit
  {
    var end := s.frames[|s.frames| - 1].resultBase + |results|;
    if end > limit || end > INDEX_LIMIT then None else Some(Settled(YieldStack(s, results, limit), Live(s)))
  }

  lemma FinishedYieldValid(s: Stack, results: seq<Value>, limit: nat)
    requires Valid(s) && NothingPending(s) && s.frames != [] && |s.values| <= limit && s.frames[|s.frames| - 1].shape.NativeShape?
    ensures FinishedYield(s, results, limit).Some? ==> Valid(FinishedYield(s, results, limit).value)
  {
    if FinishedYield(s, results, limit).Some? {
      YieldStackReady(s, results, limit);
      SettledValid(YieldStack(s, results, limit), Live(s));
    }
  }

  lemma YieldStackReady(s: Stack, results: seq<Value>, limit: nat)
    requires Valid(s) && NothingPending(s) && s.frames != [] && |s.values| <= limit && s.frames[|s.frames| - 1].shape.NativeShape?
    requires s.frames[|s.frames| - 1].resultBase + |results| <= limit
    ensures var r := YieldStack(s, results, limit);
            Live(r) <= r.length <= |r.values| && Live(s) <= r.length && EmptyFrom(r.values, Max(Live(r), Live(s))) &&
            FramesValid(r.frames, r.frameExtent) && ContinuationsValid(r.frames, r.frameExtent, r.continuations) && ResultsFit(r.frames, r.length)
  {
    var n := |s.frames| - 1;
    var frame := s.frames[n];
    var extent := Max(frame.callerExtent, frame.resultBase + |results|);
    assert FrameValid(s.frames, s.frameExtent, n);
    LastExtent(s.frames, s.frameExtent, n);
    YieldSlotsEmpty(s, frame.resultBase, results, limit);
    FramesStayValid(s.frames, s.frameExtent, extent);
    ContinuationsStayValid(s.frames, s.frameExtent, extent, s.continuations);
  }
}
