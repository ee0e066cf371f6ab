/** The compiler's goto and label bookkeeping for one function. */
module Gotos {
  import opened GotoSpec
  import opened GotoSteps
  import opened GotoLeaving

  datatype Outcome = Done | Duplicate(found: nat) | IntoScope(local: nat) | TooLong

  // ----- every goto is accounted for -----

  datatype Goto = Goto(origin: Origin, name: Name, closePC: nat)

  predicate PendingAt(t: Tables, h: History, e: Goto, i: nat) {
    i < |t.pendings| && i < |h.origins| && h.origins[i] == e.origin && t.pendings[i].name == e.name && t.pendings[i].closePC == e.closePC
  }

  predicate ResolvedAt(h: History, e: Goto, r: nat) {
    r < |h.resolved| && h.resolved[r].origin == e.origin && h.resolved[r].name == e.name && h.resolved[r].closePC == e.closePC
  }

  ghost predicate Traced(t: Tables, h: History, e: Goto) {
    (exists i: nat :: PendingAt(t, h, e, i)) || exists r: nat :: ResolvedAt(h, e, r)
  }

  ghost predicate Accounted(t: Tables, h: History, gotos: set<Goto>) {
    forall e {:trigger Traced(t, h, e)} :: e in gotos ==> Traced(t, h, e)
  }

  /** A block has one label of a name at most. */
  ghost predicate Unique(seen: set<Target>) {
    forall x, y :: x in seen && y in seen && x.block == y.block && x.name == y.name ==> x == y
  }

  lemma TracedSettled(t: Tables, h: History, gotos: set<Goto>, g: nat, close: Instr, jump: Instr, depth: nat, target: Target)
    requires Counted(t, h, g)
    ensures Accounted(t, h, gotos) ==> Accounted(TakenOut(t, g, close, jump), Settled(h, g, t.pendings[g], depth, target), gotos)
  {
    var t', h' := TakenOut(t, g, close, jump), Settled(h, g, t.pendings[g], depth, target);
    forall e | Traced(t, h, e) ensures Traced(t', h', e) {
      if i: nat :| PendingAt(t, h, e, i) {
        if i == g {
          assert ResolvedAt(h', e, |h.resolved|);
        } else {
          assert PendingAt(t', h', e, if i < g then i else i - 1);
        }
      } else {
        var r: nat :| ResolvedAt(h, e, r);
        assert ResolvedAt(h', e, r);
      }
    }
  }

  /** Gotos keep their place in the tables or move on; the new one, if any, is there as well. */
  lemma TracedKept(t: Tables, h: History, t': Tables, h': History, gotos: set<Goto>)
    requires |h.origins| == |t.pendings| && |t.pendings| <= |t'.pendings| && h.origins <= h'.origins && h.resolved <= h'.resolved
    requires forall i :: 0 <= i < |t.pendings| ==> t'.pendings[i].name == t.pendings[i].name && t'.pendings[i].closePC == t.pendings[i].closePC
    ensures Accounted(t, h, gotos) ==> Accounted(t', h', gotos)
  {
    forall e | Traced(t, h, e) ensures Traced(t', h', e) {
      if i: nat :| PendingAt(t, h, e, i) {
        assert PendingAt(t', h', e, i);
      } else {
        var r: nat :| ResolvedAt(h, e, r);
        assert ResolvedAt(h', e, r);
      }
    }
  }

  lemma UniqueLabelled(t: Tables, h: History, name: Name, localCount: nat)
    requires Valid(t, h) && t.blocks != [] && localCount <= |t.locals| && Unique(Seen(h)) && NotInTop(t, name)
    ensures Unique(Seen(LabelledHistory(t, h, name, localCount)))
  {
    LabelledSeen(t, h, name, localCount);
    TopUnseen(t, h, name);
    assert h.ids[|h.ids| - 1] == Origin(t.locals, h.ids).path[|h.ids| - 1];
  }

  lemma DeferredAccounted(t: Tables, h: History, name: Name, gotos: set<Goto>)
    requires h.ids != [] && |h.origins| == |t.pendings|
    ensures Accounted(t, h, gotos) ==>
      Accounted(Deferred(t, name), DeferredHistory(t, h), gotos + {Goto(Origin(t.locals, h.ids), name, |t.code|)})
  {
    TracedKept(t, h, Deferred(t, name), DeferredHistory(t, h), gotos);
    assert PendingAt(Deferred(t, name), DeferredHistory(t, h), Goto(Origin(t.locals, h.ids), name, |t.code|), |t.pendings|);
  }

  lemma DirectAccounted(t: Tables, h: History, l: nat, gotos: set<Goto>)
    requires h.ids != [] && |h.origins| == |t.pendings| && l < |h.targets| && l < |t.labels|
    ensures Accounted(t, h, gotos) ==>
      Accounted(Direct(t, t.labels[l]), DirectHistory(t, h, l), gotos + {Goto(Origin(t.locals, h.ids), h.targets[l].name, |t.code|)})
  {
    TracedKept(t, h, Direct(t, t.labels[l]), DirectHistory(t, h, l), gotos);
    assert ResolvedAt(DirectHistory(t, h, l), Goto(Origin(t.locals, h.ids), h.targets[l].name, |t.code|), |h.resolved|);
  }

  lemma SameLabel(t: Tables, h: History, k: nat, l: nat)
    requires BlocksValid(t, h) && LabelsValid(t, h) && Unique(Seen(h)) && t.blocks != []
    requires Top(t).firstLabel <= k < |t.labels| && Top(t).firstLabel <= l < |t.labels| && t.labels[k].name == t.labels[l].name
    ensures t.labels[k].pc == t.labels[l].pc
  {
    assert LabelValid(t, h, k) && LabelValid(t, h, l);
    assert h.targets[k] in Seen(h) && h.targets[l] in Seen(h);
  }

  // ----- the gotos that wait for a new label -----

  /** Nothing comes into scope between goto i and the new label, and the jump between them can be encoded. */
  predicate Resolvable(t: Tables, h: History, name: Name, localCount: nat, i: nat)
    requires h.ids != [] && localCount <= |t.locals|
  {
    i < |h.origins| && i < |t.pendings| && MayJump(h.origins[i], NewTarget(t, h, name, localCount)) && Near(t.pendings[i].jumpPC, |t.code|)
  }

  /** That holds of all the gotos before `count` that wait in the innermost block for the name. */
  predicate AllResolvable(t: Tables, h: History, name: Name, localCount: nat, count: nat)
    requires h.ids != [] && localCount <= |t.locals| && t.blocks != [] && count <= |t.pendings|
  {
    forall i :: Top(t).firstGoto <= i < count && t.pendings[i].name == name ==> Resolvable(t, h, name, localCount, i)
  }

  /** The gotos from `index` on are those that were at `done` and later in the beginning. */
  predicate Unprocessed(t': Tables, h': History, index: nat, t: Tables, h: History, done: nat) {
    |h.origins| == |t.pendings| && |h'.origins| == |t'.pendings| && index <= |t'.pendings| && done <= |t.pendings| &&
    t'.pendings[index..] == t.pendings[done..] && h'.origins[index..] == h.origins[done..]
  }

  lemma UnprocessedHead(t': Tables, h': History, index: nat, t: Tables, h: History, done: nat)
    requires Unprocessed(t', h', index, t, h, done) && index < |t'.pendings|
    ensures done < |t.pendings| && t'.pendings[index] == t.pendings[done] && h'.origins[index] == h.origins[done]
    ensures t'.pendings[index + 1..] == t.pendings[done + 1..] && h'.origins[index + 1..] == h.origins[done + 1..]
  {
    assert t'.pendings[index..][0] == t.pendings[done..][0] && h'.origins[index..][0] == h.origins[done..][0];
    assert t'.pendings[index..][1..] == t.pendings[done..][1..] && h'.origins[index..][1..] == h.origins[done..][1..];
  }

  /** The gotos before `done` have been dealt with; the label is the new one. */
  predicate Reached(t': Tables, h': History, index: nat, t: Tables, h: History, done: nat, found: Label) {
    Unprocessed(t', h', index, t, h, done) && t.blocks == t'.blocks != [] && Top(t).firstGoto <= done && t'.locals == t.locals &&
    h.ids == h'.ids && h.ids != [] && |t'.code| == |t.code| == found.pc && found.localCount <= |t.locals| &&
    AllResolvable(t, h, found.name, found.localCount, done)
  }

  lemma ReachedSkips(t': Tables, h': History, index: nat, t: Tables, h: History, done: nat, found: Label)
    requires Reached(t', h', index, t, h, done, found) && index < |t'.pendings| && t'.pendings[index].name != found.name
    ensures Reached(t', h', index + 1, t, h, done + 1, found)
  {
    UnprocessedHead(t', h', index, t, h, done);
  }

  lemma ReachedResolves(t': Tables, h': History, t'': Tables, h'': History, index: nat, t: Tables, h: History, done: nat, found: Label)
    requires Reached(t', h', index, t, h, done, found) && index < |t'.pendings| && index < |h'.origins|
    requires done < |t.pendings| && Resolvable(t, h, found.name, found.localCount, done)
    requires t''.pendings == Without(t'.pendings, index) && h''.origins == Without(h'.origins, index)
    requires t''.blocks == t'.blocks && t''.locals == t'.locals && h''.ids == h'.ids && |t''.code| == |t'.code|
    ensures Reached(t'', h'', index, t, h, done + 1, found)
  {
    UnprocessedHead(t', h', index, t, h, done);
    assert t''.pendings[index..] == t'.pendings[index + 1..] && h''.origins[index..] == h'.origins[index + 1..];
  }

  /** What resolving the next goto needs, and what its outcome says about the label. */
  lemma HalfMeets(t': Tables, h': History, t: Tables, h: History, found: Label, index: nat, done: nat)
    requires HalfDefined(t', h', found.name, index) && Reached(t', h', index, t, h, done, found)
    requires index < |t'.pendings| && t'.pendings[index].name == found.name
    ensures Waiting(t', h', index) && done < |t.pendings|
    ensures Resolvable(t, h, found.name, found.localCount, done) <==>
      (found.localCount <= t'.pendings[index].localCount && Near(t'.pendings[index].jumpPC, found.pc))
    ensures AllResolvable(t, h, found.name, found.localCount, |t.pendings|) ==> Resolvable(t, h, found.name, found.localCount, done)
  {
    UnprocessedHead(t', h', index, t, h, done);
    assert Waiting(t', h', index);
    WatermarkDecides(t'.code, t'.locals, h'.ids, t'.pendings[index], h'.origins[index], h'.depths[index],
      NewTarget(t, h, found.name, found.localCount));
  }

  ghost predicate HalfAccounted(t: Tables, h: History, name: Name, index: nat, gotos: set<Goto>, failed: bool) {
    t.labels != [] && t.labels[|t.labels| - 1].name == name && t.blocks != [] && Top(t).firstLabel < |t.labels| &&
    HalfDefined(t, h, name, index) && Unique(Seen(h)) && (!failed ==> Accounted(t, h, gotos))
  }

  lemma HalfAccountedStarts(t: Tables, h: History, name: Name, localCount: nat, gotos: set<Goto>, failed: bool)
    requires Valid(t, h) && t.blocks != [] && Top(t).localBase <= localCount <= |t.locals| && Unique(Seen(h)) && NotInTop(t, name)
    requires !failed ==> Accounted(t, h, gotos)
    ensures HalfAccounted(Labelled(t, name, localCount), LabelledHistory(t, h, name, localCount), name, Top(t).firstGoto, gotos, failed)
  {
    UniqueLabelled(t, h, name, localCount);
    LabelledHalf(t, h, name, localCount);
    TracedKept(t, h, Labelled(t, name, localCount), LabelledHistory(t, h, name, localCount), gotos);
  }

  lemma HalfWaits(t: Tables, h: History, g: nat)
    requires t.labels != [] && t.blocks != [] && g < |t.pendings| && HalfDefined(t, h, t.labels[|t.labels| - 1].name, g)
    ensures Waiting(t, h, g) && t.labels[|t.labels| - 1].localCount <= |t.locals| && |h.targets| == |t.labels|
  {
    assert Waiting(t, h, g) && LabelValid(t, h, |t.labels| - 1);
  }

  lemma HalfAccountedSettled(t: Tables, h: History, g: nat, gotos: set<Goto>, failed: bool)
    requires t.labels != [] && g < |t.pendings| && HalfAccounted(t, h, t.pendings[g].name, g, gotos, failed)
    requires t.labels[|t.labels| - 1].localCount <= t.pendings[g].localCount
    ensures Counted(t, h, g) && |h.targets| == |t.labels| && var found := t.labels[|t.labels| - 1];
      HalfAccounted(TakenOut(t, g, ClosePlace(h.origins[g].locals, found.localCount), JumpTo(found.pc)),
        Settled(h, g, t.pendings[g], |t.blocks| - 1, h.targets[|t.labels| - 1]), found.name, g, gotos, failed)
  {
    var l := |t.labels| - 1;
    var found := t.labels[l];
    HalfSettled(t, h, g, l);
    TracedSettled(t, h, gotos, g, ClosePlace(h.origins[g].locals, found.localCount), JumpTo(found.pc), |t.blocks| - 1, h.targets[l]);
    assert Seen(Settled(h, g, t.pendings[g], |t.blocks| - 1, h.targets[l])) == Seen(h);
  }

  lemma HalfAccountedSkips(t: Tables, h: History, name: Name, g: nat, gotos: set<Goto>, failed: bool)
    requires HalfAccounted(t, h, name, g, gotos, failed) && g < |t.pendings| && t.pendings[g].name != name
    ensures HalfAccounted(t, h, name, g + 1, gotos, failed)
  {
  }

  lemma HalfAccountedEnds(t: Tables, h: History, name: Name, gotos: set<Goto>, failed: bool)
    requires HalfAccounted(t, h, name, |t.pendings|, gotos, failed)
    ensures Valid(t, h)
  {
    forall i | 0 <= i < |t.pendings| ensures WaitingUnseen(t, h, i) { }
  }

  // ----- gotos that move out of a block -----

  ghost predicate LeavingAccounted(t: Tables, h: History, id: nat, g: nat, gotos: set<Goto>, failed: bool) {
    Leaving(t, h, id, g) && Unique(Seen(h)) && (!failed ==> Accounted(t, h, gotos))
  }

  lemma LeavingAccountedStarts(t: Tables, h: History, gotos: set<Goto>, failed: bool)
    requires Valid(t, h) && |t.blocks| > 1 && Unique(Seen(h)) && (!failed ==> Accounted(t, h, gotos))
    ensures HasBlock(t) && LeavingAccounted(t, PoppedHistory(t, h), h.ids[|h.ids| - 1], Top(t).firstGoto, gotos, failed)
  {
    LeavingStarts(t, h);
    PoppedSeen(t, h);
    TracedKept(t, h, t, PoppedHistory(t, h), gotos);
  }

  lemma LeavingAccountedMoves(t: Tables, h: History, id: nat, g: nat, gotos: set<Goto>, failed: bool)
    requires LeavingAccounted(t, h, id, g, gotos, failed) && g < |t.pendings| && NotInParent(t, t.pendings[g].name)
    ensures StillInside(t, h, id, g) && LeavingAccounted(Moved(t, h, g), MovedHistory(t, h, g), id, g + 1, gotos, failed)
  {
    MovedValid(t, h, id, g);
    assert Seen(MovedHistory(t, h, g)) == Seen(h);
    TracedKept(t, h, Moved(t, h, g), MovedHistory(t, h, g), gotos);
  }

  lemma LeavingAccountedFound(t: Tables, h: History, id: nat, g: nat, l: nat, gotos: set<Goto>, failed: bool)
    requires LeavingAccounted(t, h, id, g, gotos, failed) && g < |t.pendings|
    requires t.blocks[|t.blocks| - 2].firstLabel <= l < Top(t).firstLabel && t.labels[l].name == t.pendings[g].name
    ensures Counted(t, h, g) && l < |h.targets| && t.labels[l].localCount <= t.pendings[g].localCount
    ensures LeavingAccounted(TakenOut(t, g, ClosePlace(h.origins[g].locals, t.labels[l].localCount), JumpTo(t.labels[l].pc)),
      Settled(h, g, t.pendings[g], |t.blocks| - 2, h.targets[l]), id, g, gotos, failed)
  {
    FoundValid(t, h, id, g, l);
    assert Seen(Settled(h, g, t.pendings[g], |t.blocks| - 2, h.targets[l])) == Seen(h);
    TracedSettled(t, h, gotos, g, ClosePlace(h.origins[g].locals, t.labels[l].localCount), JumpTo(t.labels[l].pc), |t.blocks| - 2, h.targets[l]);
  }

  lemma FoundFits(t: Tables, h: History, id: nat, g: nat, l: nat)
    requires Leaving(t, h, id, g) && g < |t.pendings| && l < Top(t).firstLabel
    ensures t.labels[l].localCount <= t.pendings[g].localCount
  {
    assert StillInside(t, h, id, g) && LabelValid(Popped(t), h, l);
  }

  lemma LeavingAccountedFails(t: Tables, h: History, id: nat, g: nat, close: Instr, jump: Instr, gotos: set<Goto>)
    requires Leaving(t, h, id, g) && Unique(Seen(h)) && g < |t.pendings|
    ensures Counted(t, h, g) && LeavingAccounted(TakenOut(t, g, close, jump), TakenHistory(h, g), id, g, gotos, true)
  {
    TakenValid(t, h, id, g, close, jump);
    assert Seen(TakenHistory(h, g)) == Seen(h);
  }

  lemma LeavingAccountedEnds(t: Tables, h: History, id: nat, gotos: set<Goto>, failed: bool)
    requires LeavingAccounted(t, h, id, |t.pendings|, gotos, failed)
    ensures Valid(Popped(t), h) && (!failed ==> Accounted(Popped(t), h, gotos))
  {
    LeavingEnds(t, h, id);
    TracedKept(t, h, Popped(t), h, gotos);
  }

  /** What the next goto's two instructions hold, and how far any label in the table can be. */
  lemma LeavingPlaceholder(t: Tables, h: History, id: nat, g: nat)
    requires Leaving(t, h, id, g) && g < |t.pendings|
    ensures StillInside(t, h, id, g) && PendingValid(t.code, t.locals, h.ids + [id], t.pendings[g], h.origins[g], |h.ids|)
    ensures forall l :: 0 <= l < Top(t).firstLabel ==>
      t.labels[l].localCount <= |t.locals| && (|t.code| <= MAX_JUMP ==> Near(t.pendings[g].jumpPC, t.labels[l].pc))
  {
    assert StillInside(t, h, id, g);
    forall l | 0 <= l < Top(t).firstLabel
      ensures t.labels[l].localCount <= |t.locals| && (|t.code| <= MAX_JUMP ==> Near(t.pendings[g].jumpPC, t.labels[l].pc))
    {
      assert LabelValid(Popped(t), h, l);
    }
  }

  // ----- the end of the function -----

  /** Every block has been left. What still waits has no label anywhere around it. */
  predicate Over(t: Tables, h: History) {
    t.blocks == [] && t.locals == [] && t.labels == [] && h.ids == [] && |h.origins| == |h.depths| == |t.pendings| &&
    ResolvedValid(t, h) && forall i :: 0 <= i < |t.pendings| ==> Unseen(Seen(h), h.origins[i], t.pendings[i].name, 0)
  }

  lemma OverAtEnd(t: Tables, h: History)
    requires Valid(t, h) && |t.blocks| == 1
    ensures HasBlock(t) && Over(Popped(t), PoppedHistory(t, h))
  {
    PoppedResolved(t, h);
    PoppedSeen(t, h);
    forall i | 0 <= i < |t.pendings| ensures Unseen(Seen(h), h.origins[i], t.pendings[i].name, 0) {
      assert Waiting(t, h, i) && WaitingUnseen(t, h, i);
    }
  }

  /** What a compiled goto does: it jumps to the only label of its name in the innermost block around it that has
      one, no local comes into scope on the way, and exactly the locals that go out of scope are closed. */
  ghost predicate Correct(code: seq<Instr>, seen: set<Target>, e: Goto, target: Target, depth: nat) {
    target in seen && target.name == e.name && depth < |e.origin.path| && target.block == e.origin.path[depth] &&
    Unseen(seen, e.origin, e.name, depth + 1) && MayJump(e.origin, target) &&
    e.closePC + 1 < |code| && code[e.closePC + 1] == JumpTo(target.pc) &&
    forall x :: x in e.origin.locals ==> (Closes(code[e.closePC], x.register) <==> x !in target.locals)
  }

  ghost predicate Compiled(code: seq<Instr>, seen: set<Target>, e: Goto) {
    exists target, depth: nat :: Correct(code, seen, e, target, depth)
  }

  lemma ResolvedCompiled(t: Tables, h: History, e: Goto, r: nat)
    requires ResolvedValid(t, h) && ResolvedAt(h, e, r)
    ensures Compiled(t.code, Seen(h), e)
  {
    var found := h.resolved[r];
    forall x | x in e.origin.locals ensures Closes(t.code[e.closePC], x.register) <==> x !in found.target.locals {
      var i :| 0 <= i < |e.origin.locals| && e.origin.locals[i] == x;
      ClosesExactlyLeft(t.code, h.ids, Seen(h), found, i);
    }
    assert Correct(t.code, Seen(h), e, found.target, found.depth);
  }

  class GotoState {
    var code: seq<Instr>
    var locals: seq<Local>
    var labels: seq<Label>
    var pendingGotos: seq<Pending>
    var blocks: seq<Block>
    var debugLocals: nat
    var gotoError: bool
    ghost var history: History
    ghost var gotos: set<Goto>

    ghost function T(): Tables
      reads this
    {
      Tables(code, locals, labels, pendingGotos, blocks)
    }

    ghost predicate Open()
      reads this
    {
      blocks != [] && debugLocals == history.nextLocal && GotoSpec.Valid(T(), history) && Unique(Seen(history)) && (!gotoError ==> Accounted(T(), history, gotos))
    }

    ghost predicate Finished()
      reads this
    {
      Over(T(), history) && Unique(Seen(history)) && (!gotoError ==> Accounted(T(), history, gotos))
    }

    /** A new function has its outermost block. */
    constructor ()
      ensures Open() && code == [] && gotos == {} && !gotoError
    {
      code, locals, labels, pendingGotos, blocks, debugLocals, gotoError := [], [], [], [], [Block(0, 0, 0)], 0, false;
      history := History([], [], [0], [], [], {}, [], 1, 0);
      gotos := {};
    }

    method Emit(more: seq<Instr>)
      requires Open()
      modifies this`code
      ensures Open() && code == old(code) + more
    {
      Emitted(T(), history, more);
      TracedKept(T(), history, T().(code := code + more), history, gotos);
      code := code + more;
    }

    method EnterBlock()
      requires Open()
      modifies this`blocks, this`history
      ensures Open() && blocks == old(blocks) + [Block(|locals|, |pendingGotos|, |labels|)]
    {
      EnteredValid(T(), history);
      TracedKept(T(), history, Entered(T()), EnteredHistory(history), gotos);
      assert Seen(EnteredHistory(history)) == Seen(history);
      blocks := blocks + [Block(|locals|, |pendingGotos|, |labels|)];
      history := EnteredHistory(history);
    }

    method ActivateLocals(base: nat, count: nat)
      requires Open() && RegistersFit(locals, base, count)
      modifies this`locals, this`debugLocals, this`history
      ensures Open() && locals == Activated(old(locals), base, count, old(debugLocals))
    {
      ActivatedValid(T(), history, base, count);
      var i := 0;
      while i < count
        invariant i <= count && locals == Activated(old(locals), base, i, history.nextLocal) && debugLocals == history.nextLocal + i && history == old(history)
      {
        locals := locals + [Local(base + i, debugLocals)];
        debugLocals := debugLocals + 1;
        i := i + 1;
      }
      ghost var h' := history.(nextLocal := history.nextLocal + count);
      TracedKept(old(T()), history, T(), h', gotos);
      assert Seen(h') == Seen(history);
      history := h';
    }

    /** Lowers the register that a goto closes from, so that it covers the first local left. */
    method PatchGotoClose(p: Pending, targetLocalCount: nat, ghost origin: Origin)
      requires targetLocalCount <= p.localCount <= |locals| && p.localCount <= |origin.locals| && p.closePC < |code|
      requires LocalsRise(origin.locals) && locals[..p.localCount] == origin.locals[..p.localCount]
      requires code[p.closePC] == ClosePlace(origin.locals, p.localCount)
      modifies this`code
      ensures code == old(code)[p.closePC := ClosePlace(origin.locals, targetLocalCount)]
    {
      CloseLower(origin, p.localCount, targetLocalCount, locals);
      var closeBase := NO_REGISTER;
      if code[p.closePC].Close? {
        closeBase := code[p.closePC].register;
      }
      if targetLocalCount < p.localCount {
        var firstExited := locals[targetLocalCount].register;
        if firstExited < closeBase {
          closeBase := firstExited;
        }
      }
      if closeBase != NO_REGISTER {
        code := code[p.closePC := Close(closeBase)];
      }
    }

    method ResolveGoto(p: Pending, found: Label, ghost origin: Origin) returns (r: Outcome)
      requires found.localCount <= |locals| && p.localCount <= |locals| && p.localCount <= |origin.locals| && p.jumpPC == p.closePC + 1 < |code|
      requires LocalsRise(origin.locals) && locals[..p.localCount] == origin.locals[..p.localCount]
      requires code[p.closePC] == ClosePlace(origin.locals, p.localCount) && code[p.jumpPC] == PendingJump
      modifies this`code
      ensures p.localCount < found.localCount <==> r == IntoScope(p.localCount)
      ensures r == Done <==> found.localCount <= p.localCount && Near(p.jumpPC, found.pc)
      ensures r == TooLong <==> found.localCount <= p.localCount && !Near(p.jumpPC, found.pc)
      ensures r.IntoScope? ==> code == old(code)
      ensures !r.IntoScope? ==> code == Patched(old(code), p.closePC, ClosePlace(origin.locals, found.localCount),
                                                if r.Done? then JumpTo(found.pc) else PendingJump)
    {
      if p.localCount < found.localCount {
        return IntoScope(p.localCount);
      }
      PatchGotoClose(p, found.localCount, origin);
      var offset := found.pc - (p.jumpPC + 1);
      if offset < -MAX_JUMP || offset > MAX_JUMP {
        return TooLong;
      }
      code := code[p.jumpPC := JumpTo(found.pc)];
      return Done;
    }

    /** The last label of the name in labels[low..high], or low - 1. */
    method FindLabelBackwards(name: Name, low: nat, high: nat) returns (index: int)
      requires low <= high <= |labels|
      ensures low - 1 <= index < high && (index >= low ==> labels[index].name == name)
      ensures forall l :: low <= l < high && index < l ==> labels[l].name != name
    {
      index := high - 1;
      while index >= low && labels[index].name != name
        invariant low - 1 <= index < high
        invariant forall l :: index < l < high ==> labels[l].name != name
      {
        index := index - 1;
      }
    }

    /** A goto to a label that its own block already has is resolved at once; any other waits. */
    method EmitGoto(name: Name) returns (r: Outcome)
      requires Open()
      modifies this`code, this`pendingGotos, this`history, this`gotos
      ensures r.Done? || r.TooLong?
      ensures r.Done? ==> Open() && gotos == old(gotos) + {Goto(Origin(locals, old(history.ids)), name, |old(code)|)}
      ensures NotInTop(old(T()), name) ==> r.Done? && pendingGotos == old(pendingGotos) + [Pending(name, |old(code)|, |old(code)| + 1, |locals|)]
      ensures forall l :: Top(old(T())).firstLabel <= l < |labels| && labels[l].name == name ==>
        (r.Done? <==> Near(|old(code)| + 1, labels[l].pc)) && pendingGotos == old(pendingGotos)
    {
      var p := Pending(name, |code|, |code| + 1, |locals|);
      var index := FindLabelBackwards(name, blocks[|blocks| - 1].firstLabel, |labels|);
      if index >= blocks[|blocks| - 1].firstLabel {
        r := ResolveDirect(p, index);
        return;
      }
      ghost var t, h := T(), history;
      DeferredValid(t, h, name);
      DeferredAccounted(t, h, name, gotos);
      assert Seen(DeferredHistory(t, h)) == Seen(h);
      code := code + [Nop, PendingJump];
      pendingGotos := pendingGotos + [p];
      history := DeferredHistory(t, h);
      gotos := gotos + {Goto(Origin(locals, h.ids), name, |t.code|)};
      return Done;
    }

    method ResolveDirect(p: Pending, index: nat) returns (r: Outcome)
      requires Open() && blocks[|blocks| - 1].firstLabel <= index < |labels|
      requires p == Pending(labels[index].name, |code|, |code| + 1, |locals|)
      modifies this`code, this`history, this`gotos
      ensures r.Done? || r.TooLong?
      ensures r.Done? ==> Open() && gotos == old(gotos) + {Goto(Origin(locals, old(history.ids)), p.name, |old(code)|)}
      ensures forall l :: Top(T()).firstLabel <= l < |labels| && labels[l].name == p.name ==> (r.Done? <==> Near(p.jumpPC, labels[l].pc))
    {
      ghost var t, h := T(), history;
      DirectValid(t, h, index);
      DirectAccounted(t, h, index, gotos);
      assert LabelValid(t, h, index);
      forall l | Top(t).firstLabel <= l < |labels| && labels[l].name == p.name ensures labels[l].pc == labels[index].pc {
        SameLabel(t, h, l, index);
      }
      code := code + [Nop, PendingJump];
      r := ResolveGoto(p, labels[index], Origin(locals, history.ids));
      if r.Done? {
        assert code == t.code + [ClosePlace(locals, labels[index].localCount), JumpTo(labels[index].pc)];
        assert Seen(DirectHistory(t, h, index)) == Seen(h);
        history := DirectHistory(t, h, index);
        gotos := gotos + {Goto(Origin(locals, h.ids), p.name, |t.code|)};
      }
    }

    /** Takes a goto that has been dealt with out of the table. */
    method RemovePending(index: nat)
      requires index < |pendingGotos|
      modifies this`pendingGotos
      ensures pendingGotos == Without(old(pendingGotos), index)
    {
      pendingGotos := pendingGotos[..index] + pendingGotos[index + 1..];
    }

    /** Whether labels[low..] has the name. */
    method FindLabel(name: Name, low: nat) returns (index: nat)
      requires low <= |labels|
      ensures low <= index <= |labels| && (index < |labels| ==> labels[index].name == name)
      ensures forall l :: low <= l < index ==> labels[l].name != name
    {
      index := low;
      while index < |labels| && labels[index].name != name
        invariant low <= index <= |labels|
        invariant forall l :: low <= l < index ==> labels[l].name != name
      {
        index := index + 1;
      }
    }

    /** While the gotos that wait for a new label, the last one, are resolved. */
    ghost predicate Defining(name: Name, index: nat)
      reads this
    {
      debugLocals == history.nextLocal && HalfAccounted(T(), history, name, index, gotos, gotoError)
    }

    /** Resolves one goto with the label just defined. */
    method ResolveWaiting(index: nat) returns (r: Outcome)
      requires labels != [] && index < |pendingGotos| && pendingGotos[index].name == labels[|labels| - 1].name
      requires Defining(pendingGotos[index].name, index)
      modifies this`code, this`pendingGotos, this`history
      ensures r.Done? <==> (labels[|labels| - 1].localCount <= old(pendingGotos)[index].localCount &&
                            Near(old(pendingGotos)[index].jumpPC, labels[|labels| - 1].pc))
      ensures !r.Duplicate? && |code| == |old(code)|
      ensures r.Done? ==> Defining(old(pendingGotos)[index].name, index) && history.ids == old(history.ids)
      ensures r.Done? ==> pendingGotos == Without(old(pendingGotos), index)
      ensures r.Done? ==> |old(history.origins)| == |old(pendingGotos)| && history.origins == Without(old(history.origins), index)
    {
      ghost var t, h := T(), history;
      var p, found := pendingGotos[index], labels[|labels| - 1];
      HalfWaits(t, h, index);
      r := ResolveGoto(p, found, history.origins[index]);
      if r.Done? {
        HalfAccountedSettled(t, h, index, gotos, gotoError);
        RemovePending(index);
        history := Settled(h, index, p, |blocks| - 1, h.targets[|labels| - 1]);
        assert T() == TakenOut(t, index, ClosePlace(h.origins[index].locals, found.localCount), JumpTo(found.pc));
      }
    }

    /** One step along the table: a goto of another name stays, one of the label's name is resolved if it can be. */
    method ResolveNext(index: nat, ghost t: Tables, ghost h: History, ghost done: nat) returns (r: Outcome, next: nat)
      requires labels != [] && index < |pendingGotos| && Defining(labels[|labels| - 1].name, index)
      requires Reached(T(), history, index, t, h, done, labels[|labels| - 1])
      modifies this`code, this`pendingGotos, this`history
      ensures !r.Duplicate?
      ensures r.Done? ==> Defining(labels[|labels| - 1].name, next) && Reached(T(), history, next, t, h, done + 1, labels[|labels| - 1])
      ensures r.Done? ==> next <= |pendingGotos| && |pendingGotos| - next < |old(pendingGotos)| - index
      ensures !r.Done? ==> !AllResolvable(t, h, labels[|labels| - 1].name, labels[|labels| - 1].localCount, |t.pendings|)
    {
      ghost var t', h' := T(), history;
      var found := labels[|labels| - 1];
      if pendingGotos[index].name != found.name {
        HalfAccountedSkips(t', h', found.name, index, gotos, gotoError);
        ReachedSkips(t', h', index, t, h, done, found);
        return Done, index + 1;
      }
      HalfMeets(t', h', t, h, found, index, done);
      next := index;
      r := ResolveWaiting(index);
      if r.Done? {
        ReachedResolves(t', h', T(), history, index, t, h, done, found);
      }
    }

    /** Every goto of the block that waits for the new label is resolved, unless one of them cannot be. */
    method ResolveAllWaiting(ghost t: Tables, ghost h: History) returns (r: Outcome)
      requires t.blocks == blocks != [] && labels != [] && Defining(labels[|labels| - 1].name, Top(t).firstGoto)
      requires Reached(T(), history, Top(t).firstGoto, t, h, Top(t).firstGoto, labels[|labels| - 1])
      modifies this`code, this`pendingGotos, this`history
      ensures r.Done? ==> Defining(labels[|labels| - 1].name, |pendingGotos|) && |code| == |old(code)|
      ensures !r.Duplicate?
      ensures r.Done? <==> AllResolvable(t, h, labels[|labels| - 1].name, labels[|labels| - 1].localCount, |t.pendings|)
    {
      var index: nat := blocks[|blocks| - 1].firstGoto;
      ghost var done: nat := index;
      while index < |pendingGotos|
        decreases |pendingGotos| - index
        invariant index <= |pendingGotos| && Defining(labels[|labels| - 1].name, index)
        invariant Reached(T(), history, index, t, h, done, labels[|labels| - 1])
      {
        r, index := ResolveNext(index, t, h, done);
        if !r.Done? {
          return;
        }
        done := done + 1;
      }
      return Done;
    }

    /** A label is refused when its block has one of that name, when a local would come into scope on the way from a
        goto that waits for it, or when such a goto is too far away; otherwise it resolves them all. */
    method DefineLabel(name: Name, localCount: nat) returns (r: Outcome)
      requires Open() && blocks[|blocks| - 1].localBase <= localCount <= |locals|
      modifies this`code, this`labels, this`pendingGotos, this`history
      ensures r.Done? ==> Open() && labels == old(labels) + [Label(name, |code|, localCount)] && |code| == |old(code)|
      ensures r.Duplicate? <==> !NotInTop(old(T()), name)
      ensures r.Done? <==> NotInTop(old(T()), name) && AllResolvable(old(T()), old(history), name, localCount, |old(pendingGotos)|)
    {
      ghost var t, h := T(), history;
      var index := FindLabel(name, blocks[|blocks| - 1].firstLabel);
      if index < |labels| {
        return Duplicate(index);
      }
      HalfAccountedStarts(t, h, name, localCount, gotos, gotoError);
      labels := labels + [Label(name, |code|, localCount)];
      history := LabelledHistory(t, h, name, localCount);
      r := ResolveAllWaiting(t, h);
      if r.Done? {
        HalfAccountedEnds(T(), history, name, gotos, gotoError);
      }
    }

    ghost predicate Moving(id: nat, g: nat)
      reads this
    {
      debugLocals == history.nextLocal && LeavingAccounted(T(), history, id, g, gotos, gotoError)
    }

    /** The goto waits in the block around, where its jump will leave one block more. */
    method MoveGotoOut(g: nat, ghost id: nat)
      requires g < |pendingGotos| && Moving(id, g) && NotInParent(T(), pendingGotos[g].name)
      modifies this`code, this`pendingGotos, this`history
      ensures Moving(id, g + 1) && |pendingGotos| == |old(pendingGotos)| && |code| == |old(code)|
    {
      ghost var t, h := T(), history;
      LeavingPlaceholder(t, h, id, g);
      LeavingAccountedMoves(t, h, id, g, gotos, gotoError);
      PatchGotoClose(pendingGotos[g], blocks[|blocks| - 1].localBase, history.origins[g]);
      pendingGotos := pendingGotos[g := pendingGotos[g].(localCount := blocks[|blocks| - 1].localBase)];
      history := MovedHistory(t, h, g);
      assert T() == Moved(t, h, g);
    }

    /** The block around has the goto's label. */
    method ResolveInParent(g: nat, l: nat, ghost id: nat)
      requires g < |pendingGotos| && Moving(id, g)
      requires blocks[|blocks| - 2].firstLabel <= l < blocks[|blocks| - 1].firstLabel && labels[l].name == pendingGotos[g].name
      modifies this`code, this`pendingGotos, this`history, this`gotoError
      ensures Moving(id, g) && |pendingGotos| == |old(pendingGotos)| - 1 && |code| == |old(code)|
      ensures old(gotoError) ==> gotoError
      ensures |code| <= MAX_JUMP ==> gotoError == old(gotoError)
    {
      ghost var t, h := T(), history;
      var p, found := pendingGotos[g], labels[l];
      LeavingPlaceholder(t, h, id, g);
      FoundFits(t, h, id, g, l);
      ghost var close := ClosePlace(h.origins[g].locals, found.localCount);
      var r := ResolveGoto(p, found, history.origins[g]);
      if !r.Done? && !gotoError {
        gotoError := true;
      }
      RemovePending(g);
      assert T() == TakenOut(t, g, close, if r.Done? then JumpTo(found.pc) else PendingJump);
      if r.Done? {
        LeavingAccountedFound(t, h, id, g, l, gotos, gotoError);
        history := Settled(h, g, p, |blocks| - 2, h.targets[l]);
      } else {
        LeavingAccountedFails(t, h, id, g, close, PendingJump, gotos);
        history := TakenHistory(h, g);
      }
    }

    method MoveNext(g: nat, ghost id: nat) returns (next: nat)
      requires g < |pendingGotos| && Moving(id, g)
      modifies this`code, this`pendingGotos, this`history, this`gotoError
      ensures Moving(id, next) && |code| == |old(code)| && next <= |pendingGotos| && |pendingGotos| - next < |old(pendingGotos)| - g
      ensures old(gotoError) ==> gotoError
      ensures |code| <= MAX_JUMP ==> gotoError == old(gotoError)
    {
      var l := FindLabelBackwards(pendingGotos[g].name, blocks[|blocks| - 2].firstLabel, blocks[|blocks| - 1].firstLabel);
      if l < blocks[|blocks| - 2].firstLabel {
        MoveGotoOut(g, id);
        next := g + 1;
      } else {
        ResolveInParent(g, l, id);
        next := g;
      }
    }

    /** Each goto that still waits in the innermost block is resolved in the block around it or waits there. No local
        comes into scope that way, so only a distance can go wrong. */
    method MoveGotosOut(ghost id: nat)
      requires |blocks| > 1 && Moving(id, blocks[|blocks| - 1].firstGoto)
      modifies this`code, this`pendingGotos, this`history, this`gotoError
      ensures Moving(id, |pendingGotos|) && |code| == |old(code)|
      ensures old(gotoError) ==> gotoError
      ensures |code| <= MAX_JUMP ==> gotoError == old(gotoError)
    {
      var g: nat := blocks[|blocks| - 1].firstGoto;
      while g < |pendingGotos|
        decreases |pendingGotos| - g
        invariant g <= |pendingGotos| && Moving(id, g) && |code| == |old(code)|
        invariant old(gotoError) ==> gotoError
        invariant |code| <= MAX_JUMP ==> gotoError == old(gotoError)
      {
        g := MoveNext(g, id);
      }
    }

    /** Leaves a block; `exitCode` closes the captured locals on the ordinary way out. */
    method LeaveBlock(exitCode: seq<Instr>)
      requires Open() && |blocks| > 1
      modifies this`code, this`locals, this`labels, this`pendingGotos, this`blocks, this`history, this`gotoError
      ensures Open() && blocks == old(blocks)[..|old(blocks)| - 1] && gotos == old(gotos)
      ensures Top(old(T())).localBase <= |old(locals)| && locals == old(locals)[..Top(old(T())).localBase]
      ensures |code| == |old(code)| + |exitCode| && (old(gotoError) ==> gotoError)
      ensures |code| <= MAX_JUMP ==> gotoError == old(gotoError)
    {
      Emit(exitCode);
      PopBlock();
    }

    method PopBlock()
      requires Open() && |blocks| > 1
      modifies this`code, this`locals, this`labels, this`pendingGotos, this`blocks, this`history, this`gotoError
      ensures Open() && blocks == old(blocks)[..|old(blocks)| - 1]
      ensures Top(old(T())).localBase <= |old(locals)| && locals == old(locals)[..Top(old(T())).localBase]
      ensures |code| == |old(code)| && (old(gotoError) ==> gotoError)
      ensures |code| <= MAX_JUMP ==> gotoError == old(gotoError)
    {
      ghost var id := history.ids[|history.ids| - 1];
      LeavingAccountedStarts(T(), history, gotos, gotoError);
      history := PoppedHistory(T(), history);
      MoveGotosOut(id);
      LeavingAccountedEnds(T(), history, id, gotos, gotoError);
      Truncate();
    }

    /** Forgets the innermost block with its labels and locals. */
    method Truncate()
      requires HasBlock(T())
      modifies this`locals, this`labels, this`blocks
      ensures T() == Popped(old(T()))
    {
      var block := blocks[|blocks| - 1];
      labels := labels[..block.firstLabel];
      blocks := blocks[..|blocks| - 1];
      locals := locals[..block.localBase];
    }

    /** Leaves the outermost block: there is nowhere to move to. */
    method LeaveFunctionBlock()
      requires Open() && |blocks| == 1
      modifies this`locals, this`labels, this`blocks, this`history
      ensures Finished()
    {
      ghost var t, h := T(), history;
      OverAtEnd(t, h);
      PoppedSeen(t, h);
      TracedKept(t, h, Popped(t), PoppedHistory(t, h), gotos);
      history := PoppedHistory(t, h);
      Truncate();
    }

    /** The function is accepted when no goto failed and none still waits. Then every goto in it does what it should;
        a goto that still waits has no label of its name in any block around it. */
    method Finish() returns (ok: bool)
      requires Finished()
      ensures ok <==> !gotoError && pendingGotos == []
      ensures ok ==> forall e :: e in gotos ==> Compiled(code, Seen(history), e)
      ensures !gotoError && !ok ==> |history.origins| == |pendingGotos| > 0
      ensures !gotoError && !ok ==> forall x :: x in Seen(history) && x.block in history.origins[0].path ==> x.name != pendingGotos[0].name
    {
      if gotoError {
        return false;
      }
      if |pendingGotos| != 0 {
        return false;
      }
      forall e | e in gotos ensures Compiled(code, Seen(history), e) {
        assert Traced(T(), history, e);
        var r: nat :| ResolvedAt(history, e, r);
        ResolvedCompiled(T(), history, e, r);
      }
      return true;
    }
  }
}
