/** Leaving a block: each goto still waiting in it finds a label in the block around it or waits there. */
module GotoLeaving {
  import opened GotoSpec
  import opened GotoSteps

  function Top(t: Tables): Block
    requires t.blocks != []
  {
    t.blocks[|t.blocks| - 1]
  }

  predicate HasBlock(t: Tables) {
    t.blocks != [] && Top(t).localBase <= |t.locals| && Top(t).firstLabel <= |t.labels| && Top(t).firstGoto <= |t.pendings|
  }

  /** The tables without the innermost block, its labels and its locals. */
  function Popped(t: Tables): Tables
    requires HasBlock(t)
  {
    t.(blocks := t.blocks[..|t.blocks| - 1], labels := t.labels[..Top(t).firstLabel], locals := t.locals[..Top(t).localBase])
  }

  function PoppedHistory(t: Tables, h: History): History
    requires HasBlock(t) && |h.ids| == |t.blocks| && |h.targets| == |h.labelDepths| == |t.labels|
  {
    var n := Top(t).firstLabel;
    h.(ids := h.ids[..|h.ids| - 1], targets := h.targets[..n], labelDepths := h.labelDepths[..n],
       closed := h.closed + set x | x in h.targets[n..])
  }

  lemma PoppedSeen(t: Tables, h: History)
    requires HasBlock(t) && |h.ids| == |t.blocks| && |h.targets| == |h.labelDepths| == |t.labels|
    ensures Seen(PoppedHistory(t, h)) == Seen(h)
  {
    assert h.targets == h.targets[..Top(t).firstLabel] + h.targets[Top(t).firstLabel..];
  }

  /** A goto that still waits in the block being left, whose number is id. */
  predicate StillInside(t: Tables, h: History, id: nat, i: nat)
    requires HasBlock(t) && i < |t.pendings| && |h.origins| == |h.depths| == |t.pendings|
  {
    PendingValid(t.code, t.locals, h.ids + [id], t.pendings[i], h.origins[i], |h.ids|) && Known(h.origins[i], h.nextBlock, h.nextLocal) &&
    Unseen(Seen(h), h.origins[i], t.pendings[i].name, |h.ids|) && Top(t).localBase <= t.pendings[i].localCount
  }

  predicate MovedOut(t: Tables, h: History, i: nat)
    requires HasBlock(t) && i < |t.pendings| && |h.origins| == |h.depths| == |t.pendings|
  {
    Waiting(Popped(t), h, i) && WaitingUnseen(Popped(t), h, i)
  }

  /** Half way through leaving the innermost block of t: the gotos below g have been dealt with. */
  predicate Leaving(t: Tables, h: History, id: nat, g: nat) {
    HasBlock(t) && |t.blocks| > 1 && Top(t).firstGoto <= g <= |t.pendings| && LocalsRise(t.locals) && id !in h.ids &&
    |h.origins| == |h.depths| == |t.pendings| && t.blocks[|t.blocks| - 2].localBase <= Top(t).localBase &&
    BlocksValid(Popped(t), h) && LabelsValid(Popped(t), h) && Separate(Popped(t), h) && ResolvedValid(Popped(t), h) &&
    (forall b :: 0 <= b < |t.blocks| ==> t.blocks[b].firstGoto <= Top(t).firstGoto) &&
    (forall i {:trigger MovedOut(t, h, i)} :: 0 <= i < g ==> MovedOut(t, h, i)) &&
    forall i {:trigger StillInside(t, h, id, i)} :: g <= i < |t.pendings| ==> StillInside(t, h, id, i)
  }

  // ----- the block is left -----

  lemma PoppedTables(t: Tables, h: History)
    requires Valid(t, h) && t.blocks != []
    ensures HasBlock(t) && BlocksValid(Popped(t), PoppedHistory(t, h)) && LabelsValid(Popped(t), PoppedHistory(t, h))
  {
    var t', h' := Popped(t), PoppedHistory(t, h);
    forall l | 0 <= l < |t'.labels| ensures LabelValid(t', h', l) {
      assert LabelValid(t, h, l);
      assert t'.locals[..t.labels[l].localCount] == t.locals[..t.labels[l].localCount];
    }
    forall x | x in h'.closed && x !in h.closed ensures x.block == h.ids[|h.ids| - 1] {
      var l :| Top(t).firstLabel <= l < |h.targets| && h.targets[l] == x;
      assert LabelValid(t, h, l);
    }
  }

  lemma PoppedResolved(t: Tables, h: History)
    requires Valid(t, h) && t.blocks != []
    ensures HasBlock(t) && ResolvedValid(Popped(t), PoppedHistory(t, h))
  {
    PoppedSeen(t, h);
    var h' := PoppedHistory(t, h);
    forall r | 0 <= r < |h.resolved| ensures ResolutionValid(t.code, h'.ids, Seen(h'), h'.resolved[r]) {
      ResolutionKept(t.code, t.code, h.ids, h'.ids, Seen(h), Seen(h), h.resolved[r]);
    }
  }

  lemma OuterMovedOut(t: Tables, h: History, i: nat)
    requires Valid(t, h) && t.blocks != [] && i < Top(t).firstGoto
    ensures HasBlock(t) && MovedOut(t, PoppedHistory(t, h), i)
  {
    PoppedSeen(t, h);
    var t', h', d := Popped(t), PoppedHistory(t, h), h.depths[i];
    assert Waiting(t, h, i) && WaitingUnseen(t, h, i);
    assert h'.ids[..d + 1] == h.ids[..d + 1];
    assert t'.locals[..t.pendings[i].localCount] == t.locals[..t.pendings[i].localCount];
  }

  lemma InnerStillInside(t: Tables, h: History, i: nat)
    requires Valid(t, h) && t.blocks != [] && Top(t).firstGoto <= i < |t.pendings|
    ensures HasBlock(t) && StillInside(t, PoppedHistory(t, h), h.ids[|h.ids| - 1], i)
  {
    PoppedSeen(t, h);
    assert Waiting(t, h, i) && WaitingUnseen(t, h, i);
    assert h.ids[..|h.ids| - 1] + [h.ids[|h.ids| - 1]] == h.ids;
  }

  lemma LeavingStarts(t: Tables, h: History)
    requires Valid(t, h) && |t.blocks| > 1
    ensures HasBlock(t) && Leaving(t, PoppedHistory(t, h), h.ids[|h.ids| - 1], Top(t).firstGoto)
  {
    PoppedTables(t, h);
    PoppedResolved(t, h);
    var h', id := PoppedHistory(t, h), h.ids[|h.ids| - 1];
    forall i | 0 <= i < Top(t).firstGoto ensures MovedOut(t, h', i) { OuterMovedOut(t, h, i); }
    forall i | Top(t).firstGoto <= i < |t.pendings| ensures StillInside(t, h', id, i) { InnerStillInside(t, h, i); }
  }

  /** When all gotos have been dealt with the tables without the block are valid. */
  lemma LeavingEnds(t: Tables, h: History, id: nat)
    requires Leaving(t, h, id, |t.pendings|)
    ensures Valid(Popped(t), h)
  {
    forall i | 0 <= i < |t.pendings| ensures Waiting(Popped(t), h, i) && WaitingUnseen(Popped(t), h, i) { assert MovedOut(t, h, i); }
  }

  // ----- one goto moves out -----

  /** The labels of the block around the one being left have other names. */
  predicate NotInParent(t: Tables, name: Name)
    requires HasBlock(t) && |t.blocks| > 1
  {
    forall l :: t.blocks[|t.blocks| - 2].firstLabel <= l < Top(t).firstLabel ==> t.labels[l].name != name
  }

  function Moved(t: Tables, h: History, g: nat): Tables
    requires HasBlock(t) && g < |t.pendings| == |h.origins| && t.pendings[g].closePC < |t.code|
  {
    t.(code := t.code[t.pendings[g].closePC := ClosePlace(h.origins[g].locals, Top(t).localBase)],
       pendings := t.pendings[g := t.pendings[g].(localCount := Top(t).localBase)])
  }

  function MovedHistory(t: Tables, h: History, g: nat): History
    requires |t.blocks| > 1 && g < |h.depths|
  {
    h.(depths := h.depths[g := |t.blocks| - 2])
  }

  lemma MovedUnseen(t: Tables, h: History, id: nat, g: nat)
    requires Leaving(t, h, id, g) && g < |t.pendings| && NotInParent(t, t.pendings[g].name)
    ensures Unseen(Seen(h), h.origins[g], t.pendings[g].name, |t.blocks| - 2)
  {
    assert StillInside(t, h, id, g);
    var d := |t.blocks| - 2;
    assert h.origins[g].path[d] == h.origins[g].path[..d + 2][d] == (h.ids + [id])[..d + 2][d] == h.ids[d];
    forall x | x in Seen(h) && x.block == h.ids[d] ensures x.name != t.pendings[g].name {
      var l :| 0 <= l < |h.targets| && h.targets[l] == x;
      assert LabelValid(Popped(t), h, l);
    }
  }

  lemma MovedPending(t: Tables, h: History, id: nat, g: nat)
    requires Leaving(t, h, id, g) && g < |t.pendings| && NotInParent(t, t.pendings[g].name)
    ensures StillInside(t, h, id, g) && MovedOut(Moved(t, h, g), MovedHistory(t, h, g), g)
  {
    assert StillInside(t, h, id, g);
    MovedUnseen(t, h, id, g);
    var t', h', d, o := Moved(t, h, g), MovedHistory(t, h, g), |t.blocks| - 2, h.origins[g];
    assert o.path[..d + 1] == o.path[..d + 2][..d + 1] == (h.ids + [id])[..d + 2][..d + 1] == h.ids[..d + 1];
    assert o.path[d + 1] == o.path[..d + 2][d + 1] == id;
    var n, base := t.pendings[g].localCount, Top(t).localBase;
    assert o.locals[..base] == o.locals[..n][..base] == t.locals[..n][..base] == t.locals[..base];
    assert Popped(t').locals[..base] == t.locals[..base];
    assert Seen(h') == Seen(h);
  }

  lemma OthersMoved(t: Tables, h: History, id: nat, g: nat, i: nat)
    requires Leaving(t, h, id, g) && g < |t.pendings| && i < |t.pendings| && i != g
    ensures StillInside(t, h, id, g)
    ensures i < g ==> MovedOut(Moved(t, h, g), MovedHistory(t, h, g), i)
    ensures i > g ==> StillInside(Moved(t, h, g), MovedHistory(t, h, g), id, i)
  {
    assert StillInside(t, h, id, g);
    var t', h' := Moved(t, h, g), MovedHistory(t, h, g);
    assert Seen(h') == Seen(h);
    if i < g {
      assert MovedOut(t, h, i);
      PendingKept(t.code, t'.code, Popped(t).locals, h.ids, t.pendings[i], h.origins[i], h.depths[i]);
    } else {
      assert StillInside(t, h, id, i);
      PendingKept(t.code, t'.code, t.locals, h.ids + [id], t.pendings[i], h.origins[i], |h.ids|);
    }
  }

  lemma MovedTables(t: Tables, h: History, id: nat, g: nat)
    requires Leaving(t, h, id, g) && g < |t.pendings|
    ensures StillInside(t, h, id, g)
    ensures var t', h' := Popped(Moved(t, h, g)), MovedHistory(t, h, g); BlocksValid(t', h') && LabelsValid(t', h') && Separate(t', h')
  {
    assert StillInside(t, h, id, g);
    var t', h' := Popped(Moved(t, h, g)), MovedHistory(t, h, g);
    forall l | 0 <= l < |t'.labels| ensures LabelValid(t', h', l) { assert LabelValid(Popped(t), h, l); }
  }

  lemma MovedResolved(t: Tables, h: History, id: nat, g: nat)
    requires Leaving(t, h, id, g) && g < |t.pendings|
    ensures StillInside(t, h, id, g) && ResolvedValid(Popped(Moved(t, h, g)), MovedHistory(t, h, g))
  {
    assert StillInside(t, h, id, g);
    var t', h' := Moved(t, h, g), MovedHistory(t, h, g);
    assert Seen(h') == Seen(h);
    forall r | 0 <= r < |h.resolved| ensures ResolutionValid(t'.code, h'.ids, Seen(h'), h'.resolved[r]) {
      assert Apart(h.resolved[r].closePC, Popped(t).pendings[g].closePC);
      ResolutionKept(t.code, t'.code, h.ids, h.ids, Seen(h), Seen(h), h.resolved[r]);
    }
  }

  /** A goto without a label in the block around waits there, closing from the first local of the block left. */
  lemma MovedValid(t: Tables, h: History, id: nat, g: nat)
    requires Leaving(t, h, id, g) && g < |t.pendings| && NotInParent(t, t.pendings[g].name)
    ensures StillInside(t, h, id, g) && Leaving(Moved(t, h, g), MovedHistory(t, h, g), id, g + 1)
  {
    MovedPending(t, h, id, g);
    MovedTables(t, h, id, g);
    MovedResolved(t, h, id, g);
    var t', h' := Moved(t, h, g), MovedHistory(t, h, g);
    forall i | 0 <= i < g ensures MovedOut(t', h', i) { OthersMoved(t, h, id, g, i); }
    forall i | g < i < |t.pendings| ensures StillInside(t', h', id, i) { OthersMoved(t, h, id, g, i); }
  }

  // ----- one goto finds its label in the block around -----

  lemma FoundResolution(t: Tables, h: History, id: nat, g: nat, l: nat)
    requires Leaving(t, h, id, g) && g < |t.pendings| && t.blocks[|t.blocks| - 2].firstLabel <= l < Top(t).firstLabel
    requires t.labels[l].name == t.pendings[g].name
    ensures StillInside(t, h, id, g) && l < |h.targets|
    ensures t.labels[l].localCount <= t.pendings[g].localCount && h.targets[l].locals == t.locals[..t.labels[l].localCount]
    ensures ResolutionValid(TakenOut(t, g, ClosePlace(h.origins[g].locals, t.labels[l].localCount), JumpTo(t.labels[l].pc)).code,
      h.ids, Seen(h), Resolved(h, g, t.pendings[g], |t.blocks| - 2, h.targets[l]))
  {
    assert StillInside(t, h, id, g) && LabelValid(Popped(t), h, l);
    var d, o := |t.blocks| - 2, h.origins[g];
    assert h.labelDepths[l] == d;
    assert o.path[d] == o.path[..d + 2][d] == (h.ids + [id])[..d + 2][d] == h.ids[d];
    assert o.path[d + 1] == o.path[..d + 2][d + 1] == id;
    assert Popped(t).locals[..t.labels[l].localCount] == t.locals[..t.labels[l].localCount];
    assert h.targets[l] in Seen(h);
    ResolveOne(t.code, t.locals, h.ids + [id], t.pendings[g], o, d + 1, h.ids, Seen(h), d, h.targets[l]);
  }

  lemma OthersTaken(t: Tables, h: History, id: nat, g: nat, close: Instr, jump: Instr, i: nat)
    requires Leaving(t, h, id, g) && g < |t.pendings| && i < |t.pendings| && i != g && Counted(t, h, g)
    ensures i < g ==> MovedOut(TakenOut(t, g, close, jump), TakenHistory(h, g), i)
    ensures i > g ==> StillInside(TakenOut(t, g, close, jump), TakenHistory(h, g), id, i - 1)
  {
    var t', h' := TakenOut(t, g, close, jump), TakenHistory(h, g);
    assert Seen(h') == Seen(h) && Separate(Popped(t), h);
    if i < g {
      assert MovedOut(t, h, i) && Popped(t).pendings[i].closePC + 1 < Popped(t).pendings[g].closePC;
      PendingKept(t.code, t'.code, Popped(t).locals, h.ids, t.pendings[i], h.origins[i], h.depths[i]);
    } else {
      assert StillInside(t, h, id, i) && Popped(t).pendings[g].closePC + 1 < Popped(t).pendings[i].closePC;
      PendingKept(t.code, t'.code, t.locals, h.ids + [id], t.pendings[i], h.origins[i], |h.ids|);
    }
  }

  /** Whether or not the jump can be encoded, the goto is no longer pending. */
  lemma TakenValid(t: Tables, h: History, id: nat, g: nat, close: Instr, jump: Instr)
    requires Leaving(t, h, id, g) && g < |t.pendings|
    ensures Counted(t, h, g) && Leaving(TakenOut(t, g, close, jump), TakenHistory(h, g), id, g)
  {
    assert StillInside(t, h, id, g);
    var t', h' := TakenOut(t, g, close, jump), TakenHistory(h, g);
    assert Popped(t') == TakenOut(Popped(t), g, close, jump);
    assert StartsBelow(Popped(t), g);
    SeparateTaken(Popped(t), h, g, close, jump);
    ResolvedTaken(Popped(t), h, g, close, jump);
    TablesTaken(Popped(t), h, g, close, jump);
    forall i | 0 <= i < g ensures MovedOut(t', h', i) { OthersTaken(t, h, id, g, close, jump, i); }
    forall i | g <= i < |t'.pendings| ensures StillInside(t', h', id, i) { OthersTaken(t, h, id, g, close, jump, i + 1); }
  }

  /** One more resolution does not disturb the rest. */
  lemma ResolutionAdded(t: Tables, h: History, id: nat, g: nat, r: Resolution)
    requires Leaving(t, h, id, g) && ResolutionValid(t.code, h.ids, Seen(h), r) && Known(r.origin, h.nextBlock, h.nextLocal)
    requires forall i :: 0 <= i < |t.pendings| ==> Apart(r.closePC, t.pendings[i].closePC)
    ensures Leaving(t, h.(resolved := h.resolved + [r]), id, g)
  {
    var h' := h.(resolved := h.resolved + [r]);
    assert Seen(h') == Seen(h);
    forall l | 0 <= l < |Popped(t).labels| ensures LabelValid(Popped(t), h', l) { assert LabelValid(Popped(t), h, l); }
    forall i | 0 <= i < g ensures MovedOut(t, h', i) { assert MovedOut(t, h, i); }
    forall i | g <= i < |t.pendings| ensures StillInside(t, h', id, i) { assert StillInside(t, h, id, i); }
  }

  /** A goto with a label in the block around is resolved; it never enters the scope of a local. */
  lemma FoundValid(t: Tables, h: History, id: nat, g: nat, l: nat)
    requires Leaving(t, h, id, g) && g < |t.pendings| && t.blocks[|t.blocks| - 2].firstLabel <= l < Top(t).firstLabel
    requires t.labels[l].name == t.pendings[g].name
    ensures Counted(t, h, g) && l < |h.targets| && t.labels[l].localCount <= t.pendings[g].localCount
    ensures Leaving(TakenOut(t, g, ClosePlace(h.origins[g].locals, t.labels[l].localCount), JumpTo(t.labels[l].pc)),
      Settled(h, g, t.pendings[g], |t.blocks| - 2, h.targets[l]), id, g)
  {
    FoundResolution(t, h, id, g, l);
    var close, jump := ClosePlace(h.origins[g].locals, t.labels[l].localCount), JumpTo(t.labels[l].pc);
    TakenValid(t, h, id, g, close, jump);
    assert Separate(Popped(t), h);
    var t' := TakenOut(t, g, close, jump);
    assert Seen(TakenHistory(h, g)) == Seen(h);
    forall i | 0 <= i < |t'.pendings| ensures Apart(t.pendings[g].closePC, t'.pendings[i].closePC) {
      assert t'.pendings[i] == Popped(t).pendings[if i < g then i else i + 1];
    }
    ResolutionAdded(t', TakenHistory(h, g), id, g, Resolved(h, g, t.pendings[g], |t.blocks| - 2, h.targets[l]));
  }
}
