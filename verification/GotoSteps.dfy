/** What resolving a goto and leaving a block do to the tables, one goto at a time. */
module GotoSteps {
  import opened GotoSpec

  function Without<T>(s: seq<T>, g: nat): (r: seq<T>)
    requires g < |s|
    ensures |r| == |s| - 1
    ensures forall i :: 0 <= i < |r| ==> r[i] == s[if i < g then i else i + 1]
  {
    s[..g] + s[g + 1..]
  }

  /** Both instructions of a goto, rewritten. */
  function Patched(code: seq<Instr>, at: nat, close: Instr, jump: Instr): (r: seq<Instr>)
    requires at + 1 < |code|
    ensures |r| == |code|
    ensures forall i :: 0 <= i < |r| ==> r[i] == if i == at then close else if i == at + 1 then jump else code[i]
  {
    code[at := close][at + 1 := jump]
  }

  /** The jump reaches a target this far away. */
  predicate Near(jumpPC: nat, target: nat) {
    -MAX_JUMP <= target - (jumpPC + 1) <= MAX_JUMP
  }

  /** The tables once goto g is no longer pending. */
  function TakenOut(t: Tables, g: nat, close: Instr, jump: Instr): Tables
    requires g < |t.pendings| && t.pendings[g].closePC + 1 < |t.code|
  {
    t.(code := Patched(t.code, t.pendings[g].closePC, close, jump), pendings := Without(t.pendings, g))
  }

  function TakenHistory(h: History, g: nat): History
    requires g < |h.origins| == |h.depths|
  {
    h.(origins := Without(h.origins, g), depths := Without(h.depths, g))
  }

  function Resolved(h: History, g: nat, p: Pending, depth: nat, target: Target): Resolution
    requires g < |h.origins|
  {
    Resolution(h.origins[g], p.name, p.closePC, p.jumpPC, depth, target)
  }

  function Settled(h: History, g: nat, p: Pending, depth: nat, target: Target): History
    requires g < |h.origins| == |h.depths|
  {
    TakenHistory(h, g).(resolved := h.resolved + [Resolved(h, g, p, depth, target)])
  }

  /** The goto's instructions after its resolution. */
  lemma ResolveOne(code: seq<Instr>, locals: seq<Local>, ids: seq<nat>, p: Pending, origin: Origin, depth: nat,
                   ids': seq<nat>, seen: set<Target>, depth': nat, target: Target)
    requires PendingValid(code, locals, ids, p, origin, depth)
    requires target.locals <= locals && |target.locals| <= p.localCount
    requires target in seen && target.name == p.name && depth' < |origin.path| && origin.path[depth'] == target.block
    requires Unseen(seen, origin, p.name, depth' + 1) && Left(ids', origin, depth')
    ensures ResolutionValid(Patched(code, p.closePC, ClosePlace(origin.locals, |target.locals|), JumpTo(target.pc)), ids', seen,
      Resolution(origin, p.name, p.closePC, p.jumpPC, depth', target))
  {
    WatermarkDecides(code, locals, ids, p, origin, depth, target);
  }

  // ----- one goto is taken out; the others are as before -----

  predicate Counted(t: Tables, h: History, g: nat) {
    |h.origins| == |h.depths| == |t.pendings| && g < |t.pendings| && t.pendings[g].closePC + 1 < |t.code|
  }

  predicate StartsBelow(t: Tables, g: nat) {
    forall b :: 0 <= b < |t.blocks| ==> t.blocks[b].firstGoto <= g
  }

  lemma SeparateTaken(t: Tables, h: History, g: nat, close: Instr, jump: Instr)
    requires Counted(t, h, g) && Separate(t, h)
    ensures Separate(TakenOut(t, g, close, jump), TakenHistory(h, g))
  {
  }

  lemma SeparateSettled(t: Tables, h: History, g: nat, close: Instr, jump: Instr, depth: nat, target: Target)
    requires Counted(t, h, g) && Separate(t, h)
    ensures Separate(TakenOut(t, g, close, jump), Settled(h, g, t.pendings[g], depth, target))
  {
    var t', h' := TakenOut(t, g, close, jump), Settled(h, g, t.pendings[g], depth, target);
    forall r, i | 0 <= r < |h'.resolved| && 0 <= i < |t'.pendings| ensures Apart(h'.resolved[r].closePC, t'.pendings[i].closePC) {
      if r < |h.resolved| { assert Apart(h.resolved[r].closePC, t.pendings[if i < g then i else i + 1].closePC); }
    }
  }

  lemma WaitTaken(t: Tables, h: History, g: nat, close: Instr, jump: Instr, i: nat)
    requires Counted(t, h, g) && Separate(t, h) && StartsBelow(t, g) && i < |t.pendings| && i != g && Waiting(t, h, i)
    ensures Waiting(TakenOut(t, g, close, jump), TakenHistory(h, g), if i < g then i else i - 1)
  {
    PendingKept(t.code, TakenOut(t, g, close, jump).code, t.locals, h.ids, t.pendings[i], h.origins[i], h.depths[i]);
  }

  lemma ResolvedTaken(t: Tables, h: History, g: nat, close: Instr, jump: Instr)
    requires Counted(t, h, g) && Separate(t, h) && ResolvedValid(t, h)
    ensures ResolvedValid(TakenOut(t, g, close, jump), TakenHistory(h, g))
  {
    var t', h' := TakenOut(t, g, close, jump), TakenHistory(h, g);
    assert Seen(h') == Seen(h);
    forall r | 0 <= r < |h.resolved| ensures ResolutionValid(t'.code, h'.ids, Seen(h'), h'.resolved[r]) {
      assert Apart(h.resolved[r].closePC, t.pendings[g].closePC);
      ResolutionKept(t.code, t'.code, h.ids, h.ids, Seen(h), Seen(h), h.resolved[r]);
    }
  }

  lemma ResolvedSettled(t: Tables, h: History, g: nat, close: Instr, jump: Instr, depth: nat, target: Target)
    requires Counted(t, h, g) && Separate(t, h) && ResolvedValid(t, h) && Known(h.origins[g], h.nextBlock, h.nextLocal)
    requires ResolutionValid(TakenOut(t, g, close, jump).code, h.ids, Seen(h), Resolved(h, g, t.pendings[g], depth, target))
    ensures ResolvedValid(TakenOut(t, g, close, jump), Settled(h, g, t.pendings[g], depth, target))
  {
    ResolvedTaken(t, h, g, close, jump);
    assert Seen(Settled(h, g, t.pendings[g], depth, target)) == Seen(h) == Seen(TakenHistory(h, g));
  }

  lemma TablesTaken(t: Tables, h: History, g: nat, close: Instr, jump: Instr)
    requires Counted(t, h, g) && StartsBelow(t, g) && BlocksValid(t, h) && LabelsValid(t, h)
    ensures BlocksValid(TakenOut(t, g, close, jump), TakenHistory(h, g)) && LabelsValid(TakenOut(t, g, close, jump), TakenHistory(h, g))
  {
    var t', h' := TakenOut(t, g, close, jump), TakenHistory(h, g);
    forall l | 0 <= l < |t.labels| ensures LabelValid(t', h', l) { assert LabelValid(t, h, l); }
  }

  // ----- a label is defined -----

  function Labelled(t: Tables, name: Name, localCount: nat): Tables {
    t.(labels := t.labels + [Label(name, |t.code|, localCount)])
  }

  function NewTarget(t: Tables, h: History, name: Name, localCount: nat): Target
    requires h.ids != [] && localCount <= |t.locals|
  {
    Target(h.ids[|h.ids| - 1], name, |t.code|, t.locals[..localCount])
  }

  function LabelledHistory(t: Tables, h: History, name: Name, localCount: nat): History
    requires h.ids != [] && localCount <= |t.locals|
  {
    h.(targets := h.targets + [NewTarget(t, h, name, localCount)], labelDepths := h.labelDepths + [|h.ids| - 1])
  }

  /** No label of the goto's name in the blocks inside the one it waits in. */
  predicate UnseenInside(t: Tables, h: History, i: nat)
    requires i < |t.pendings| && |h.origins| == |h.depths| == |t.pendings|
  {
    Unseen(Seen(h), h.origins[i], t.pendings[i].name, h.depths[i] + 1)
  }

  lemma LabelledSeen(t: Tables, h: History, name: Name, localCount: nat)
    requires h.ids != [] && localCount <= |t.locals|
    ensures Seen(LabelledHistory(t, h, name, localCount)) == Seen(h) + {NewTarget(t, h, name, localCount)}
  {
  }

  lemma LabelledResolved(t: Tables, h: History, name: Name, localCount: nat)
    requires Valid(t, h) && t.blocks != [] && localCount <= |t.locals|
    ensures ResolvedValid(Labelled(t, name, localCount), LabelledHistory(t, h, name, localCount))
  {
    var h' := LabelledHistory(t, h, name, localCount);
    LabelledSeen(t, h, name, localCount);
    forall r | 0 <= r < |h.resolved| ensures ResolutionValid(t.code, h.ids, Seen(h'), h.resolved[r]) {
      assert ResolutionValid(t.code, h.ids, Seen(h), h.resolved[r]);
      ResolutionKept(t.code, t.code, h.ids, h.ids, Seen(h), Seen(h'), h.resolved[r]);
    }
  }

  lemma LabelledLabels(t: Tables, h: History, name: Name, localCount: nat)
    requires Valid(t, h) && t.blocks != [] && t.blocks[|t.blocks| - 1].localBase <= localCount <= |t.locals|
    ensures var t', h' := Labelled(t, name, localCount), LabelledHistory(t, h, name, localCount);
      BlocksValid(t', h') && LabelsValid(t', h')
  {
    var t', h' := Labelled(t, name, localCount), LabelledHistory(t, h, name, localCount);
    forall l | 0 <= l < |t'.labels| ensures LabelValid(t', h', l) {
      if l < |t.labels| { assert LabelValid(t, h, l); }
    }
  }

  lemma LabelledTables(t: Tables, h: History, name: Name, localCount: nat)
    requires Valid(t, h) && t.blocks != [] && t.blocks[|t.blocks| - 1].localBase <= localCount <= |t.locals|
    ensures var t', h' := Labelled(t, name, localCount), LabelledHistory(t, h, name, localCount);
      BlocksValid(t', h') && LabelsValid(t', h') && Separate(t', h') && GotosWait(t', h')
  {
    var t', h' := Labelled(t, name, localCount), LabelledHistory(t, h, name, localCount);
    LabelledLabels(t, h, name, localCount);
    forall i | 0 <= i < |t.pendings| ensures Waiting(t', h', i) { assert Waiting(t, h, i); }
  }

  /** Only gotos of that name that wait in the label's own block are affected by it. */
  lemma LabelledUnseen(t: Tables, h: History, name: Name, localCount: nat, i: nat)
    requires Valid(t, h) && t.blocks != [] && localCount <= |t.locals| && i < |t.pendings|
    ensures var t', h' := Labelled(t, name, localCount), LabelledHistory(t, h, name, localCount);
      UnseenInside(t', h', i) && (i < t.blocks[|t.blocks| - 1].firstGoto || t.pendings[i].name != name ==> WaitingUnseen(t', h', i))
  {
    LabelledSeen(t, h, name, localCount);
    assert Waiting(t, h, i) && WaitingUnseen(t, h, i);
  }

  predicate Meets(t: Tables, h: History, g: nat, l: nat) {
    NearlyValid(t, h) && t.blocks != [] && g < |t.pendings| && l < |t.labels| &&
    t.blocks[|t.blocks| - 1].firstGoto <= g && t.blocks[|t.blocks| - 1].firstLabel <= l &&
    UnseenInside(t, h, g) && t.labels[l].name == t.pendings[g].name && t.labels[l].localCount <= t.pendings[g].localCount
  }

  lemma MeetsResolution(t: Tables, h: History, g: nat, l: nat)
    requires Meets(t, h, g, l)
    ensures Counted(t, h, g) && LabelValid(t, h, l) && t.labels[l].localCount <= |t.locals| && Waiting(t, h, g)
    ensures ResolutionValid(TakenOut(t, g, ClosePlace(h.origins[g].locals, t.labels[l].localCount), JumpTo(t.labels[l].pc)).code,
      h.ids, Seen(h), Resolved(h, g, t.pendings[g], |t.blocks| - 1, h.targets[l]))
  {
    var d := |t.blocks| - 1;
    assert Waiting(t, h, g) && LabelValid(t, h, l);
    assert h.depths[g] == d && h.labelDepths[l] == d && h.origins[g].path[..d + 1] == h.ids[..d + 1];
    assert h.targets[l] in Seen(h) && h.origins[g].path[d] == h.ids[..d + 1][d];
    ResolveOne(t.code, t.locals, h.ids, t.pendings[g], h.origins[g], d, h.ids, Seen(h), d, h.targets[l]);
  }

  lemma OthersWait(t: Tables, h: History, g: nat, close: Instr, jump: Instr, depth: nat, target: Target)
    requires Counted(t, h, g) && Separate(t, h) && StartsBelow(t, g) && GotosWait(t, h)
    ensures GotosWait(TakenOut(t, g, close, jump), Settled(h, g, t.pendings[g], depth, target))
  {
    var t', h' := TakenOut(t, g, close, jump), Settled(h, g, t.pendings[g], depth, target);
    forall i | 0 <= i < |t'.pendings| ensures Waiting(t', h', i) {
      var k := if i < g then i else i + 1;
      assert Waiting(t, h, k);
      WaitTaken(t, h, g, close, jump, k);
    }
  }

  lemma TablesSettled(t: Tables, h: History, g: nat, close: Instr, jump: Instr, depth: nat, target: Target)
    requires Counted(t, h, g) && StartsBelow(t, g) && BlocksValid(t, h) && LabelsValid(t, h)
    ensures var t', h' := TakenOut(t, g, close, jump), Settled(h, g, t.pendings[g], depth, target);
      BlocksValid(t', h') && LabelsValid(t', h')
  {
    var t', h' := TakenOut(t, g, close, jump), Settled(h, g, t.pendings[g], depth, target);
    forall l | 0 <= l < |t.labels| ensures LabelValid(t', h', l) { assert LabelValid(t, h, l); }
  }

  /** A goto in the innermost block meets the label defined there. */
  lemma SettledValid(t: Tables, h: History, g: nat, l: nat)
    requires Meets(t, h, g, l)
    ensures Counted(t, h, g) && LabelValid(t, h, l) && t.labels[l].localCount <= |t.locals|
    ensures NearlyValid(TakenOut(t, g, ClosePlace(h.origins[g].locals, t.labels[l].localCount), JumpTo(t.labels[l].pc)),
      Settled(h, g, t.pendings[g], |t.blocks| - 1, h.targets[l]))
  {
    var close, jump := ClosePlace(h.origins[g].locals, t.labels[l].localCount), JumpTo(t.labels[l].pc);
    MeetsResolution(t, h, g, l);
    ResolvedSettled(t, h, g, close, jump, |t.blocks| - 1, h.targets[l]);
    SeparateSettled(t, h, g, close, jump, |t.blocks| - 1, h.targets[l]);
    TablesSettled(t, h, g, close, jump, |t.blocks| - 1, h.targets[l]);
    OthersWait(t, h, g, close, jump, |t.blocks| - 1, h.targets[l]);
  }

  /** A label has just been defined: gotos of its name from `index` on in its block are still to be resolved. */
  predicate HalfDefined(t: Tables, h: History, name: Name, index: nat) {
    NearlyValid(t, h) && t.blocks != [] && t.blocks[|t.blocks| - 1].firstGoto <= index <= |t.pendings| &&
    (forall i {:trigger UnseenInside(t, h, i)} :: 0 <= i < |t.pendings| ==> UnseenInside(t, h, i)) &&
    forall i {:trigger WaitingUnseen(t, h, i)} :: 0 <= i < |t.pendings| && (i < index || t.pendings[i].name != name) ==> WaitingUnseen(t, h, i)
  }

  lemma LabelledHalf(t: Tables, h: History, name: Name, localCount: nat)
    requires Valid(t, h) && t.blocks != [] && t.blocks[|t.blocks| - 1].localBase <= localCount <= |t.locals|
    ensures HalfDefined(Labelled(t, name, localCount), LabelledHistory(t, h, name, localCount), name, t.blocks[|t.blocks| - 1].firstGoto)
  {
    var t', h' := Labelled(t, name, localCount), LabelledHistory(t, h, name, localCount);
    LabelledTables(t, h, name, localCount);
    LabelledResolved(t, h, name, localCount);
    forall i | 0 <= i < |t'.pendings|
      ensures UnseenInside(t', h', i) && (i < t.blocks[|t.blocks| - 1].firstGoto || t'.pendings[i].name != name ==> WaitingUnseen(t', h', i))
    {
      LabelledUnseen(t, h, name, localCount, i);
    }
  }

  lemma HalfSettled(t: Tables, h: History, g: nat, l: nat)
    requires g < |t.pendings| && l < |t.labels| && HalfDefined(t, h, t.labels[l].name, g) && t.blocks[|t.blocks| - 1].firstLabel <= l
    requires t.labels[l].name == t.pendings[g].name && t.labels[l].localCount <= t.pendings[g].localCount
    ensures Counted(t, h, g) && l < |h.targets|
    ensures HalfDefined(TakenOut(t, g, ClosePlace(h.origins[g].locals, t.labels[l].localCount), JumpTo(t.labels[l].pc)),
      Settled(h, g, t.pendings[g], |t.blocks| - 1, h.targets[l]), t.labels[l].name, g)
  {
    assert UnseenInside(t, h, g) && Meets(t, h, g, l);
    SettledValid(t, h, g, l);
    var t' := TakenOut(t, g, ClosePlace(h.origins[g].locals, t.labels[l].localCount), JumpTo(t.labels[l].pc));
    var h' := Settled(h, g, t.pendings[g], |t.blocks| - 1, h.targets[l]);
    assert Seen(h') == Seen(h);
    forall i | 0 <= i < |t'.pendings|
      ensures UnseenInside(t', h', i) && (i < g || t'.pendings[i].name != t.labels[l].name ==> WaitingUnseen(t', h', i))
    {
      var k := if i < g then i else i + 1;
      assert UnseenInside(t, h, k);
      assert k < g || t.pendings[k].name != t.labels[l].name ==> WaitingUnseen(t, h, k);
    }
  }

  // ----- a goto whose label is already there -----

  function Direct(t: Tables, found: Label): Tables {
    t.(code := t.code + [ClosePlace(t.locals, found.localCount), JumpTo(found.pc)])
  }

  function DirectHistory(t: Tables, h: History, l: nat): History
    requires l < |h.targets| && h.ids != []
  {
    h.(resolved := h.resolved + [Resolution(Origin(t.locals, h.ids), h.targets[l].name, |t.code|, |t.code| + 1, |h.ids| - 1, h.targets[l])])
  }

  lemma DirectResolved(t: Tables, h: History, l: nat)
    requires Valid(t, h) && t.blocks != [] && t.blocks[|t.blocks| - 1].firstLabel <= l < |t.labels|
    ensures ResolvedValid(Direct(t, t.labels[l]), DirectHistory(t, h, l))
  {
    var t', h' := Direct(t, t.labels[l]), DirectHistory(t, h, l);
    assert LabelValid(t, h, l) && h.targets[l] in Seen(h);
    assert Seen(h') == Seen(h);
    forall r | 0 <= r < |h'.resolved| ensures ResolutionValid(t'.code, h'.ids, Seen(h'), h'.resolved[r]) {
      if r < |h.resolved| {
        ResolutionKept(t.code, t'.code, h.ids, h.ids, Seen(h), Seen(h), h.resolved[r]);
      }
    }
  }

  lemma DirectApart(t: Tables, h: History, l: nat)
    requires Valid(t, h) && t.blocks != [] && l < |t.labels|
    ensures Separate(Direct(t, t.labels[l]), DirectHistory(t, h, l))
  {
    forall i | 0 <= i < |t.pendings| ensures Apart(|t.code|, t.pendings[i].closePC) { assert Waiting(t, h, i); }
  }

  lemma DirectValid(t: Tables, h: History, l: nat)
    requires Valid(t, h) && t.blocks != [] && t.blocks[|t.blocks| - 1].firstLabel <= l < |t.labels|
    ensures t.labels[l].localCount <= |t.locals|
    ensures Valid(Direct(t, t.labels[l]), DirectHistory(t, h, l))
  {
    var t', h' := Direct(t, t.labels[l]), DirectHistory(t, h, l);
    assert LabelValid(t, h, l);
    DirectResolved(t, h, l);
    DirectApart(t, h, l);
    assert Seen(h') == Seen(h);
    forall k | 0 <= k < |t.labels| ensures LabelValid(t', h', k) { assert LabelValid(t, h, k); }
    forall i | 0 <= i < |t.pendings| ensures Waiting(t', h', i) && WaitingUnseen(t', h', i) {
      assert Waiting(t, h, i) && WaitingUnseen(t, h, i);
    }
  }
}
