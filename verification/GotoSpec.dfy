/** Gotos and labels: which label a goto finds, which locals it leaves, and what its placeholders must hold. */
module GotoSpec {

  const NO_REGISTER: nat := 255
  const MAX_JUMP: int := 131071

  type Name = nat

  /** A goto occupies two instructions: a place for CLOSE, a no-op until a local is known to be left, and the jump. */
  datatype Instr = Other | Nop | Close(register: nat) | PendingJump | JumpTo(target: nat)

  /** A local is known by the number of its debug record. */
  datatype Local = Local(register: nat, id: nat)
  datatype Pending = Pending(name: Name, closePC: nat, jumpPC: nat, localCount: nat)
  datatype Label = Label(name: Name, pc: nat, localCount: nat)
  datatype Block = Block(localBase: nat, firstGoto: nat, firstLabel: nat)

  /** Where a goto stands: the locals in scope there and the blocks around it, outermost first. */
  datatype Origin = Origin(locals: seq<Local>, path: seq<nat>)

  /** A label as it was defined: its block and the locals in scope at it. */
  datatype Target = Target(block: nat, name: Name, pc: nat, locals: seq<Local>)

  datatype Resolution = Resolution(origin: Origin, name: Name, closePC: nat, jumpPC: nat, depth: nat, target: Target)

  // ----- locals -----

  /** Later locals have higher registers and were declared later. */
  predicate LocalsRise(locals: seq<Local>) {
    (forall i, j :: 0 <= i < j < |locals| ==> locals[i].register < locals[j].register && locals[i].id < locals[j].id) &&
    forall i :: 0 <= i < |locals| ==> locals[i].register < NO_REGISTER
  }

  /** What the CLOSE place holds when a goto with these locals keeps the first `kept` of them: it closes from the
      first local that it leaves, and does nothing if it leaves none. */
  function ClosePlace(locals: seq<Local>, kept: nat): Instr {
    if kept < |locals| then Close(locals[kept].register) else Nop
  }

  // ----- one pending goto -----

  /** No label of this name has been seen in the goto's blocks from `depth` inwards. */
  predicate Unseen(seen: set<Target>, origin: Origin, name: Name, depth: nat) {
    forall t, j :: t in seen && depth <= j < |origin.path| ==> !(t.block == origin.path[j] && t.name == name)
  }

  /** The goto's blocks further in than `depth` have been left for good. */
  predicate Left(ids: seq<nat>, origin: Origin, depth: nat) {
    forall j :: depth < j < |origin.path| ==> origin.path[j] !in ids
  }

  /** Blocks and locals around a goto were there before any that come later. */
  predicate Known(origin: Origin, nextBlock: nat, nextLocal: nat) {
    (forall j :: 0 <= j < |origin.path| ==> origin.path[j] < nextBlock) &&
    forall j :: 0 <= j < |origin.locals| ==> origin.locals[j].id < nextLocal
  }

  /** A goto still in blocks[..depth + 1]: its locals that are still in scope are those of its origin, the CLOSE
      place says which have been left, and any local declared since is another one. */
  predicate PendingValid(code: seq<Instr>, locals: seq<Local>, ids: seq<nat>, p: Pending, origin: Origin, depth: nat) {
    p.jumpPC == p.closePC + 1 < |code| && code[p.jumpPC] == PendingJump &&
    code[p.closePC] == ClosePlace(origin.locals, p.localCount) &&
    p.localCount <= |locals| && p.localCount <= |origin.locals| && locals[..p.localCount] == origin.locals[..p.localCount] &&
    LocalsRise(origin.locals) &&
    (p.localCount < |locals| && p.localCount < |origin.locals| ==> locals[p.localCount].id > origin.locals[p.localCount].id) &&
    depth < |origin.path| && depth < |ids| && origin.path[..depth + 1] == ids[..depth + 1] && Left(ids, origin, depth)
  }

  // ----- one resolved goto -----

  /** The jump goes to its label; the label's block is the innermost around the goto that has a label of the name;
      every local in scope at the label is in scope at the goto; exactly the others are closed. */
  predicate ResolutionValid(code: seq<Instr>, ids: seq<nat>, seen: set<Target>, r: Resolution) {
    r.jumpPC == r.closePC + 1 < |code| && code[r.jumpPC] == JumpTo(r.target.pc) &&
    code[r.closePC] == ClosePlace(r.origin.locals, |r.target.locals|) &&
    r.target.locals <= r.origin.locals && LocalsRise(r.origin.locals) && r.target in seen && r.target.name == r.name &&
    r.depth < |r.origin.path| && r.origin.path[r.depth] == r.target.block &&
    Unseen(seen, r.origin, r.name, r.depth + 1) && Left(ids, r.origin, r.depth)
  }

  /** Two gotos do not share instructions. */
  predicate Apart(closePC: nat, other: nat) {
    closePC + 1 < other || other + 1 < closePC
  }

  /** Whether a goto may jump to a label: no local comes into scope on the way. */
  predicate MayJump(origin: Origin, target: Target) {
    target.locals <= origin.locals
  }

  /** Comparing watermarks decides it. */
  lemma WatermarkDecides(code: seq<Instr>, locals: seq<Local>, ids: seq<nat>, p: Pending, origin: Origin, depth: nat, target: Target)
    requires PendingValid(code, locals, ids, p, origin, depth) && target.locals <= locals
    ensures p.localCount >= |target.locals| <==> MayJump(origin, target)
  {
    var n := |target.locals|;
    if p.localCount >= n {
      assert target.locals == locals[..n] == locals[..p.localCount][..n] == origin.locals[..p.localCount][..n] == origin.locals[..n];
    } else {
      assert target.locals[p.localCount] == locals[p.localCount];
    }
  }

  /** Moving the watermark down closes from the first local that is now left, whatever was closed before. */
  lemma CloseLower(origin: Origin, before: nat, after: nat, locals: seq<Local>)
    requires LocalsRise(origin.locals) && after <= before <= |origin.locals| && before <= |locals|
    requires locals[..before] == origin.locals[..before]
    ensures after < before ==>
      locals[after].register == origin.locals[after].register < NO_REGISTER &&
      (before < |origin.locals| ==> locals[after].register < origin.locals[before].register)
    ensures after == before ==> ClosePlace(origin.locals, after) == ClosePlace(origin.locals, before)
  {
    if after < before { assert locals[after] == locals[..before][after]; }
  }

  /** What the CLOSE place does when it runs: the cells of locals at or above its register are closed. */
  predicate Closes(place: Instr, register: nat) {
    place.Close? && place.register <= register
  }

  /** A resolved goto closes a local exactly when the label is outside that local's scope. */
  lemma ClosesExactlyLeft(code: seq<Instr>, ids: seq<nat>, seen: set<Target>, r: Resolution, i: nat)
    requires ResolutionValid(code, ids, seen, r) && i < |r.origin.locals|
    ensures Closes(code[r.closePC], r.origin.locals[i].register) <==> r.origin.locals[i] !in r.target.locals
  {
    var kept := |r.target.locals|;
    if i < kept {
      assert r.target.locals[i] == r.origin.locals[i];
    }
  }

  // ----- the whole function -----

  /** The compiler's tables for one function. */
  datatype Tables = Tables(code: seq<Instr>, locals: seq<Local>, labels: seq<Label>, pendings: seq<Pending>, blocks: seq<Block>)

  /** What has happened so far: where pending gotos stand and in which open block they wait, the open blocks and the
      labels in them, every label ever defined and every goto resolved. */
  datatype History = History(origins: seq<Origin>, depths: seq<nat>, ids: seq<nat>, labelDepths: seq<nat>,
                             targets: seq<Target>, closed: set<Target>, resolved: seq<Resolution>, nextBlock: nat, nextLocal: nat)

  /** Positions in a table that belong to blocks[depth] directly. */
  predicate InBlock(starts: seq<nat>, i: nat, depth: nat) {
    depth < |starts| && starts[depth] <= i && (depth + 1 < |starts| ==> i < starts[depth + 1])
  }

  function GotoStarts(blocks: seq<Block>): (r: seq<nat>)
    ensures |r| == |blocks| && forall i :: 0 <= i < |r| ==> r[i] == blocks[i].firstGoto
  {
    seq(|blocks|, i requires 0 <= i < |blocks| => blocks[i].firstGoto)
  }

  function LabelStarts(blocks: seq<Block>): (r: seq<nat>)
    ensures |r| == |blocks| && forall i :: 0 <= i < |r| ==> r[i] == blocks[i].firstLabel
  {
    seq(|blocks|, i requires 0 <= i < |blocks| => blocks[i].firstLabel)
  }

  predicate BlocksValid(t: Tables, h: History) {
    |h.ids| == |t.blocks| && |h.origins| == |h.depths| == |t.pendings| &&
    (forall i, j :: 0 <= i < j < |h.ids| ==> h.ids[i] < h.ids[j]) && (forall i :: 0 <= i < |h.ids| ==> h.ids[i] < h.nextBlock) &&
    (forall i, j :: 0 <= i <= j < |t.blocks| ==>
      t.blocks[i].localBase <= t.blocks[j].localBase && t.blocks[i].firstGoto <= t.blocks[j].firstGoto &&
      t.blocks[i].firstLabel <= t.blocks[j].firstLabel) &&
    (t.blocks != [] ==> t.blocks[0] == Block(0, 0, 0) && var top := t.blocks[|t.blocks| - 1];
      top.localBase <= |t.locals| && top.firstGoto <= |t.pendings| && top.firstLabel <= |t.labels|) &&
    (t.blocks == [] ==> t.locals == [] && t.labels == []) &&
    LocalsRise(t.locals) && forall i :: 0 <= i < |t.locals| ==> t.locals[i].id < h.nextLocal
  }

  predicate LabelValid(t: Tables, h: History, l: nat)
    requires l < |t.labels| && |h.targets| == |h.labelDepths| == |t.labels| && |h.ids| == |t.blocks|
  {
    var found, depth := t.labels[l], h.labelDepths[l];
    InBlock(LabelStarts(t.blocks), l, depth) && t.blocks[depth].localBase <= found.localCount <= |t.locals| && found.pc <= |t.code| &&
    (depth + 1 < |t.blocks| ==> found.localCount <= t.blocks[depth + 1].localBase) &&
    h.targets[l] == Target(h.ids[depth], found.name, found.pc, t.locals[..found.localCount])
  }

  predicate LabelsValid(t: Tables, h: History) {
    |h.targets| == |h.labelDepths| == |t.labels| && |h.ids| == |t.blocks| &&
    (forall l {:trigger LabelValid(t, h, l)} :: 0 <= l < |t.labels| ==> LabelValid(t, h, l)) &&
    forall x :: x in h.closed ==> x.block !in h.ids && x.block < h.nextBlock
  }

  /** Every label ever defined: those of blocks that have been left and those in the table. */
  function Seen(h: History): set<Target> {
    h.closed + set x | x in h.targets
  }

  /** A pending goto waits in an open block; while it waits no label of its name has been seen from there inwards. */
  predicate Waiting(t: Tables, h: History, i: nat)
    requires i < |t.pendings| && |h.origins| == |h.depths| == |t.pendings|
  {
    var depth := h.depths[i];
    PendingValid(t.code, t.locals, h.ids, t.pendings[i], h.origins[i], depth) && Known(h.origins[i], h.nextBlock, h.nextLocal) &&
    InBlock(GotoStarts(t.blocks), i, depth) && t.blocks[depth].localBase <= t.pendings[i].localCount &&
    (depth + 1 < |t.blocks| ==> t.pendings[i].localCount <= t.blocks[depth + 1].localBase)
  }

  predicate WaitingUnseen(t: Tables, h: History, i: nat)
    requires i < |t.pendings| && |h.origins| == |h.depths| == |t.pendings|
  {
    Unseen(Seen(h), h.origins[i], t.pendings[i].name, h.depths[i])
  }

  predicate Separate(t: Tables, h: History) {
    (forall i, j :: 0 <= i < j < |t.pendings| ==> t.pendings[i].closePC + 1 < t.pendings[j].closePC) &&
    forall r, i :: 0 <= r < |h.resolved| && 0 <= i < |t.pendings| ==> Apart(h.resolved[r].closePC, t.pendings[i].closePC)
  }

  predicate ResolvedValid(t: Tables, h: History) {
    forall r :: 0 <= r < |h.resolved| ==>
      ResolutionValid(t.code, h.ids, Seen(h), h.resolved[r]) && Known(h.resolved[r].origin, h.nextBlock, h.nextLocal)
  }

  predicate GotosWait(t: Tables, h: History) {
    |h.origins| == |h.depths| == |t.pendings| &&
    forall i {:trigger Waiting(t, h, i)} :: 0 <= i < |t.pendings| ==> Waiting(t, h, i)
  }

  /** Valid but for the chance that some waiting goto has just been given its label. */
  predicate NearlyValid(t: Tables, h: History) {
    BlocksValid(t, h) && LabelsValid(t, h) && Separate(t, h) && ResolvedValid(t, h) && GotosWait(t, h)
  }

  predicate Valid(t: Tables, h: History) {
    NearlyValid(t, h) && forall i {:trigger WaitingUnseen(t, h, i)} :: 0 <= i < |t.pendings| ==> WaitingUnseen(t, h, i)
  }

  // ----- what stays valid when the tables change -----

  lemma PendingKept(code: seq<Instr>, code': seq<Instr>, locals: seq<Local>, ids: seq<nat>, p: Pending, origin: Origin, depth: nat)
    requires PendingValid(code, locals, ids, p, origin, depth) && |code| <= |code'|
    requires code'[p.closePC] == code[p.closePC] && code'[p.jumpPC] == code[p.jumpPC]
    ensures PendingValid(code', locals, ids, p, origin, depth)
  {
  }

  lemma ResolutionKept(code: seq<Instr>, code': seq<Instr>, ids: seq<nat>, ids': seq<nat>, seen: set<Target>, seen': set<Target>, r: Resolution)
    requires ResolutionValid(code, ids, seen, r) && |code| <= |code'| && seen <= seen'
    requires code'[r.closePC] == code[r.closePC] && code'[r.jumpPC] == code[r.jumpPC]
    requires Left(ids', r.origin, r.depth) && Unseen(seen', r.origin, r.name, r.depth + 1)
    ensures ResolutionValid(code', ids', seen', r)
  {
  }

  /** More instructions change nothing that was there. */
  lemma Emitted(t: Tables, h: History, more: seq<Instr>)
    requires Valid(t, h)
    ensures Valid(t.(code := t.code + more), h)
  {
    var t' := t.(code := t.code + more);
    forall l | 0 <= l < |t.labels| ensures LabelValid(t', h, l) { assert LabelValid(t, h, l); }
    forall i | 0 <= i < |t.pendings| ensures Waiting(t', h, i) && WaitingUnseen(t', h, i) {
      assert Waiting(t, h, i) && WaitingUnseen(t, h, i);
    }
  }

  /** Entering a block: nothing is in it yet. */
  function Entered(t: Tables): Tables {
    t.(blocks := t.blocks + [Block(|t.locals|, |t.pendings|, |t.labels|)])
  }

  function EnteredHistory(h: History): History {
    h.(ids := h.ids + [h.nextBlock], nextBlock := h.nextBlock + 1)
  }

  lemma EnteredWaits(t: Tables, h: History)
    requires Valid(t, h) && t.blocks != []
    ensures GotosWait(Entered(t), EnteredHistory(h)) && Separate(Entered(t), EnteredHistory(h))
  {
    var t', h' := Entered(t), EnteredHistory(h);
    forall i | 0 <= i < |t.pendings| ensures Waiting(t', h', i) {
      assert Waiting(t, h, i);
      assert h'.ids[..h.depths[i] + 1] == h.ids[..h.depths[i] + 1];
    }
  }

  lemma EnteredResolved(t: Tables, h: History)
    requires Valid(t, h)
    ensures ResolvedValid(Entered(t), EnteredHistory(h))
  {
    var t', h' := Entered(t), EnteredHistory(h);
    assert Seen(h') == Seen(h);
    forall r | 0 <= r < |h.resolved|
      ensures ResolutionValid(t'.code, h'.ids, Seen(h'), h'.resolved[r]) && Known(h'.resolved[r].origin, h'.nextBlock, h'.nextLocal)
    {
      assert ResolutionValid(t.code, h.ids, Seen(h), h.resolved[r]);
    }
  }

  lemma EnteredLabels(t: Tables, h: History)
    requires Valid(t, h) && t.blocks != []
    ensures BlocksValid(Entered(t), EnteredHistory(h)) && LabelsValid(Entered(t), EnteredHistory(h))
  {
    forall l | 0 <= l < |t.labels| ensures LabelValid(Entered(t), EnteredHistory(h), l) { assert LabelValid(t, h, l); }
  }

  lemma EnteredValid(t: Tables, h: History)
    requires Valid(t, h) && t.blocks != []
    ensures Valid(Entered(t), EnteredHistory(h))
  {
    var t', h' := Entered(t), EnteredHistory(h);
    EnteredWaits(t, h);
    EnteredResolved(t, h);
    EnteredLabels(t, h);
    assert Seen(h') == Seen(h);
    forall i | 0 <= i < |t.pendings| ensures WaitingUnseen(t', h', i) { assert WaitingUnseen(t, h, i); }
  }

  // ----- locals -----

  function Activated(locals: seq<Local>, base: nat, count: nat, nextLocal: nat): (r: seq<Local>)
    ensures |r| == |locals| + count
    ensures forall i :: 0 <= i < |r| ==> r[i] == if i < |locals| then locals[i] else Local(base + (i - |locals|), nextLocal + (i - |locals|))
  {
    locals + seq(count, i requires 0 <= i < count => Local(base + i, nextLocal + i))
  }

  /** New locals take the registers above those of the locals in scope. */
  predicate RegistersFit(locals: seq<Local>, base: nat, count: nat) {
    base + count <= NO_REGISTER && forall j :: 0 <= j < |locals| ==> locals[j].register < base
  }

  lemma ActivatedValid(t: Tables, h: History, base: nat, count: nat)
    requires Valid(t, h) && t.blocks != [] && RegistersFit(t.locals, base, count)
    ensures Valid(t.(locals := Activated(t.locals, base, count, h.nextLocal)), h.(nextLocal := h.nextLocal + count))
  {
    var t', h' := t.(locals := Activated(t.locals, base, count, h.nextLocal)), h.(nextLocal := h.nextLocal + count);
    assert Seen(h') == Seen(h);
    forall l | 0 <= l < |t.labels| ensures LabelValid(t', h', l) {
      assert LabelValid(t, h, l);
      assert t'.locals[..t.labels[l].localCount] == t.locals[..t.labels[l].localCount];
    }
    forall i | 0 <= i < |t.pendings| ensures Waiting(t', h', i) && WaitingUnseen(t', h', i) {
      assert Waiting(t, h, i) && WaitingUnseen(t, h, i);
      assert t'.locals[..t.pendings[i].localCount] == t.locals[..t.pendings[i].localCount];
    }
  }

  // ----- gotos -----

  /** A goto that finds no label yet starts to wait in the innermost block. */
  function Deferred(t: Tables, name: Name): Tables {
    var pc := |t.code|;
    t.(code := t.code + [Nop, PendingJump], pendings := t.pendings + [Pending(name, pc, pc + 1, |t.locals|)])
  }

  function DeferredHistory(t: Tables, h: History): History
    requires h.ids != []
  {
    h.(origins := h.origins + [Origin(t.locals, h.ids)], depths := h.depths + [|h.ids| - 1])
  }

  /** No label of the name has been defined in the innermost block. */
  predicate NotInTop(t: Tables, name: Name) {
    t.blocks != [] ==> forall l :: t.blocks[|t.blocks| - 1].firstLabel <= l < |t.labels| ==> t.labels[l].name != name
  }

  lemma TopUnseen(t: Tables, h: History, name: Name)
    requires BlocksValid(t, h) && LabelsValid(t, h) && t.blocks != [] && NotInTop(t, name)
    ensures Unseen(Seen(h), Origin(t.locals, h.ids), name, |h.ids| - 1)
  {
    forall x | x in Seen(h) && x.block == h.ids[|h.ids| - 1] ensures x.name != name {
      if x in h.targets {
        var l :| 0 <= l < |h.targets| && h.targets[l] == x;
        assert LabelValid(t, h, l);
      }
    }
  }

  lemma DeferredApart(t: Tables, h: History, name: Name)
    requires Valid(t, h) && h.ids != []
    ensures Separate(Deferred(t, name), DeferredHistory(t, h))
  {
    var t', n := Deferred(t, name), |t.pendings|;
    forall i | 0 <= i < n ensures t'.pendings[i].closePC + 1 < t'.pendings[n].closePC {
      assert Waiting(t, h, i);
    }
    forall r | 0 <= r < |h.resolved| ensures Apart(h.resolved[r].closePC, t'.pendings[n].closePC) {
      assert ResolutionValid(t.code, h.ids, Seen(h), h.resolved[r]);
    }
  }

  lemma DeferredWaits(t: Tables, h: History, name: Name)
    requires Valid(t, h) && t.blocks != []
    ensures GotosWait(Deferred(t, name), DeferredHistory(t, h))
  {
    var t', h' := Deferred(t, name), DeferredHistory(t, h);
    forall i | 0 <= i <= |t.pendings| ensures Waiting(t', h', i) {
      if i < |t.pendings| {
        assert Waiting(t, h, i);
      } else {
        assert h.ids[..|h.ids|] == h.ids && t.locals[..|t.locals|] == t.locals;
      }
    }
  }

  lemma DeferredValid(t: Tables, h: History, name: Name)
    requires Valid(t, h) && t.blocks != [] && NotInTop(t, name)
    ensures Valid(Deferred(t, name), DeferredHistory(t, h))
  {
    var t', h' := Deferred(t, name), DeferredHistory(t, h);
    Emitted(t, h, [Nop, PendingJump]);
    DeferredApart(t, h, name);
    DeferredWaits(t, h, name);
    TopUnseen(t, h, name);
    assert Seen(h') == Seen(h);
    forall l | 0 <= l < |t.labels| ensures LabelValid(t', h', l) { assert LabelValid(t, h, l); }
    forall i | 0 <= i <= |t.pendings| ensures WaitingUnseen(t', h', i) {
      if i < |t.pendings| { assert WaitingUnseen(t, h, i); }
    }
  }
}
