/** Branches of a function whose target is not known yet: loops, breaks, and what the end of the function demands. */
module Loops {
  import opened Wrappers
  import opened Emitter

  const MAX_OFFSET: int := 131071

  /** Code as far as control flow goes. Only a jump may wait in a list. */
  datatype Instr = Other | Jump(sbx: int) | ForPrep(register: nat, sbx: int) | ForLoop(register: nat, sbx: int) | Return

  datatype Loop = Loop(blockBase: nat, breaks: nat)

  datatype Outcome = Done | NoLoop | TooLong | Unresolved

  predicate IsBranch(i: Instr) { i.Jump? || i.ForPrep? || i.ForLoop? }

  function Aimed(i: Instr, offset: int): Instr
    requires IsBranch(i)
  {
    match i
    case Jump(_) => Jump(offset)
    case ForPrep(r, _) => ForPrep(r, offset)
    case ForLoop(r, _) => ForLoop(r, offset)
  }

  /** Inner loops have their bodies in inner blocks. */
  ghost predicate BasesRise(loops: seq<Loop>, blocks: nat) {
    (forall l :: 0 <= l < |loops| ==> loops[l].blockBase <= loops[|loops| - 1].blockBase) &&
    (forall l, m :: 0 <= l < m < |loops| ==> loops[l].blockBase <= loops[m].blockBase) &&
    (loops != [] ==> loops[|loops| - 1].blockBase <= blocks)
  }

  // ----- lists of jumps -----

  ghost predicate Linked(code: seq<Instr>, pcs: seq<nat>, i: nat)
    requires i < |pcs|
  {
    pcs[i] < |code| && code[pcs[i]] == Jump(Link(pcs, i))
  }

  /** The jumps of a list, in its order. */
  ghost predicate Lists(code: seq<Instr>, list: nat, pcs: seq<nat>) {
    list == Head(pcs) && Distinct(pcs) && forall i :: 0 <= i < |pcs| ==> Linked(code, pcs, i)
  }

  lemma ListsKept(code: seq<Instr>, list: nat, pcs: seq<nat>, code': seq<Instr>)
    requires Lists(code, list, pcs) && |code| <= |code'| && forall pc :: pc in pcs && pc < |code| ==> code'[pc] == code[pc]
    ensures Lists(code', list, pcs)
  {
    forall i | 0 <= i < |pcs| ensures Linked(code', pcs, i) {
      assert Linked(code, pcs, i) && pcs[i] in pcs;
    }
  }

  lemma Joined(code: seq<Instr>, xs: seq<nat>, ys: seq<nat>, code': seq<Instr>)
    requires xs != [] && ys != [] && Distinct(xs + ys) && Lists(code, Head(xs), xs) && Lists(code, Head(ys), ys)
    requires var last := xs[|xs| - 1]; last < |code| && code' == code[last := Jump(ys[0] - (last + 1))]
    ensures Lists(code', Head(xs), xs + ys)
  {
    var all := xs + ys;
    assert Linked(code, xs, |xs| - 1);
    forall k | 0 <= k < |all| ensures Linked(code', all, k) {
      if k < |xs| {
        assert Linked(code, xs, k) && all[k] == xs[k];
      } else {
        assert Linked(code, ys, k - |xs|) && all[k] == ys[k - |xs|] && all[k] != all[|xs| - 1];
      }
    }
  }

  // ----- where branches go -----

  /** A branch waits, or goes where it has been told to. */
  predicate BranchValid(code: seq<Instr>, pending: set<nat>, targets: map<nat, nat>, pc: nat)
    requires pc < |code|
  {
    if IsBranch(code[pc]) then
      pc in pending || (pc in targets && targets[pc] <= |code| && pc + 1 + code[pc].sbx == targets[pc])
    else pc !in pending && pc !in targets
  }

  /** That holds of all branches; to be taken apart only where BranchesFacts is named. */
  ghost predicate BranchesValid(code: seq<Instr>, pending: set<nat>, targets: map<nat, nat>) {
    forall t {:trigger BranchesFacts(code, pending, t)} :: t == targets ==> BranchesFacts(code, pending, t)
  }

  ghost predicate BranchesFacts(code: seq<Instr>, pending: set<nat>, targets: map<nat, nat>) {
    (forall pc {:trigger BranchValid(code, pending, targets, pc)} :: 0 <= pc < |code| ==> BranchValid(code, pending, targets, pc)) &&
    (forall pc :: pc in pending ==> pc < |code| && pc !in targets) &&
    forall pc :: pc in targets ==> pc < |code|
  }

  lemma Appended(code: seq<Instr>, pending: set<nat>, targets: map<nat, nat>, i: Instr)
    requires BranchesValid(code, pending, targets)
    ensures |code| !in pending && BranchesValid(code + [i], if IsBranch(i) then pending + {|code|} else pending, targets)
  {
    assert BranchesFacts(code, pending, targets);
    var pending' := if IsBranch(i) then pending + {|code|} else pending;
    forall pc | 0 <= pc < |code| + 1 ensures BranchValid(code + [i], pending', targets, pc) {
      if pc < |code| { assert BranchValid(code, pending, targets, pc); }
    }
  }

  /** A branch that waited is told where to go. */
  lemma Sent(code: seq<Instr>, pending: set<nat>, targets: map<nat, nat>, pc: nat, target: nat)
    requires BranchesValid(code, pending, targets) && pc in pending && target <= |code|
    ensures pc < |code| && IsBranch(code[pc])
    ensures BranchesValid(code[pc := Aimed(code[pc], target - (pc + 1))], pending - {pc}, targets[pc := target])
  {
    assert BranchesFacts(code, pending, targets);
    assert BranchValid(code, pending, targets, pc);
    var code', pending', targets' := code[pc := Aimed(code[pc], target - (pc + 1))], pending - {pc}, targets[pc := target];
    forall k | 0 <= k < |code| ensures BranchValid(code', pending', targets', k) {
      assert BranchValid(code, pending, targets, k);
    }
  }

  /** A jump that waits may hold any link. */
  lemma Relinked(code: seq<Instr>, pending: set<nat>, targets: map<nat, nat>, pc: nat, link: int)
    requires BranchesValid(code, pending, targets) && pc in pending && pc < |code| && code[pc].Jump?
    ensures BranchesValid(code[pc := Jump(link)], pending, targets)
  {
    assert BranchesFacts(code, pending, targets);
    var code' := code[pc := Jump(link)];
    forall k | 0 <= k < |code| ensures BranchValid(code', pending, targets, k) {
      assert BranchValid(code, pending, targets, k);
    }
  }

  /** Exactly these have been told a target besides; to be taken apart only where Sends is named. */
  ghost predicate SentTo(before: map<nat, nat>, after: map<nat, nat>, pcs: seq<nat>, target: nat) {
    forall t {:trigger Sends(before, after, pcs, t)} :: t == target ==> Sends(before, after, pcs, t)
  }

  ghost predicate Sends(before: map<nat, nat>, after: map<nat, nat>, pcs: seq<nat>, target: nat) {
    after.Keys == before.Keys + All(pcs) && forall pc :: pc in after ==> after[pc] == if pc in pcs then target else before[pc]
  }

  /** Nothing but these jumps has changed: they have left those that wait, and have the target. */
  ghost predicate Patching(code: seq<Instr>, pending: set<nat>, targets: map<nat, nat>, code': seq<Instr>, pending': set<nat>, targets': map<nat, nat>, pcs: seq<nat>, target: nat) {
    |code'| == |code| && (forall k :: 0 <= k < |code| && k !in pcs ==> code'[k] == code[k]) &&
    pending' == pending - All(pcs) && SentTo(targets, targets', pcs, target)
  }

  lemma PatchingNone(code: seq<Instr>, pending: set<nat>, targets: map<nat, nat>, target: nat)
    ensures Patching(code, pending, targets, code, pending, targets, [], target)
  {
    assert All([]) == {} && pending - {} == pending && targets.Keys + {} == targets.Keys;
    assert Sends(targets, targets, [], target);
  }

  lemma PatchingOn(code: seq<Instr>, pending: set<nat>, targets: map<nat, nat>, code': seq<Instr>, pending': set<nat>, targets': map<nat, nat>, pcs: seq<nat>, target: nat, pc: nat, i: Instr)
    requires Patching(code, pending, targets, code', pending', targets', pcs, target) && pc < |code|
    ensures Patching(code, pending, targets, code'[pc := i], pending' - {pc}, targets'[pc := target], pcs + [pc], target)
  {
    assert Sends(targets, targets', pcs, target);
    assert All(pcs + [pc]) == All(pcs) + {pc};
    assert Sends(targets, targets'[pc := target], pcs + [pc], target);
  }

  lemma OnlyJumps(code: seq<Instr>, list: nat, pcs: seq<nat>)
    requires Lists(code, list, pcs)
    ensures forall pc :: pc in pcs ==> pc < |code| && code[pc].Jump?
  {
    forall pc | pc in pcs ensures pc < |code| && code[pc].Jump? {
      var i :| 0 <= i < |pcs| && pcs[i] == pc;
      assert Linked(code, pcs, i);
    }
  }

  lemma BreaksJump(code: seq<Instr>, pending: set<nat>, loops: seq<Loop>, breaks: seq<seq<nat>>)
    requires BreaksValid(code, pending, loops, breaks)
    ensures forall l, pc :: 0 <= l < |breaks| && pc in breaks[l] ==> pc < |code| && code[pc].Jump?
  {
    assert BreaksFacts(code, pending, loops, breaks);
    forall l | 0 <= l < |breaks| ensures forall pc :: pc in breaks[l] ==> pc < |code| && code[pc].Jump? {
      OnlyJumps(code, loops[l].breaks, breaks[l]);
    }
  }

  lemma TargetsInside(code: seq<Instr>, pending: set<nat>, targets: map<nat, nat>)
    requires BranchesValid(code, pending, targets)
    ensures forall pc :: pc in targets ==> targets[pc] <= |code|
  {
    assert BranchesFacts(code, pending, targets);
    forall pc | pc in targets ensures targets[pc] <= |code| {
      assert BranchValid(code, pending, targets, pc);
    }
  }

  function All(pcs: seq<nat>): set<nat> {
    set pc | pc in pcs
  }

  /** The breaks of each loop are the jumps of its list; all of them wait, and none in two lists. */
  ghost predicate BreaksValid(code: seq<Instr>, pending: set<nat>, loops: seq<Loop>, breaks: seq<seq<nat>>) {
    |breaks| == |loops| && forall b {:trigger BreaksFacts(code, pending, loops, b)} :: b == breaks ==> BreaksFacts(code, pending, loops, b)
  }

  ghost predicate BreaksFacts(code: seq<Instr>, pending: set<nat>, loops: seq<Loop>, breaks: seq<seq<nat>>) {
    |breaks| == |loops| &&
    (forall l {:trigger breaks[l]} :: 0 <= l < |loops| ==> Lists(code, loops[l].breaks, breaks[l]) && All(breaks[l]) <= pending) &&
    forall l, m :: 0 <= l < m < |loops| ==> All(breaks[l]) !! All(breaks[m])
  }

  /** Other code and other branches do not matter to the breaks. */
  lemma BreaksKept(code: seq<Instr>, pending: set<nat>, loops: seq<Loop>, breaks: seq<seq<nat>>, code': seq<Instr>, pending': set<nat>, changed: set<nat>)
    requires BreaksValid(code, pending, loops, breaks) && |code| <= |code'| && pending - changed <= pending'
    requires forall pc :: 0 <= pc < |code| && pc !in changed ==> code'[pc] == code[pc]
    requires forall l :: 0 <= l < |breaks| ==> All(breaks[l]) !! changed
    ensures BreaksValid(code', pending', loops, breaks)
  {
    assert BreaksFacts(code, pending, loops, breaks);
    forall l | 0 <= l < |loops| ensures Lists(code', loops[l].breaks, breaks[l]) && All(breaks[l]) <= pending' {
      forall pc | pc in breaks[l] ensures pc !in changed { assert pc in All(breaks[l]); }
      ListsKept(code, loops[l].breaks, breaks[l], code');
    }
  }

  /** The breaks of one loop. */
  lemma BreaksOf(code: seq<Instr>, pending: set<nat>, loops: seq<Loop>, breaks: seq<seq<nat>>, l: nat)
    requires BreaksValid(code, pending, loops, breaks) && l < |loops|
    ensures Lists(code, loops[l].breaks, breaks[l]) && All(breaks[l]) <= pending
    ensures forall m :: 0 <= m < |breaks| && m != l ==> All(breaks[m]) !! All(breaks[l])
    ensures forall m :: 0 <= m < |breaks| ==> All(breaks[m]) <= pending
  {
    assert BreaksFacts(code, pending, loops, breaks);
    assert breaks[l] == breaks[l];
    forall m | 0 <= m < |breaks| ensures All(breaks[m]) <= pending && (m != l ==> All(breaks[m]) !! All(breaks[l])) {
      assert breaks[m] == breaks[m];
    }
  }

  lemma BreaksEntered(code: seq<Instr>, pending: set<nat>, loops: seq<Loop>, breaks: seq<seq<nat>>, base: nat)
    requires BreaksValid(code, pending, loops, breaks)
    ensures BreaksValid(code, pending, loops + [Loop(base, 0)], breaks + [[]])
  {
    assert BreaksFacts(code, pending, loops, breaks);
    assert All([]) == {};
    var loops', breaks' := loops + [Loop(base, 0)], breaks + [[]];
    assert forall l :: 0 <= l < |loops| ==> breaks'[l] == breaks[l] && loops'[l] == loops[l];
    assert BreaksFacts(code, pending, loops', breaks');
  }

  lemma BreaksLeft(code: seq<Instr>, pending: set<nat>, loops: seq<Loop>, breaks: seq<seq<nat>>)
    requires BreaksValid(code, pending, loops, breaks) && loops != []
    ensures BreaksValid(code, pending, loops[..|loops| - 1], breaks[..|loops| - 1])
    ensures forall l {:trigger breaks[l]} :: 0 <= l < |loops| - 1 ==> All(breaks[l]) !! All(breaks[|loops| - 1])
  {
    assert BreaksFacts(code, pending, loops, breaks);
    assert BreaksFacts(code, pending, loops[..|loops| - 1], breaks[..|loops| - 1]);
  }

  /** The innermost loop has one more break. */
  lemma BreaksJoined(code: seq<Instr>, pending: set<nat>, loops: seq<Loop>, breaks: seq<seq<nat>>, list: nat, pcs: seq<nat>)
    requires |breaks| == |loops| > 0 && BreaksValid(code, pending, loops[..|loops| - 1], breaks[..|loops| - 1])
    requires Lists(code, list, pcs) && All(pcs) <= pending && forall l :: 0 <= l < |loops| - 1 ==> All(breaks[l]) !! All(pcs)
    ensures BreaksValid(code, pending, loops[|loops| - 1 := loops[|loops| - 1].(breaks := list)], breaks[|loops| - 1 := pcs])
  {
    var n := |loops| - 1;
    var loops', breaks' := loops[n := loops[n].(breaks := list)], breaks[n := pcs];
    assert BreaksFacts(code, pending, loops[..n], breaks[..n]);
    forall l | 0 <= l < |loops'| ensures Lists(code, loops'[l].breaks, breaks'[l]) && All(breaks'[l]) <= pending {
      if l < n { assert breaks'[l] == breaks[..n][l] && loops'[l] == loops[..n][l]; }
    }
    assert BreaksFacts(code, pending, loops', breaks');
  }

  /** A new jump in front of a list. */
  lemma NewInFront(pending: set<nat>, pc: nat, pcs: seq<nat>)
    requires pc !in pending && All(pcs) <= pending && Distinct(pcs)
    ensures Distinct([pc] + pcs) && All([pc] + pcs) == {pc} + All(pcs)
  {
    forall q | q in pcs ensures q != pc { assert q in All(pcs); }
  }

  lemma BreakAdded(code: seq<Instr>, pending: set<nat>, loops: seq<Loop>, breaks: seq<seq<nat>>, code': seq<Instr>, list: nat)
    requires BreaksValid(code, pending, loops, breaks) && loops != [] && |code| !in pending
    requires |code'| == |code| + 1 && code'[..|code|] == code && Lists(code', list, [|code| as nat] + breaks[|loops| - 1])
    ensures BreaksValid(code', pending + {|code|}, loops[|loops| - 1 := loops[|loops| - 1].(breaks := list)],
      breaks[|loops| - 1 := [|code| as nat] + breaks[|loops| - 1]])
  {
    var n, pc := |loops| - 1, |code|;
    BreaksOf(code, pending, loops, breaks, n);
    BreaksLeft(code, pending, loops, breaks);
    forall k | 0 <= k < |code| ensures code'[k] == code[k] { assert code'[..|code|][k] == code[k]; }
    BreaksKept(code, pending, loops[..n], breaks[..n], code', pending + {pc}, {});
    NewInFront(pending, pc, breaks[n]);
    BreaksJoined(code', pending + {pc}, loops, breaks, list, [pc] + breaks[n]);
  }

  /** The breaks of the innermost loop have got their target. */
  lemma BreaksPatched(code: seq<Instr>, pending: set<nat>, targets: map<nat, nat>, loops: seq<Loop>, breaks: seq<seq<nat>>,
    code': seq<Instr>, pending': set<nat>, targets': map<nat, nat>, target: nat)
    requires BreaksValid(code, pending, loops, breaks) && loops != []
    requires Patching(code, pending, targets, code', pending', targets', breaks[|loops| - 1], target)
    ensures BreaksValid(code', pending', loops[..|loops| - 1], breaks[..|loops| - 1])
  {
    BreaksLeft(code, pending, loops, breaks);
    BreaksKept(code, pending, loops[..|loops| - 1], breaks[..|loops| - 1], code', pending', All(breaks[|loops| - 1]));
  }

  /** Without a branch that waits, every branch goes where it has been told to. */
  lemma AllSent(code: seq<Instr>, targets: map<nat, nat>)
    requires BranchesValid(code, {}, targets)
    ensures forall pc {:trigger code[pc]} :: 0 <= pc < |code| && IsBranch(code[pc]) ==> pc in targets && pc + 1 + code[pc].sbx == targets[pc]
  {
    assert BranchesFacts(code, {}, targets);
    forall pc {:trigger code[pc]} | 0 <= pc < |code| && IsBranch(code[pc]) ensures pc in targets && pc + 1 + code[pc].sbx == targets[pc] {
      assert BranchValid(code, {}, targets, pc);
    }
  }

  /** The control flow of a function under compilation. */
  class LoopState {
    var code: seq<Instr>
    var unresolvedJumps: int
    var loops: seq<Loop>
    var blocks: nat
    ghost var pending: set<nat>
    ghost var targets: map<nat, nat>
    ghost var breaks: seq<seq<nat>>

    /** The count is right, and each branch waits or goes where it has been told to. */
    ghost predicate Counted()
      reads `code, `unresolvedJumps, `pending, `targets
    {
      unresolvedJumps == |pending| && BranchesValid(code, pending, targets)
    }

    ghost predicate Valid()
      reads this
    {
      Counted() && BreaksValid(code, pending, loops, breaks) &&
      BasesRise(loops, blocks)
    }

    constructor ()
      ensures Valid() && code == [] && unresolvedJumps == 0 && loops == [] && blocks == 0 && pending == {} && targets == map[]
    {
      code, unresolvedJumps, loops, blocks := [], 0, [], 0;
      pending, targets, breaks := {}, map[], [];
    }

    /** Code without branches. */
    method Emit(i: Instr)
      requires Valid() && !IsBranch(i)
      modifies this`code
      ensures Valid() && code == old(code) + [i]
    {
      Appended(code, pending, targets, i);
      code := code + [i];
      BreaksKept(old(code), pending, loops, breaks, code, pending, {});
    }

    /** A branch without a target. */
    method EmitWaiting(i: Instr) returns (pc: nat)
      requires Valid() && IsBranch(i) && i.sbx == -1
      modifies this`code, this`unresolvedJumps, this`pending
      ensures Valid() && pc == |old(code)| && code == old(code) + [i] && pending == old(pending) + {pc} && pc !in old(pending)
      ensures unresolvedJumps == old(unresolvedJumps) + 1
    {
      Appended(code, pending, targets, i);
      pc := |code|;
      code := code + [i];
      unresolvedJumps := unresolvedJumps + 1;
      pending := pending + {pc};
      BreaksKept(old(code), old(pending), loops, breaks, code, pending, {});
    }

    method EmitJump() returns (list: nat)
      requires Valid()
      modifies this`code, this`unresolvedJumps, this`pending
      ensures Valid() && code == old(code) + [Jump(-1)] && pending == old(pending) + {|old(code)|} && list == |old(code)| + 1
      ensures unresolvedJumps == old(unresolvedJumps) + 1 && |old(code)| !in old(pending) && Lists(code, list, [|old(code)|])
    {
      var pc := EmitWaiting(Jump(-1));
      list := pc + 1;
      assert Linked(code, [pc], 0);
    }

    method NextJump(list: nat, ghost pcs: seq<nat>, ghost i: nat) returns (next: nat)
      requires i < |pcs| && Distinct(pcs) && list == pcs[i] + 1 && Linked(code, pcs, i)
      ensures next == Head(pcs[i + 1..])
    {
      var offset := code[list - 1].sbx;
      if offset == -1 {
        return 0;
      }
      next := list - 1 + 1 + offset + 1;
    }

    /** Sets the offset of a branch, if it is not too far. */
    method SetControlTarget(pc: nat, target: nat) returns (far: bool)
      requires pc < |code| && IsBranch(code[pc])
      modifies this`code
      ensures far <==> !(-MAX_OFFSET <= target - (pc + 1) <= MAX_OFFSET)
      ensures code == if far then old(code) else old(code)[pc := Aimed(old(code)[pc], target - (pc + 1))]
    {
      var offset := target - (pc + 1);
      far := offset < -MAX_OFFSET || offset > MAX_OFFSET;
      if !far {
        code := code[pc := Aimed(code[pc], offset)];
      }
    }

    /** The jump at the end of a list. */
    method LastJump(list: nat, ghost pcs: seq<nat>) returns (tail: nat)
      requires Lists(code, list, pcs) && pcs != []
      ensures tail == pcs[|pcs| - 1] + 1
    {
      tail := list;
      ghost var i := 0;
      assert Linked(code, pcs, 0);
      var next := NextJump(tail, pcs, 0);
      while next != 0
        invariant i < |pcs| && tail == pcs[i] + 1 && next == Head(pcs[i + 1..])
        decreases |pcs| - i
      {
        tail := next;
        i := i + 1;
        assert Linked(code, pcs, i);
        next := NextJump(tail, pcs, i);
      }
    }

    /** Appends the second list to the first, which no loop knows. */
    method JoinJumps(first: nat, second: nat, ghost xs: seq<nat>, ghost ys: seq<nat>) returns (far: bool, joined: nat)
      requires Counted() && Lists(code, first, xs) && All(xs) <= pending && Lists(code, second, ys) && Distinct(xs + ys) && All(ys) <= pending
      modifies this`code
      ensures Counted() && |code| == |old(code)| && forall pc :: 0 <= pc < |code| && pc !in xs ==> code[pc] == old(code)[pc]
      ensures !far ==> Lists(code, joined, xs + ys)
      ensures far ==> |code| > MAX_OFFSET
    {
      if first == 0 {
        assert xs + ys == ys;
        return false, second;
      }
      if second == 0 {
        assert xs + ys == xs;
        return false, first;
      }
      var tail := LastJump(first, xs);
      assert Linked(code, xs, |xs| - 1) && Linked(code, ys, 0);
      ghost var last := xs[|xs| - 1];
      assert last in All(xs);
      Relinked(code, pending, targets, last, (ys[0] as int) - (last + 1));
      far := SetControlTarget(tail - 1, second - 1);
      joined := first;
      if !far {
        Joined(old(code), xs, ys, code);
      }
    }

    /** One jump of a list gets its target. */
    method PatchOne(list: nat, target: nat, ghost pc: nat) returns (far: bool)
      requires Counted() && list == pc + 1 && pc in pending && target <= |code|
      modifies this`code, this`unresolvedJumps, this`pending, this`targets
      ensures !far ==> Counted() && pc < |old(code)| && IsBranch(old(code)[pc]) && code == old(code)[pc := Aimed(old(code)[pc], target - (pc + 1))]
      ensures !far ==> pending == old(pending) - {pc} && targets == old(targets)[pc := target]
      ensures |code| == |old(code)| && (far ==> |code| > MAX_OFFSET)
    {
      Sent(code, pending, targets, pc, target);
      far := SetControlTarget(list - 1, target);
      if !far {
        unresolvedJumps := unresolvedJumps - 1;
        pending, targets := pending - {pc}, targets[pc := target];
      }
    }

    /** All jumps of a list get their target. */
    method PatchJumps(list: nat, target: nat, ghost pcs: seq<nat>) returns (far: bool)
      requires Counted() && Lists(code, list, pcs) && All(pcs) <= pending && target <= |code|
      modifies this`code, this`unresolvedJumps, this`pending, this`targets
      ensures !far ==> Counted() && Patching(old(code), old(pending), old(targets), code, pending, targets, pcs, target)
      ensures |code| == |old(code)| && (far ==> |code| > MAX_OFFSET)
    {
      far := false;
      var rest := list;
      ghost var i := 0;
      PatchingNone(code, pending, targets, target);
      assert pcs[..0] == [];
      while rest != 0
        invariant i <= |pcs| && rest == Head(pcs[i..]) && Counted() && target <= |old(code)|
        invariant Patching(old(code), old(pending), old(targets), code, pending, targets, pcs[..i], target)
        decreases |pcs| - i
      {
        far, rest := PatchNext(rest, target, pcs, i, old(code), old(pending), old(targets));
        if far {
          return;
        }
        i := i + 1;
      }
      assert pcs[..i] == pcs;
    }

    method PatchNext(list: nat, target: nat, ghost pcs: seq<nat>, ghost i: nat, ghost code0: seq<Instr>, ghost pending0: set<nat>, ghost targets0: map<nat, nat>)
      returns (far: bool, rest: nat)
      requires Counted() && i < |pcs| && list == pcs[i] + 1 && Lists(code0, Head(pcs), pcs) && All(pcs) <= pending0 && target <= |code0|
      requires Patching(code0, pending0, targets0, code, pending, targets, pcs[..i], target)
      modifies this`code, this`unresolvedJumps, this`pending, this`targets
      ensures !far ==> Counted() && rest == Head(pcs[i + 1..])
      ensures !far ==> Patching(code0, pending0, targets0, code, pending, targets, pcs[..i + 1], target)
      ensures |code| == |old(code)| && (far ==> |code| > MAX_OFFSET)
    {
      ghost var pc := pcs[i];
      assert Linked(code0, pcs, i) && pc !in pcs[..i] && pc in All(pcs) && pc !in All(pcs[..i]);
      assert pcs[..i + 1] == pcs[..i] + [pc];
      rest := NextJump(list, pcs, i);
      PatchingOn(code0, pending0, targets0, code, pending, targets, pcs[..i], target, pc, Aimed(code[pc], target - (pc + 1)));
      far := PatchOne(list, target, pc);
    }

    /** The start or end of a numeric loop. */
    method EmitPendingBranch(i: Instr) returns (pc: nat)
      requires Valid() && (i.ForPrep? || i.ForLoop?) && i.sbx == -1
      modifies this`code, this`unresolvedJumps, this`pending
      ensures Valid() && pc == |old(code)| && code == old(code) + [i] && pending == old(pending) + {pc} && pc !in old(pending)
      ensures unresolvedJumps == old(unresolvedJumps) + 1
    {
      pc := EmitWaiting(i);
    }

    method PatchBranch(pc: nat, target: nat) returns (far: bool)
      requires Valid() && pc in pending && pc < |code| && (code[pc].ForPrep? || code[pc].ForLoop?) && target <= |code|
      modifies this`code, this`unresolvedJumps, this`pending, this`targets
      ensures !far ==> Valid() && code == old(code)[pc := Aimed(old(code)[pc], target - (pc + 1))] && pending == old(pending) - {pc} && targets == old(targets)[pc := target]
      ensures |code| == |old(code)| && (far ==> |code| > MAX_OFFSET)
    {
      BreaksJump(code, pending, loops, breaks);
      far := PatchOne(pc + 1, target, pc);
      if !far {
        BreaksKept(old(code), old(pending), loops, breaks, code, pending, {pc});
      }
    }

    // ----- blocks and loops -----

    method EnterBlock()
      requires Valid()
      modifies this`blocks
      ensures Valid() && blocks == old(blocks) + 1
    {
      blocks := blocks + 1;
    }

    /** Leaves a block that is inside the innermost loop. */
    method LeaveBlock()
      requires Valid() && blocks > 0 && (loops != [] ==> loops[|loops| - 1].blockBase < blocks)
      modifies this`blocks
      ensures Valid() && blocks == old(blocks) - 1
    {
      blocks := blocks - 1;
    }

    method EnterLoop()
      requires Valid()
      modifies this`loops, this`breaks
      ensures Valid() && loops == old(loops) + [Loop(blocks, 0)] && breaks == old(breaks) + [[]]
    {
      BreaksEntered(code, pending, loops, breaks, blocks);
      loops := loops + [Loop(blocks, 0)];
      breaks := breaks + [[]];
    }

    /** A jump out of the innermost loop. */
    method JoinBreak() returns (far: bool)
      requires Valid() && loops != []
      modifies this`code, this`unresolvedJumps, this`pending, this`loops, this`breaks
      ensures !far ==> Valid() && |code| == |old(code)| + 1 && code[..|old(code)|] == old(code) && pending == old(pending) + {|old(code)|}
      ensures !far ==> |loops| == |old(loops)| && loops[..|loops| - 1] == old(loops)[..|loops| - 1] && loops[|loops| - 1].blockBase == old(loops)[|loops| - 1].blockBase
      ensures !far ==> |old(breaks)| == |loops| && breaks == old(breaks)[|loops| - 1 := [|old(code)|] + old(breaks)[|loops| - 1]]
      ensures far ==> |code| > MAX_OFFSET
    {
      ghost var pc := |code|;
      var index := |loops| - 1;
      BreaksOf(code, pending, loops, breaks, index);
      var exit := EmitJump();
      BreaksOf(code, pending, loops, breaks, index);
      NewInFront(old(pending), pc, breaks[index]);
      var joined;
      far, joined := JoinJumps(exit, loops[index].breaks, [pc], breaks[index]);
      if !far {
        BreakAdded(old(code), old(pending), loops, breaks, code, joined);
        loops := loops[index := loops[index].(breaks := joined)];
        breaks := breaks[index := [pc] + breaks[index]];
      }
    }

    /** Leaves the innermost loop, closing cells on the way if asked to. */
    method EmitBreak(close: bool) returns (r: Outcome)
      requires Valid()
      modifies this`code, this`unresolvedJumps, this`pending, this`loops, this`breaks
      ensures r in {Done, NoLoop, TooLong} && (r == NoLoop <==> old(loops) == [])
      ensures r == Done ==> Valid() && |code| == |old(code)| + (if close then 2 else 1) && code[..|old(code)|] == old(code)
      ensures r == Done ==> |loops| == |old(loops)| && loops[..|loops| - 1] == old(loops)[..|loops| - 1] && loops[|loops| - 1].blockBase == old(loops)[|loops| - 1].blockBase
      ensures r == Done ==> pending == old(pending) + {|code| - 1} && |old(breaks)| == |loops|
      ensures r == Done ==> breaks == old(breaks)[|loops| - 1 := [|code| - 1 as nat] + old(breaks)[|loops| - 1]]
      ensures r == TooLong ==> |code| > MAX_OFFSET
    {
      if |loops| == 0 {
        return NoLoop;
      }
      if close {
        Emit(Other);
      }
      var far := JoinBreak();
      r := if far then TooLong else Done;
    }

    /** The breaks of the innermost loop go here. */
    method LeaveLoop() returns (far: bool)
      requires Valid() && loops != [] && blocks == loops[|loops| - 1].blockBase
      modifies this`code, this`unresolvedJumps, this`pending, this`targets, this`loops, this`breaks
      ensures !far ==> Valid() && |old(breaks)| == |old(loops)| && loops == old(loops)[..|old(loops)| - 1] && breaks == old(breaks)[..|old(loops)| - 1]
      ensures !far ==> Patching(old(code), old(pending), old(targets), code, pending, targets, old(breaks)[|old(loops)| - 1], |code|)
      ensures far ==> |code| > MAX_OFFSET
    {
      var index := |loops| - 1;
      ghost var leaving := breaks[index];
      BreaksOf(code, pending, loops, breaks, index);
      far := PatchJumps(loops[index].breaks, |code|, leaving);
      if far {
        return;
      }
      BreaksPatched(old(code), old(pending), old(targets), loops, breaks, code, pending, targets, |code|);
      loops := loops[..index];
      breaks := breaks[..index];
    }

    // ----- the end of the function -----

    /** Ends the function with its last return, and accepts it exactly if no branch waits. Then every branch goes to an
        instruction of the function: the one that it was told last. */
    method Finish() returns (r: Outcome)
      requires Valid() && loops == []
      modifies this`code
      ensures Valid() && code == old(code) + [Return] && r in {Done, Unresolved} && (r == Done <==> pending == {})
      ensures r == Done ==> forall pc {:trigger code[pc]} :: 0 <= pc < |code| && IsBranch(code[pc]) ==>
        pc in targets && pc + 1 + code[pc].sbx == targets[pc] < |code|
    {
      TargetsInside(code, pending, targets);
      Emit(Return);
      if unresolvedJumps != 0 {
        return Unresolved;
      }
      assert pending == {};
      AllSent(code, targets);
      return Done;
    }
  }
}
