/** Reasoning about code that still has pending jumps.

    `Refines` says how the compiler may change emitted code: append to it, relink or resolve a
    pending jump, and redirect or drop the copy a TESTSET makes in front of a pending jump.
    `Simulate` is the one induction over execution: whatever the open code did, the refined code
    does too, continuing at the new target of a jump that was resolved. */
module OpenCode {
  import opened Machine

  function Target(code: seq<Instr>, j: nat): int
    requires j < |code| && code[j].Jump?
  {
    j + 1 + code[j].sbx
  }

  /** Local shape of the code from `start` on: a control instruction has its jump behind it, and
      no resolved jump or skip lands between the two. */
  ghost predicate WellFormed(code: seq<Instr>, start: nat, pending: set<nat>) {
    && start <= |code|
    && (forall j :: j in pending ==> start <= j < |code| && code[j].Jump?)
    && (forall k :: start <= k < |code| ==> WellPlaced(code, pending, k))
  }

  ghost predicate WellPlaced(code: seq<Instr>, pending: set<nat>, k: nat)
    requires k < |code|
  {
    && (IsControl(code[k]) ==> k + 1 < |code| && code[k + 1].Jump?)
    && (code[k].TestSet? && k + 1 in pending ==> code[k].a == NO_REGISTER)
    && (code[k].LoadBool? && code[k].skip ==> k + 1 < |code| && !IsControl(code[k + 1]))
    && (code[k].Jump? && k !in pending ==> k < Target(code, k) <= |code| && !IsControl(code[Target(code, k) - 1]))
  }

  /** What may become of a control instruction whose jump is pending; `resolved` when that jump has
      been given its target. */
  predicate MayBecome(before: Instr, after: Instr, resolved: bool) {
    after == before ||
    (before.TestSet? && before.a == NO_REGISTER &&
     (after == Test(before.b, before.when) ||
      (resolved && after.TestSet? && after.b == before.b && after.when == before.when)))
  }

  ghost predicate Refines(code: seq<Instr>, pending: set<nat>, code': seq<Instr>, pending': set<nat>, start: nat) {
    && |code| <= |code'|
    && (forall k :: start <= k < |code| && k !in pending ==> k !in pending')
    && (forall k :: start <= k < |code| ==> RefinedAt(code, pending, code', pending', k))
  }

  ghost predicate RefinedAt(code: seq<Instr>, pending: set<nat>, code': seq<Instr>, pending': set<nat>, k: nat)
    requires k < |code| <= |code'|
  {
    if k in pending then
      code'[k].Jump? && (k !in pending' ==> k < Target(code', k) <= |code'|)
    else
      code'[k] == code[k] ||
      (k + 1 in pending && IsControl(code[k]) && MayBecome(code[k], code'[k], k + 1 !in pending'))
  }

  /** The copy a redirected TESTSET makes when its jump is taken. */
  function Copied(code: seq<Instr>, start: nat, j: nat, s: State): State
    requires start <= j < |code|
  {
    if j > start && code[j - 1].TestSet? then Write(s, code[j - 1].a, Read(s, code[j - 1].b)) else s
  }

  ghost predicate Carried(w: World, code: seq<Instr>, pending: set<nat>, out: Outcome,
                          code': seq<Instr>, pending': set<nat>, start: nat, out': Outcome)
    requires |code| <= |code'|
  {
    match out
    case Fell(s) => out' == Run(w, code', pending', |code|, s)
    case Raised(_) => out' == out
    case Stuck => true
    case Exited(j, s) =>
      start <= j < |code| && j in pending &&
      if j in pending' then out' == out
      else code'[j].Jump? && j < Target(code', j) &&
           out' == Run(w, code', pending', Target(code', j), Copied(code', start, j, s))
  }

  lemma {:induction false} Simulate(w: World, code: seq<Instr>, pending: set<nat>,
                                    code': seq<Instr>, pending': set<nat>, start: nat, pc: nat, s: State)
    requires WellFormed(code, start, pending)
    requires Refines(code, pending, code', pending', start)
    requires start <= pc <= |code| && |s.regs| <= MAX_REGISTERS
    requires pc in pending ==> pc == start || !IsControl(code[pc - 1])
    ensures Carried(w, code, pending, Run(w, code, pending, pc, s), code', pending', start, Run(w, code', pending', pc, s))
    decreases |code| - pc
  {
    if pc == |code| {
    } else if pc in pending {
      assert RefinedAt(code, pending, code', pending', pc);
      assert pc > start ==> RefinedAt(code, pending, code', pending', pc - 1);
    } else {
      assert WellPlaced(code, pending, pc);
      assert RefinedAt(code, pending, code', pending', pc);
      if IsControl(code[pc]) {
        SimulateControl(w, code, pending, code', pending', start, pc, s);
      } else {
        var (next, out) := Step(w, code, pc, s);
        if out.Fell? && pc < next {
          if next <= |code| {
            Simulate(w, code, pending, code', pending', start, next, out.state);
          }
        }
      }
    }
  }

  lemma {:induction false} SimulateControl(w: World, code: seq<Instr>, pending: set<nat>,
                                           code': seq<Instr>, pending': set<nat>, start: nat, pc: nat, s: State)
    requires WellFormed(code, start, pending)
    requires Refines(code, pending, code', pending', start)
    requires start <= pc < |code| && |s.regs| <= MAX_REGISTERS
    requires pc !in pending && IsControl(code[pc])
    ensures Carried(w, code, pending, Run(w, code, pending, pc, s), code', pending', start, Run(w, code', pending', pc, s))
    decreases |code| - pc, 0
  {
    assert WellPlaced(code, pending, pc) && WellPlaced(code, pending, pc + 1);
    assert RefinedAt(code, pending, code', pending', pc) && RefinedAt(code, pending, code', pending', pc + 1);
    var (next, out) := Step(w, code, pc, s);
    var (next', out') := Step(w, code', pc, s);
    if out.Fell? {
      assert next == pc + 1 || next == pc + 2;
      if next == pc + 2 {
        assert next' == next && out' == out;
        if next <= |code| {
          Simulate(w, code, pending, code', pending', start, next, out.state);
        }
      } else if pc + 1 in pending {
        assert Run(w, code, pending, pc, s) == Exited(pc + 1, out.state);
        assert out'.Fell? && next' == pc + 1;
        if pc + 1 in pending' {
          assert out'.state == out.state;
        } else {
          assert out'.state == Copied(code', start, pc + 1, out.state);
        }
      } else {
        assert code'[pc] == code[pc];
        Simulate(w, code, pending, code', pending', start, next, out.state);
      }
    }
  }
}
