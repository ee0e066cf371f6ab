/** The mutable code of one function under compilation: emission, registers, constants and the
    pending jump lists threaded through the instructions themselves. */
module Emitter {
  import opened Machine

  datatype Status = Success | Failure(message: string) {
    predicate IsFailure() { Failure? }
    function PropagateFailure(): Status requires Failure? { this }
  }

  datatype Kind =
    | Invalid
    | Literal(value: Value)
    | Local(register: nat)
    | Global(constant: nat)
    | Deferred(pc: nat)
    | Temporary(register: nat)
    | Condition(pc: nat)

  /** A transient description of a compiled expression.  A jump list is 0 when empty and otherwise
      the pc of its head plus one. */
  datatype Descriptor = Descriptor(kind: Kind, trueExits: nat, falseExits: nat)

  /** The instructions whose destination may be left open. */
  predicate Bindable(i: Instr) {
    i.GetGlobal? || i.Arith? || i.UnaryOp? || i.NotOp? || i.ConcatOp?
  }

  function WithA(i: Instr, a: nat): Instr
    requires Bindable(i)
  {
    match i
    case GetGlobal(_, bx) => GetGlobal(a, bx)
    case Arith(op, _, b, c) => Arith(op, a, b, c)
    case UnaryOp(op, _, b) => UnaryOp(op, a, b)
    case NotOp(_, b) => NotOp(a, b)
    case ConcatOp(_, b, c) => ConcatOp(a, b, c)
  }

  function Inverted(i: Instr): Instr
    requires i.Comparison?
  {
    Comparison(i.op, !i.polarity, i.b, i.c)
  }

  // ----- jump lists -----

  ghost predicate Distinct(pcs: seq<nat>) {
    forall i, j :: 0 <= i < j < |pcs| ==> pcs[i] != pcs[j]
  }

  function Link(pcs: seq<nat>, i: nat): int
    requires i < |pcs|
  {
    if i + 1 < |pcs| then (pcs[i + 1] as int) - (pcs[i] as int) - 1 else -1
  }

  function Head(pcs: seq<nat>): nat {
    if |pcs| == 0 then 0 else pcs[0] + 1
  }

  /** `list` denotes exactly the jumps `pcs`, in order; the -1 that ends a chain can never be the
      link of an inner member because members are distinct. */
  ghost predicate IsChain(code: seq<Instr>, list: nat, pcs: seq<nat>) {
    && list == Head(pcs)
    && Distinct(pcs)
    && (forall i :: 0 <= i < |pcs| ==> ChainAt(code, pcs, i))
  }

  ghost predicate ChainAt(code: seq<Instr>, pcs: seq<nat>, i: nat)
    requires i < |pcs|
  {
    pcs[i] < |code| && code[pcs[i]] == Jump(Link(pcs, i))
  }

  ghost predicate AllJumps(code: seq<Instr>, pcs: seq<nat>) {
    forall j :: j in pcs ==> j < |code| && code[j].Jump?
  }

  lemma {:induction false} ChainJumps(code: seq<Instr>, list: nat, pcs: seq<nat>)
    requires IsChain(code, list, pcs)
    ensures AllJumps(code, pcs)
  {
    forall j | j in pcs ensures j < |code| && code[j].Jump? {
      var i :| 0 <= i < |pcs| && pcs[i] == j;
      assert ChainAt(code, pcs, i);
    }
  }

  /** Chains only depend on the instructions of their members. */
  lemma {:induction false} ChainKept(code: seq<Instr>, list: nat, pcs: seq<nat>, code': seq<Instr>)
    requires IsChain(code, list, pcs)
    requires forall j :: j in pcs ==> j < |code'| && (j < |code| ==> code'[j] == code[j])
    ensures IsChain(code', list, pcs)
  {
    forall i | 0 <= i < |pcs| ensures ChainAt(code', pcs, i) {
      assert ChainAt(code, pcs, i) && pcs[i] in pcs;
    }
  }

  predicate CopiesBefore(code: seq<Instr>, j: nat) {
    0 < j <= |code| && code[j - 1].TestSet?
  }

  /** The control instruction of a jump after its copy is directed to `register`, or dropped when
      there is no destination or the value is already there. */
  function Redirected(control: Instr, register: nat): Instr
    requires control.TestSet?
  {
    if register != NO_REGISTER && register != control.b then TestSet(register, control.b, control.when)
    else Test(control.b, control.when)
  }

  function PatchedAt(code: seq<Instr>, pcs: seq<nat>, valueTarget: nat, register: nat, defaultTarget: nat, k: nat): Instr
    requires k < |code|
  {
    if k in pcs then Jump((if CopiesBefore(code, k) then valueTarget else defaultTarget) - (k + 1))
    else if k + 1 in pcs && code[k].TestSet? then Redirected(code[k], register)
    else code[k]
  }

  /** The code after every jump of `pcs` is resolved: to `valueTarget` behind a TESTSET, which then
      copies into `register`, and to `defaultTarget` otherwise. */
  function Patched(code: seq<Instr>, pcs: seq<nat>, valueTarget: nat, register: nat, defaultTarget: nat): (r: seq<Instr>)
    ensures |r| == |code|
  {
    seq(|code|, k requires 0 <= k < |code| => PatchedAt(code, pcs, valueTarget, register, defaultTarget, k))
  }

  function DiscardedAt(code: seq<Instr>, pcs: seq<nat>, k: nat): Instr
    requires k < |code|
  {
    if k + 1 in pcs && code[k].TestSet? then Redirected(code[k], NO_REGISTER) else code[k]
  }

  /** The code after the copies in front of the jumps `pcs` are dropped; the jumps stay pending. */
  function Discarded(code: seq<Instr>, pcs: seq<nat>): (r: seq<Instr>)
    ensures |r| == |code|
  {
    seq(|code|, k requires 0 <= k < |code| => DiscardedAt(code, pcs, k))
  }

  /** One pending jump resolved. */
  function PatchedOne(code: seq<Instr>, j: nat, valueTarget: nat, register: nat, defaultTarget: nat): (r: seq<Instr>)
    requires j < |code|
    ensures |r| == |code|
  {
    if CopiesBefore(code, j) then
      code[j - 1 := Redirected(code[j - 1], register)][j := Jump(valueTarget - (j + 1))]
    else code[j := Jump(defaultTarget - (j + 1))]
  }

  lemma {:induction false} PatchOneMore(code: seq<Instr>, pcs: seq<nat>, i: nat, vt: nat, r: nat, dt: nat)
    requires i < |pcs| && Distinct(pcs)
    requires AllJumps(code, pcs) && pcs[i] in pcs
    ensures Patched(code, pcs[..i], vt, r, dt)[pcs[i]] == code[pcs[i]]
    ensures PatchedOne(Patched(code, pcs[..i], vt, r, dt), pcs[i], vt, r, dt) == Patched(code, pcs[..i + 1], vt, r, dt)
  {
    var j := pcs[i];
    assert pcs[..i + 1] == pcs[..i] + [j];
    assert j !in pcs[..i];
    if CopiesBefore(code, j) {
      assert j - 1 !in pcs[..i + 1];
    }
  }

  lemma {:induction false} JoinChains(before: seq<Instr>, xs: seq<nat>, ys: seq<nat>, after: seq<Instr>)
    requires xs != [] && ys != [] && Distinct(xs + ys)
    requires IsChain(before, Head(xs), xs) && IsChain(before, Head(ys), ys)
    requires var last := xs[|xs| - 1]; last < |before| && after == before[last := Jump((ys[0] as int) - (last + 1))]
    ensures IsChain(after, Head(xs), xs + ys)
  {
    var all := xs + ys;
    assert ChainAt(before, xs, |xs| - 1);
    forall k | 0 <= k < |all| ensures ChainAt(after, all, k) {
      if k < |xs| {
        assert ChainAt(before, xs, k) && all[k] == xs[k];
      } else {
        assert ChainAt(before, ys, k - |xs|) && all[k] == ys[k - |xs|] && all[k] != all[|xs| - 1];
      }
    }
  }

  lemma {:induction false} DiscardOneMore(code: seq<Instr>, pcs: seq<nat>, i: nat)
    requires i < |pcs| && Distinct(pcs)
    requires AllJumps(code, pcs) && pcs[i] in pcs
    ensures pcs[..i + 1] == pcs[..i] + [pcs[i]]
    ensures var before := Discarded(code, pcs[..i]);
            var j := pcs[i];
            && before[j] == code[j]
            && CopiesBefore(before, j) == CopiesBefore(code, j)
            && (CopiesBefore(code, j) ==> before[j - 1] == code[j - 1])
            && (if CopiesBefore(code, j) then before[j - 1 := Redirected(code[j - 1], NO_REGISTER)] else before)
               == Discarded(code, pcs[..i + 1])
  {
    assert pcs[..i + 1] == pcs[..i] + [pcs[i]];
    assert pcs[i] !in pcs[..i];
  }

  // ----- the function state -----

  class FunctionState {
    const numbers: Numbers
    var code: seq<Instr>
    var constants: seq<Value>
    var constantIndexes: map<Value, nat>
    var registerTop: nat
    var registerHigh: nat
    var registerFloor: nat
    var unresolvedJumps: int
    var pendingResults: int

    ghost predicate Valid()
      reads this
    {
      && registerFloor <= registerTop <= registerHigh <= MAX_REGISTERS
      && |constants| <= MAX_BX + 1
      && pendingResults >= 0
      && (forall v :: v in constantIndexes ==> constantIndexes[v] < |constants| && constants[constantIndexes[v]] == v)
    }

    constructor (numbers: Numbers, locals: nat)
      requires locals <= MAX_REGISTERS
      ensures Valid() && this.numbers == numbers && code == [] && constants == []
      ensures registerTop == registerFloor == locals && unresolvedJumps == pendingResults == 0
    {
      this.numbers := numbers;
      code, constants, constantIndexes := [], [], map[];
      registerTop, registerFloor := locals, locals;
      registerHigh := if locals < 2 then 2 else locals;
      unresolvedJumps, pendingResults := 0, 0;
    }

    method Constant(value: Value) returns (status: Status, index: nat)
      requires Valid()
      modifies this`constants, this`constantIndexes
      ensures Valid() && old(constants) <= constants
      ensures status.Success? ==> index < |constants| && constants[index] == value
      ensures status.Success? ==> |constants| <= |old(constants)| + 1
      ensures status.Failure? ==> |old(constants)| == MAX_BX + 1
    {
      index := 0;
      if value in constantIndexes {
        return Success, constantIndexes[value];
      }
      if |constants| == MAX_BX + 1 {
        return Failure("function has too many constants"), 0;
      }
      index := |constants|;
      constants := constants + [value];
      constantIndexes := constantIndexes[value := index];
      status := Success;
    }

    method Emit(instruction: Instr) returns (pc: nat)
      modifies this`code
      ensures pc == |old(code)| && code == old(code) + [instruction]
    {
      pc := |code|;
      code := code + [instruction];
    }

    method EmitDeferred(instruction: Instr) returns (pc: nat)
      modifies this`code, this`pendingResults
      ensures pc == |old(code)| && code == old(code) + [instruction]
      ensures pendingResults == old(pendingResults) + 1
    {
      pc := Emit(instruction);
      pendingResults := pendingResults + 1;
    }

    method BindResult(pc: nat, register: nat)
      requires pc < |code| && Bindable(code[pc]) && code[pc].a == NO_REGISTER
      requires pendingResults > 0
      modifies this`code, this`pendingResults
      ensures code == old(code)[pc := WithA(old(code)[pc], register)]
      ensures pendingResults == old(pendingResults) - 1
    {
      code := code[pc := WithA(code[pc], register)];
      pendingResults := pendingResults - 1;
    }

    /** Removes an unbound NOT that ends the code, so that its consumer can branch on the operand. */
    method TakeDeferredNot(kind: Kind) returns (taken: bool, register: nat)
      requires kind.Deferred? ==> kind.pc < |code| && pendingResults > 0
      modifies this`code, this`pendingResults
      ensures taken <==> kind.Deferred? && kind.pc == |old(code)| - 1 &&
                         old(code)[kind.pc].NotOp? && old(code)[kind.pc].a == NO_REGISTER
      ensures taken ==> code == old(code)[..|old(code)| - 1] && register == old(code)[kind.pc].b &&
                        pendingResults == old(pendingResults) - 1
      ensures !taken ==> code == old(code) && pendingResults == old(pendingResults)
    {
      if !kind.Deferred? || kind.pc != |code| - 1 || !code[kind.pc].NotOp? || code[kind.pc].a != NO_REGISTER {
        return false, 0;
      }
      register := code[kind.pc].b;
      code := code[..kind.pc];
      pendingResults := pendingResults - 1;
      taken := true;
    }

    method ReserveRegisters(count: nat) returns (status: Status, base: nat)
      requires Valid()
      modifies this`registerTop, this`registerHigh
      ensures Valid() && registerHigh >= old(registerHigh)
      ensures status.Success? <==> old(registerTop) + count <= MAX_REGISTERS
      ensures status.Success? ==> base == old(registerTop) && registerTop == base + count
      ensures status.Failure? ==> registerTop == old(registerTop)
    {
      base := registerTop;
      if count > MAX_REGISTERS - base {
        return Failure("function requires too many registers"), 0;
      }
      registerTop := registerTop + count;
      if registerTop > registerHigh {
        registerHigh := registerTop;
      }
      status := Success;
    }

    method ReleaseRegisters(mark: nat)
      requires Valid() && registerFloor <= mark <= registerTop
      modifies this`registerTop
      ensures Valid() && registerTop == mark
    {
      registerTop := mark;
    }

    method EmitJump() returns (list: nat)
      modifies this`code, this`unresolvedJumps
      ensures list == |old(code)| + 1 && code == old(code) + [Jump(-1)]
      ensures unresolvedJumps == old(unresolvedJumps) + 1
    {
      var pc := Emit(Jump(-1));
      unresolvedJumps := unresolvedJumps + 1;
      list := pc + 1;
    }

    method NextJump(list: nat, ghost pcs: seq<nat>, ghost i: nat) returns (next: nat)
      requires i < |pcs| && Distinct(pcs) && list == pcs[i] + 1
      requires ChainAt(code, pcs, i)
      ensures next == Head(pcs[i + 1..])
    {
      var pc := list - 1;
      var offset := code[pc].sbx;
      if offset == -1 {
        return 0;
      }
      next := pc + 1 + offset + 1;
    }

    method SetControlTarget(pc: nat, target: nat) returns (status: Status)
      requires pc < |code| && code[pc].Jump?
      modifies this`code
      ensures status.Success? <==> -MAX_SBX <= target - (pc + 1) <= MAX_SBX
      ensures status.Success? ==> code == old(code)[pc := Jump(target - (pc + 1))]
      ensures status.Failure? ==> code == old(code)
    {
      var offset := target - (pc + 1);
      if offset < -MAX_SBX || offset > MAX_SBX {
        return Failure("control structure is too long");
      }
      code := code[pc := Jump(offset)];
      status := Success;
    }

    /** Appends the second list to the first. */
    method JoinJumps(first: nat, second: nat, ghost xs: seq<nat>, ghost ys: seq<nat>) returns (status: Status, joined: nat)
      requires IsChain(code, first, xs) && IsChain(code, second, ys) && Distinct(xs + ys)
      modifies this`code
      ensures |code| == |old(code)|
      ensures forall k :: 0 <= k < |code| && k !in xs ==> code[k] == old(code)[k]
      ensures status.Success? ==> IsChain(code, joined, xs + ys)
      ensures status.Failure? ==> |code| > MAX_SBX
    {
      if first == 0 {
        assert xs + ys == ys;
        return Success, second;
      }
      if second == 0 {
        assert xs + ys == xs;
        return Success, first;
      }
      ChainJumps(code, first, xs);
      ChainJumps(code, second, ys);
      assert ys[0] in ys && xs[|xs| - 1] in xs;
      var tail := first;
      ghost var i := 0;
      var next := NextJump(tail, xs, 0);
      while next != 0
        invariant code == old(code)
        invariant i < |xs| && tail == xs[i] + 1 && next == Head(xs[i + 1..])
        decreases |xs| - i
      {
        tail := next;
        i := i + 1;
        next := NextJump(tail, xs, i);
      }
      assert i == |xs| - 1;
      status := SetControlTarget(tail - 1, second - 1);
      joined := first;
      if status.Success? {
        JoinChains(old(code), xs, ys, code);
      }
    }

    /** Directs or drops the copy in front of a pending jump; false when there is none. */
    method PatchTestDestination(jump: nat, register: nat) returns (copies: bool)
      requires 0 < jump <= |code|
      modifies this`code
      ensures copies == CopiesBefore(old(code), jump - 1)
      ensures code == if copies then old(code)[jump - 2 := Redirected(old(code)[jump - 2], register)] else old(code)
    {
      var pc := jump - 1;
      if pc == 0 {
        return false;
      }
      var control := code[pc - 1];
      if !control.TestSet? {
        return false;
      }
      if register != NO_REGISTER && register != control.b {
        code := code[pc - 1 := TestSet(register, control.b, control.when)];
      } else {
        code := code[pc - 1 := Test(control.b, control.when)];
      }
      copies := true;
    }

    method JumpListNeedsValue(list: nat, ghost pcs: seq<nat>) returns (needed: bool)
      requires IsChain(code, list, pcs)
      ensures needed <==> exists j :: j in pcs && !CopiesBefore(code, j)
    {
      var rest := list;
      ghost var i := 0;
      while rest != 0
        invariant i <= |pcs| && rest == Head(pcs[i..])
        invariant forall k :: 0 <= k < i ==> CopiesBefore(code, pcs[k])
        decreases |pcs| - i
      {
        var pc := rest - 1;
        assert ChainAt(code, pcs, i);
        if pc == 0 || !code[pc - 1].TestSet? {
          assert pcs[i] in pcs;
          return true;
        }
        rest := NextJump(rest, pcs, i);
        i := i + 1;
      }
      needed := false;
    }

    method PatchJump(jump: nat, valueTarget: nat, register: nat, defaultTarget: nat) returns (status: Status)
      requires 0 < jump <= |code| && code[jump - 1].Jump?
      requires valueTarget <= |code| && defaultTarget <= |code|
      modifies this`code
      ensures status.Success? ==> code == PatchedOne(old(code), jump - 1, valueTarget, register, defaultTarget)
      ensures |code| == |old(code)| && (status.Failure? ==> |code| > MAX_SBX)
    {
      var target := defaultTarget;
      var copies := PatchTestDestination(jump, register);
      if copies {
        target := valueTarget;
      }
      status := SetControlTarget(jump - 1, target);
    }

    /** Resolves every jump of the list and counts it off. */
    method PatchConditionalJumps(list: nat, valueTarget: nat, register: nat, defaultTarget: nat, ghost pcs: seq<nat>)
      returns (status: Status)
      requires IsChain(code, list, pcs)
      requires valueTarget <= |code| && defaultTarget <= |code|
      modifies this`code, this`unresolvedJumps
      ensures status.Success? ==> code == Patched(old(code), pcs, valueTarget, register, defaultTarget)
      ensures status.Success? ==> unresolvedJumps == old(unresolvedJumps) - |pcs|
      ensures |code| == |old(code)| && (status.Failure? ==> |code| > MAX_SBX)
    {
      var rest := list;
      ghost var i := 0;
      ChainJumps(code, list, pcs);
      assert code == Patched(old(code), pcs[..0], valueTarget, register, defaultTarget);
      while rest != 0
        invariant i <= |pcs| && rest == Head(pcs[i..])
        invariant code == Patched(old(code), pcs[..i], valueTarget, register, defaultTarget)
        invariant unresolvedJumps == old(unresolvedJumps) - i
        decreases |pcs| - i
      {
        PatchOneMore(old(code), pcs, i, valueTarget, register, defaultTarget);
        assert ChainAt(old(code), pcs, i);
        var next := NextJump(rest, pcs, i);
        status := PatchJump(rest, valueTarget, register, defaultTarget);
        if status.Failure? {
          return;
        }
        unresolvedJumps := unresolvedJumps - 1;
        rest := next;
        i := i + 1;
      }
      assert pcs[..i] == pcs;
      status := Success;
    }

    method DiscardJumpValues(list: nat, ghost pcs: seq<nat>)
      requires IsChain(code, list, pcs)
      modifies this`code
      ensures code == Discarded(old(code), pcs)
    {
      var rest := list;
      ghost var i := 0;
      ChainJumps(code, list, pcs);
      assert code == Discarded(old(code), pcs[..0]);
      while rest != 0
        invariant i <= |pcs| && rest == Head(pcs[i..])
        invariant code == Discarded(old(code), pcs[..i])
        decreases |pcs| - i
      {
        DiscardOneMore(old(code), pcs, i);
        assert ChainAt(old(code), pcs, i);
        var copies := PatchTestDestination(rest, NO_REGISTER);
        rest := NextJump(rest, pcs, i);
        i := i + 1;
      }
      assert pcs[..i] == pcs;
    }

    method InvertComparison(pc: nat)
      requires 0 < pc < |code| && code[pc - 1].Comparison?
      modifies this`code
      ensures code == old(code)[pc - 1 := Inverted(old(code)[pc - 1])]
    {
      code := code[pc - 1 := Inverted(code[pc - 1])];
    }
  }

}
