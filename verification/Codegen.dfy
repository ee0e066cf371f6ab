/** The expression half of the one-pass compiler: descriptors are turned into instructions while
    `Compiled` keeps what the code means. */
module Codegen {
  import opened Machine
  import opened OpenCode
  import opened Emitter
  import opened Meaning
  import opened Lowering
  import opened Operands
  import opened Writing
  import opened Exits

  class SourceParser {
    const emitter: FunctionState

    ghost function Current(): Bounds
      reads emitter
    {
      Bounds(emitter.numbers, emitter.constants, emitter.registerHigh)
    }

    /** `v` describes the expression of `x`, whose code is all there is from `x.start` on. */
    ghost predicate Described(x: Site, v: Descriptor, ts: seq<nat>, fs: seq<nat>)
      reads emitter
    {
      && emitter.Valid() && emitter.registerFloor <= x.mark
      && IsChain(emitter.code, v.trueExits, ts)
      && IsChain(emitter.code, v.falseExits, fs)
      && Compiled(Current(), emitter.code, x.start, x.mark, NO_REGISTER, Yields(v.kind), Members(ts), Members(fs), x.expr)
      && (v.kind.Deferred? ==> emitter.pendingResults > 0)
      && (v.kind.Local? ==> v.kind.register < x.mark)
      && (v.kind.Temporary? ==> v.kind.register == x.mark)
    }

    /** No register above its own result is in use. */
    ghost predicate Holds(x: Site, v: Descriptor, ts: seq<nat>, fs: seq<nat>)
      reads emitter
    {
      Described(x, v, ts, fs) && emitter.registerTop == TopFor(x, v.kind)
    }

    /** Its value is in `target` on the path that falls through; only `target` may differ below the mark. */
    ghost predicate Written(x: Site, target: nat, v: Descriptor, ts: seq<nat>, fs: seq<nat>)
      reads emitter
    {
      && emitter.Valid()
      && v.kind == Temporary(target)
      && IsChain(emitter.code, v.trueExits, ts)
      && IsChain(emitter.code, v.falseExits, fs)
      && Compiled(Current(), emitter.code, x.start, x.mark, target, Yields(Temporary(target)), Members(ts), Members(fs), x.expr)
    }

    /** The only reasons to give up: a jump may be too long, the constants or the registers are used up. */
    ghost predicate Exhausted()
      reads emitter
    {
      |emitter.code| > MAX_SBX || |emitter.constants| > MAX_BX || emitter.registerTop >= MAX_REGISTERS
    }

    /** What compiling never undoes. */
    twostate predicate Grown()
      reads emitter
    {
      && emitter.Valid() && emitter.registerFloor == old(emitter.registerFloor)
      && old(emitter.registerHigh) <= emitter.registerHigh && old(emitter.constants) <= emitter.constants
    }

    constructor (emitter: FunctionState)
      ensures this.emitter == emitter
    {
      this.emitter := emitter;
    }

    method LoadLiteral(value: Value, target: nat) returns (status: Status, i: Instr)
      requires emitter.Valid()
      modifies emitter`constants, emitter`constantIndexes
      ensures emitter.Valid() && old(emitter.constants) <= emitter.constants
      ensures status.Failure? ==> Exhausted()
      ensures status.Success? ==> Loading(emitter.constants, i, value) && i.a == target
    {
      i := LoadNil(target, target);
      if value.Boolean? {
        i := LoadBool(target, value.b, false);
      } else if value != Nil {
        var index;
        status, index := emitter.Constant(value);
        if status.Failure? {
          return;
        }
        i := LoadK(target, index);
      }
      status := Success;
    }

    method WriteExpressionValue(v: Descriptor, target: nat, ghost x: Site, ghost ts: seq<nat>, ghost fs: seq<nat>)
      returns (status: Status, r: Descriptor)
      requires Described(x, v, ts, fs) && !v.kind.Condition? && target < emitter.registerHigh
      modifies emitter
      ensures emitter.Valid() && emitter.registerFloor == old(emitter.registerFloor) && emitter.registerTop == old(emitter.registerTop)
      ensures emitter.registerHigh == old(emitter.registerHigh) && old(emitter.constants) <= emitter.constants
      ensures emitter.unresolvedJumps == old(emitter.unresolvedJumps)
      ensures status.Failure? ==> Exhausted()
      ensures status.Success? ==> Written(x, target, r, ts, fs) && old(emitter.code)[..x.start] <= emitter.code
      ensures status.Success? ==> emitter.pendingResults == old(emitter.pendingResults) - Count(v.kind.Deferred?)
    {
      ghost var u, code0 := Current(), emitter.code;
      ghost var T, F := Members(ts), Members(fs);
      ghost var core := Core(code0, Yields(v.kind));
      r := v.(kind := Temporary(target));
      var i := LoadNil(target, target);
      match v.kind {
        case Literal(value) =>
          status, i := LoadLiteral(value, target);
          if status.Failure? {
            return;
          }
          var _ := emitter.Emit(i);
        case Local(register) =>
          i := Move(target, register);
          if target != register {
            var _ := emitter.Emit(i);
          }
        case Temporary(register) =>
          i := Move(target, register);
          if target != register {
            var _ := emitter.Emit(i);
          }
        case Deferred(pc) =>
          i := WithA(emitter.code[pc], target);
          emitter.BindResult(pc, target);
        case Global(k) =>
          i := GetGlobal(target, k);
          var _ := emitter.Emit(i);
        case _ => assert false;
      }
      if (v.kind.Local? || v.kind.Temporary?) && v.kind.register == target {
        AlreadyWritten(u, code0, x.start, x.mark, v.kind, T, F, x.expr);
      } else {
        assert emitter.code == core + [i];
        CoreChains(u, code0, x, NO_REGISTER, Yields(v.kind), v, ts, fs, emitter.code);
        ProducesKind(Current(), i, code0, v.kind);
        AppendCompute(u, Current(), code0, x.start, x.mark, target, v.kind, T, F, x.expr, i);
      }
      status := Success;
    }

    /** Turns the jump of an undecided comparison into one more true exit; the fall-through is false. */
    method TakeCondition(v: Descriptor, ghost x: Site, ghost ts: seq<nat>, ghost fs: seq<nat>)
      returns (status: Status, r: Descriptor)
      requires Described(x, v, ts, fs) && v.kind.Condition?
      modifies emitter`code
      ensures emitter.Valid()
      ensures status.Failure? ==> Exhausted()
      ensures status.Success? ==>
        && r.kind == Invalid && r.falseExits == v.falseExits
        && IsChain(emitter.code, r.trueExits, ts + [v.kind.pc]) && IsChain(emitter.code, r.falseExits, fs)
        && Compiled(Current(), emitter.code, x.start, x.mark, NO_REGISTER, FallsFalse, Members(ts + [v.kind.pc]), Members(fs), x.expr)
        && old(emitter.code)[..x.start] <= emitter.code
        && !CopiesBefore(emitter.code, v.kind.pc)
    {
      ghost var u, code0, j := Current(), emitter.code, v.kind.pc;
      ConditionExit(u, code0, x, v, ts, fs, false, code0, FallsFalse);
      var joined;
      status, joined := emitter.JoinJumps(v.trueExits, v.kind.pc + 1, ts, [j]);
      r := v.(kind := Invalid, trueExits := joined);
      if status.Success? {
        ExitsJoined(u, code0, x, FallsFalse, Members(ts) + {j}, Members(fs), ts, [j], joined, v.falseExits, fs, emitter.code);
      }
    }

    /** The two Booleans a value-less exit may stand for, skipped by a value already written. */
    method EmitBooleans(target: nat, hasFallthrough: bool) returns (status: Status, falseTarget: nat, trueTarget: nat)
      requires !CopiesBefore(emitter.code, |emitter.code|)
      modifies emitter`code, emitter`unresolvedJumps
      ensures status.Failure? ==> Exhausted()
      ensures status.Success? ==>
        && emitter.code == old(emitter.code) + Loads(target, hasFallthrough)
        && falseTarget + 2 == trueTarget + 1 == |emitter.code|
        && emitter.unresolvedJumps == old(emitter.unresolvedJumps)
    {
      ghost var code0 := emitter.code;
      var normalExit := 0;
      ghost var ns: seq<nat> := [];
      if hasFallthrough {
        normalExit := emitter.EmitJump();
        ns := [|code0|];
      }
      falseTarget := emitter.Emit(LoadBool(target, false, true));
      trueTarget := emitter.Emit(LoadBool(target, true, false));
      NormalExitPatched(code0, target, hasFallthrough, emitter.code, ns);
      status := emitter.PatchConditionalJumps(normalExit, |emitter.code|, NO_REGISTER, |emitter.code|, ns);
    }

    /** Emits the Booleans exits may need and resolves every exit. */
    method ResolveExits(v: Descriptor, target: nat, hasFallthrough: bool, ghost x: Site, ghost ts: seq<nat>, ghost fs: seq<nat>,
                        ghost fall: Fall)
      returns (status: Status)
      requires emitter.Valid() && target < emitter.registerHigh
      requires IsChain(emitter.code, v.trueExits, ts) && IsChain(emitter.code, v.falseExits, fs)
      requires fall == if hasFallthrough then Yields(Temporary(target)) else FallsFalse
      requires Compiled(Current(), emitter.code, x.start, x.mark, Excepted(fall, target), fall, Members(ts), Members(fs), x.expr)
      requires !hasFallthrough ==> exists j :: j in ts && !CopiesBefore(emitter.code, j)
      modifies emitter`code, emitter`unresolvedJumps
      ensures emitter.Valid()
      ensures status.Failure? ==> Exhausted()
      ensures status.Success? ==>
        && Compiled(Current(), emitter.code, x.start, x.mark, target, Yields(Temporary(target)), {}, {}, x.expr)
        && old(emitter.code)[..x.start] <= emitter.code
        && emitter.unresolvedJumps == old(emitter.unresolvedJumps) - |ts| - |fs|
    {
      ghost var code0 := emitter.code;
      assert Core(code0, fall) == code0;
      CoreChains(Current(), code0, x, Excepted(fall, target), fall, v, ts, fs, code0);
      var needed := emitter.JumpListNeedsValue(v.trueExits, ts);
      if !needed {
        needed := emitter.JumpListNeedsValue(v.falseExits, fs);
      }
      var falseTarget := |emitter.code|;
      var trueTarget := falseTarget;
      if needed {
        status, falseTarget, trueTarget := EmitBooleans(target, hasFallthrough);
        if status.Failure? {
          return;
        }
      }
      status := PatchExits(v, target, falseTarget, trueTarget, code0, if needed then Loads(target, hasFallthrough) else [], x, ts, fs, fall);
    }

    method PatchExits(v: Descriptor, target: nat, falseTarget: nat, trueTarget: nat, ghost code0: seq<Instr>, ghost ext: seq<Instr>,
                      ghost x: Site, ghost ts: seq<nat>, ghost fs: seq<nat>, ghost fall: Fall)
      returns (status: Status)
      requires emitter.Valid() && target < emitter.registerHigh && emitter.code == code0 + ext
      requires IsChain(code0, v.trueExits, ts) && IsChain(code0, v.falseExits, fs)
      requires fall == Yields(Temporary(target)) || fall == FallsFalse
      requires Compiled(Current(), code0, x.start, x.mark, Excepted(fall, target), fall, Members(ts), Members(fs), x.expr)
      requires Plan(code0, fall, ts, fs, target, ext, falseTarget, trueTarget)
      modifies emitter`code, emitter`unresolvedJumps
      ensures emitter.Valid()
      ensures status.Failure? ==> Exhausted()
      ensures status.Success? ==>
        && Compiled(Current(), emitter.code, x.start, x.mark, target, Yields(Temporary(target)), {}, {}, x.expr)
        && code0[..x.start] <= emitter.code
        && emitter.unresolvedJumps == old(emitter.unresolvedJumps) - |ts| - |fs|
    {
      var finalTarget := |emitter.code|;
      ExitsResolved(Current(), code0, x, fall, v, ts, fs, target, ext, falseTarget, trueTarget);
      status := emitter.PatchConditionalJumps(v.falseExits, finalTarget, target, falseTarget, fs);
      if status.Failure? {
        return;
      }
      assert emitter.code == Patched(code0 + ext, fs, |code0 + ext|, target, falseTarget);
      status := emitter.PatchConditionalJumps(v.trueExits, finalTarget, target, trueTarget, ts);
    }

    /** Leaves the value in `target` and resolves every exit. */
    method WriteExpression(v: Descriptor, target: nat, ghost x: Site, ghost ts: seq<nat>, ghost fs: seq<nat>)
      returns (status: Status, r: Descriptor)
      requires Described(x, v, ts, fs) && target < emitter.registerHigh
      modifies emitter
      ensures emitter.Valid() && emitter.registerFloor == old(emitter.registerFloor) && emitter.registerTop == old(emitter.registerTop)
      ensures emitter.registerHigh == old(emitter.registerHigh) && old(emitter.constants) <= emitter.constants
      ensures status.Failure? ==> Exhausted()
      ensures status.Success? ==> Written(x, target, r, [], []) && old(emitter.code)[..x.start] <= emitter.code
      ensures status.Success? ==> emitter.pendingResults == old(emitter.pendingResults) - Count(v.kind.Deferred?)
      ensures status.Success? ==> emitter.unresolvedJumps == old(emitter.unresolvedJumps) - OwnedJumps(v, ts, fs)
    {
      var hasFallthrough := !v.kind.Condition?;
      ghost var us, gs, fall := ts, fs, Yields(Temporary(target));
      assert Members([]) == {};
      r := v;
      if !hasFallthrough {
        status, r := TakeCondition(v, x, ts, fs);
        fall := FallsFalse;
        us := ts + [v.kind.pc];
        assert v.kind.pc in us;
        if status.Failure? {
          return;
        }
      } else {
        status, r := WriteExpressionValue(v, target, x, ts, fs);
        if status.Failure? {
          return;
        }
      }
      if r.trueExits == 0 && r.falseExits == 0 {
        r := Descriptor(Temporary(target), 0, 0);
        return;
      }
      status := ResolveExits(r, target, hasFallthrough, x, us, gs, fall);
      r := Descriptor(Temporary(target), 0, 0);
    }

    // ----- operands -----

    method ExpressionToTemporary(v: Descriptor, ghost x: Site, ghost ts: seq<nat>, ghost fs: seq<nat>)
      returns (status: Status, r: Descriptor)
      requires Holds(x, v, ts, fs)
      modifies emitter
      ensures Grown()
      ensures status.Failure? ==> Exhausted()
      ensures status.Success? ==>
        && Holds(x, r, [], []) && r.kind == Temporary(x.mark)
        && old(emitter.code)[..x.start] <= emitter.code
        && emitter.pendingResults == old(emitter.pendingResults) - Count(v.kind.Deferred?)
        && emitter.unresolvedJumps == old(emitter.unresolvedJumps) - OwnedJumps(v, ts, fs)
    {
      assert Members([]) == {};
      if v.kind.Temporary? {
        r := v;
        if v.trueExits != 0 || v.falseExits != 0 {
          status, r := WriteExpression(v, v.kind.register, x, ts, fs);
          if status.Success? {
            AboveMark(Current(), emitter.code, x.start, x.mark, x.mark, r.kind, {}, {}, x.expr);
          }
        } else {
          status := Success;
          CoreChains(Current(), emitter.code, x, NO_REGISTER, Yields(v.kind), v, ts, fs, emitter.code);
        }
        return;
      }
      r := v;
      var register;
      ghost var u := Current();
      status, register := emitter.ReserveRegisters(1);
      if status.Failure? {
        return;
      }
      HigherFrame(u, Current(), emitter.code, x, v.kind, ts, fs);
      status, r := WriteReserved(v, register, x, ts, fs);
    }

    /** Writes into the register just reserved. */
    method WriteReserved(v: Descriptor, register: nat, ghost x: Site, ghost ts: seq<nat>, ghost fs: seq<nat>)
      returns (status: Status, r: Descriptor)
      requires Described(x, v, ts, fs) && !v.kind.Temporary?
      requires register == x.mark && emitter.registerTop == x.mark + 1
      modifies emitter
      ensures Grown()
      ensures status.Failure? ==> Exhausted()
      ensures status.Success? ==>
        && Holds(x, r, [], []) && r.kind == Temporary(x.mark)
        && old(emitter.code)[..x.start] <= emitter.code
        && emitter.pendingResults == old(emitter.pendingResults) - Count(v.kind.Deferred?)
        && emitter.unresolvedJumps == old(emitter.unresolvedJumps) - OwnedJumps(v, ts, fs)
    {
      assert Members([]) == {};
      status, r := WriteExpression(v, register, x, ts, fs);
      if status.Success? {
        AboveMark(Current(), emitter.code, x.start, x.mark, x.mark, r.kind, {}, {}, x.expr);
      }
    }

    /** Leaves the fall-through value in a register; exits stay pending. */
    method ExpressionValueToRegister(v: Descriptor, ghost x: Site, ghost ts: seq<nat>, ghost fs: seq<nat>)
      returns (status: Status, r: Descriptor)
      requires Holds(x, v, ts, fs) && !v.kind.Condition?
      modifies emitter
      ensures Grown()
      ensures status.Failure? ==> Exhausted()
      ensures status.Success? ==>
        && Holds(x, r, ts, fs) && (r.kind.Local? || r.kind.Temporary?)
        && r.trueExits == v.trueExits && r.falseExits == v.falseExits
        && old(emitter.code)[..x.start] <= emitter.code
        && emitter.pendingResults == old(emitter.pendingResults) - Count(v.kind.Deferred?)
        && emitter.unresolvedJumps == old(emitter.unresolvedJumps)
    {
      r := v;
      if v.kind.Local? || v.kind.Temporary? {
        CoreChains(Current(), emitter.code, x, NO_REGISTER, Yields(v.kind), v, ts, fs, emitter.code);
        return Success, v;
      }
      var register;
      ghost var u := Current();
      status, register := emitter.ReserveRegisters(1);
      if status.Failure? {
        return;
      }
      HigherFrame(u, Current(), emitter.code, x, v.kind, ts, fs);
      status, r := WriteExpressionValue(v, register, x, ts, fs);
      if status.Success? {
        AboveMark(Current(), emitter.code, x.start, x.mark, x.mark, r.kind, Members(ts), Members(fs), x.expr);
      }
    }

    method ExpressionToRegister(v: Descriptor, ghost x: Site, ghost ts: seq<nat>, ghost fs: seq<nat>)
      returns (status: Status, r: Descriptor)
      requires Holds(x, v, ts, fs)
      modifies emitter
      ensures Grown()
      ensures status.Failure? ==> Exhausted()
      ensures status.Success? ==>
        && Holds(x, r, [], []) && (r.kind.Local? || r.kind.Temporary?)
        && old(emitter.code)[..x.start] <= emitter.code
        && emitter.pendingResults == old(emitter.pendingResults) - Count(v.kind.Deferred?)
        && emitter.unresolvedJumps == old(emitter.unresolvedJumps) - OwnedJumps(v, ts, fs)
    {
      if v.kind.Condition? || v.trueExits != 0 || v.falseExits != 0 {
        status, r := ExpressionToTemporary(v, x, ts, fs);
      } else {
        status, r := ExpressionValueToRegister(v, x, ts, fs);
      }
    }

    /** Leaves the value where an RK operand can read it. */
    /** A literal as a constant, if its index fits an operand. */
    method LiteralToRK(v: Descriptor, ghost x: Site, ghost ts: seq<nat>, ghost fs: seq<nat>) returns (status: Status, index: nat)
      requires Holds(x, v, ts, fs) && v.kind.Literal?
      modifies emitter`constants, emitter`constantIndexes
      ensures Grown() && Holds(x, v, ts, fs)
      ensures status.Failure? ==> Exhausted()
      ensures status.Success? ==> index < |emitter.constants| && emitter.constants[index] == v.kind.value
    {
      ghost var u := Current();
      CoreChains(u, emitter.code, x, NO_REGISTER, Yields(v.kind), v, ts, fs, emitter.code);
      status, index := emitter.Constant(v.kind.value);
      HigherFrame(u, Current(), emitter.code, x, v.kind, ts, fs);
    }

    method ExpressionToRK(v: Descriptor, ghost x: Site, ghost ts: seq<nat>, ghost fs: seq<nat>)
      returns (status: Status, r: Descriptor, rk: nat)
      requires Holds(x, v, ts, fs)
      modifies emitter
      ensures Grown()
      ensures status.Failure? ==> Exhausted()
      ensures status.Success? ==>
        && Holds(x, r, [], []) && OperandFor(emitter.constants, r.kind, rk)
        && old(emitter.code)[..x.start] <= emitter.code
        && emitter.pendingResults == old(emitter.pendingResults) - Count(v.kind.Deferred?)
        && emitter.unresolvedJumps == old(emitter.unresolvedJumps) - OwnedJumps(v, ts, fs)
    {
      r := v;
      rk := 0;
      CoreChains(Current(), emitter.code, x, NO_REGISTER, Yields(v.kind), v, ts, fs, emitter.code);
      if !v.kind.Condition? && v.trueExits == 0 && v.falseExits == 0 {
        if v.kind.Literal? {
          var index;
          status, index := LiteralToRK(v, x, ts, fs);
          if status.Failure? {
            return;
          }
          if index <= MAX_RK_CONSTANT {
            return Success, v, index + CONSTANT_BIT;
          }
        } else if v.kind.Local? || v.kind.Temporary? {
          return Success, v, v.kind.register;
        }
      }
      status, r := ExpressionToTemporary(v, x, ts, fs);
      if status.Success? {
        rk := r.kind.register;
      }
    }

    // ----- control flow -----

    /** The value is discarded on the path that falls through, with truth `truth`; the other side
        keeps the jumps `xs`. */
    ghost predicate Guards(x: Site, truth: bool, list: nat, xs: seq<nat>)
      reads emitter
    {
      && emitter.Valid() && emitter.registerTop == x.mark
      && IsChain(emitter.code, list, xs)
      && Compiled(Current(), emitter.code, x.start, x.mark, NO_REGISTER, Knows(truth),
                  if truth then {} else Members(xs), if truth then Members(xs) else {}, x.expr)
    }

    /** The exits of `v` and, when `exit` is not 0, one more jump on the side away from `truth`. */
    ghost predicate ExitReady(x: Site, v: Descriptor, ts: seq<nat>, fs: seq<nat>, truth: bool, exit: nat)
      reads emitter
    {
      && IsChain(emitter.code, v.trueExits, ts) && IsChain(emitter.code, v.falseExits, fs)
      && (exit > 0 ==> NewExit(emitter.code, x, v, ts, fs, exit - 1))
      && Compiled(Current(), emitter.code, x.start, x.mark, NO_REGISTER, Knows(truth),
                  if truth || exit == 0 then Members(ts) else Members(ts) + {exit - 1},
                  if truth && exit != 0 then Members(fs) + {exit - 1} else Members(fs), x.expr)
    }

    method EmitTest(control: Instr, ghost u: Bounds, ghost code0: seq<Instr>, ghost v: Descriptor, truth: bool,
                    ghost x: Site, ghost ts: seq<nat>, ghost fs: seq<nat>)
      returns (exit: nat)
      requires emitter.Valid() && Grows(u, Current())
      requires Compiled(u, code0, x.start, x.mark, NO_REGISTER, Yields(v.kind), Members(ts), Members(fs), x.expr)
      requires IsChain(code0, v.trueExits, ts) && IsChain(code0, v.falseExits, fs)
      requires emitter.code == Core(code0, Yields(v.kind)) && Tests(code0, v.kind, control, truth)
      modifies emitter`code, emitter`unresolvedJumps
      ensures emitter.Valid() && exit > 0 && ExitReady(x, v, ts, fs, truth, exit)
      ensures code0[..x.start] <= emitter.code && emitter.unresolvedJumps == old(emitter.unresolvedJumps) + 1
    {
      var _ := emitter.Emit(control);
      exit := emitter.EmitJump();
      assert emitter.code == Core(code0, Yields(v.kind)) + [control, Jump(-1)];
      ExitEmitted(u, Current(), code0, x, v, ts, fs, truth, control, emitter.code);
    }

    /** A test of a value in a register, which keeps the value for the jump that leaves. */
    method EmitRegisterExit(r: Descriptor, truth: bool, ghost v: Descriptor, ghost x: Site, ghost ts: seq<nat>, ghost fs: seq<nat>) returns (exit: nat)
      requires Holds(x, r, ts, fs) && (r.kind.Local? || r.kind.Temporary?) && r.trueExits == v.trueExits && r.falseExits == v.falseExits
      modifies emitter`code, emitter`unresolvedJumps, emitter`registerTop
      ensures Grown() && exit > 0 && ExitReady(x, v, ts, fs, truth, exit) && emitter.registerTop == x.mark
      ensures old(emitter.code)[..x.start] <= emitter.code && emitter.unresolvedJumps == old(emitter.unresolvedJumps) + 1
    {
      ghost var u, code0 := Current(), emitter.code;
      assert Core(code0, Yields(r.kind)) == code0;
      exit := EmitTest(TestSet(NO_REGISTER, r.kind.register, !truth), u, code0, r, truth, x, ts, fs);
      if r.kind.Temporary? {
        emitter.ReleaseRegisters(r.kind.register);
      }
    }

    /** A test of the value and a jump that leaves when its truth is not `truth`. */
    method EmitValueExit(v: Descriptor, truth: bool, ghost x: Site, ghost ts: seq<nat>, ghost fs: seq<nat>)
      returns (status: Status, exit: nat)
      requires Holds(x, v, ts, fs) && !v.kind.Condition?
      modifies emitter
      ensures Grown()
      ensures status.Failure? ==> Exhausted()
      ensures status.Success? ==>
        && exit > 0 && ExitReady(x, v, ts, fs, truth, exit) && emitter.registerTop == x.mark
        && old(emitter.code)[..x.start] <= emitter.code
        && emitter.pendingResults == old(emitter.pendingResults) - Count(v.kind.Deferred?)
        && emitter.unresolvedJumps == old(emitter.unresolvedJumps) + 1
    {
      ghost var u, code0 := Current(), emitter.code;
      var taken, register := emitter.TakeDeferredNot(v.kind);
      if taken {
        exit := EmitTest(Test(register, truth), u, code0, v, truth, x, ts, fs);
        return Success, exit;
      }
      exit := 0;
      var r;
      status, r := ExpressionValueToRegister(v, x, ts, fs);
      if status.Failure? {
        return;
      }
      exit := EmitRegisterExit(r, truth, v, x, ts, fs);
    }

    /** Makes the path with truth `truth` continue here and leaves the other side pending. */
    method FallThroughIf(truth: bool, v: Descriptor, ghost x: Site, ghost ts: seq<nat>, ghost fs: seq<nat>)
      returns (status: Status, list: nat, ghost zs: seq<nat>)
      requires Holds(x, v, ts, fs)
      modifies emitter
      ensures Grown()
      ensures status.Failure? ==> Exhausted()
      ensures status.Success? ==>
        && Guards(x, truth, list, zs)
        && old(emitter.code)[..x.start] <= emitter.code
        && emitter.pendingResults == old(emitter.pendingResults) - Count(v.kind.Deferred?)
        && emitter.unresolvedJumps == old(emitter.unresolvedJumps) - OwnedJumps(v, ts, fs) + |zs|
    {
      list, zs := 0, [];
      var exit;
      status, exit := LeaveUnless(truth, v, x, ts, fs);
      if status.Failure? {
        return;
      }
      status, list, zs := JoinExit(truth, v, exit, x, ts, fs);
      if status.Failure? {
        return;
      }
      ghost var ys := if truth then ts else fs;
      GuardPatched(Current(), emitter.code, x, truth, list, zs, ys);
      status := emitter.PatchConditionalJumps(if truth then v.trueExits else v.falseExits, |emitter.code|, NO_REGISTER, |emitter.code|, ys);
    }

    /** The jump that leaves on the other side; none is needed for a constant of known truth. */
    method LeaveUnless(truth: bool, v: Descriptor, ghost x: Site, ghost ts: seq<nat>, ghost fs: seq<nat>)
      returns (status: Status, exit: nat)
      requires Holds(x, v, ts, fs)
      modifies emitter
      ensures Grown()
      ensures status.Failure? ==> Exhausted()
      ensures status.Success? ==>
        && ExitReady(x, v, ts, fs, truth, exit) && emitter.registerTop == x.mark
        && old(emitter.code)[..x.start] <= emitter.code
        && emitter.pendingResults == old(emitter.pendingResults) - Count(v.kind.Deferred?)
        && emitter.unresolvedJumps == old(emitter.unresolvedJumps) + Count(exit != 0) - Count(v.kind.Condition?)
    {
      exit := 0;
      if v.kind.Condition? {
        ghost var u, code0 := Current(), emitter.code;
        if truth {
          emitter.InvertComparison(v.kind.pc);
        }
        ConditionExit(u, code0, x, v, ts, fs, truth, emitter.code, Knows(truth));
        return Success, v.kind.pc + 1;
      }
      if v.kind.Literal? && Truth(v.kind.value) == truth {
        KnownCompiled(Current(), emitter.code, x, v.kind.value, Members(ts), Members(fs));
        CoreChains(Current(), emitter.code, x, NO_REGISTER, Yields(v.kind), v, ts, fs, emitter.code);
        return Success, 0;
      }
      status, exit := EmitValueExit(v, truth, x, ts, fs);
    }

    method JoinExit(truth: bool, v: Descriptor, exit: nat, ghost x: Site, ghost ts: seq<nat>, ghost fs: seq<nat>)
      returns (status: Status, list: nat, ghost zs: seq<nat>)
      requires emitter.Valid() && ExitReady(x, v, ts, fs, truth, exit)
      modifies emitter`code
      ensures emitter.Valid() && |emitter.code| == |old(emitter.code)|
      ensures status.Failure? ==> Exhausted()
      ensures status.Success? ==>
        && zs == (if truth then fs else ts) + (if exit == 0 then [] else [exit - 1])
        && IsChain(emitter.code, list, zs)
        && IsChain(emitter.code, if truth then v.trueExits else v.falseExits, if truth then ts else fs)
        && Compiled(Current(), emitter.code, x.start, x.mark, NO_REGISTER, Knows(truth),
                    if truth then Members(ts) else Members(zs), if truth then Members(zs) else Members(fs), x.expr)
        && old(emitter.code)[..x.start] <= emitter.code
    {
      if exit == 0 {
        zs := if truth then fs else ts;
        assert zs + [] == zs;
        CoreChains(Current(), emitter.code, x, NO_REGISTER, Knows(truth), v, ts, fs, emitter.code);
        return Success, if truth then v.falseExits else v.trueExits, zs;
      }
      ghost var u, code0, j := Current(), emitter.code, exit - 1;
      zs := (if truth then fs else ts) + [j];
      if truth {
        status, list := emitter.JoinJumps(v.falseExits, exit, fs, [j]);
        if status.Success? {
          ExitsJoined(u, code0, x, Knows(truth), Members(ts), Members(fs) + {j}, fs, [j], list, v.trueExits, ts, emitter.code);
        }
      } else {
        status, list := emitter.JoinJumps(v.trueExits, exit, ts, [j]);
        if status.Success? {
          ExitsJoined(u, code0, x, Knows(truth), Members(ts) + {j}, Members(fs), ts, [j], list, v.falseExits, fs, emitter.code);
        }
      }
    }

    // ----- operators -----

    method EmitNot(v: Descriptor, ghost x: Site, ghost ts: seq<nat>, ghost fs: seq<nat>)
      returns (status: Status, r: Descriptor)
      requires Holds(x, v, ts, fs)
      modifies emitter
      ensures Grown()
      ensures status.Failure? ==> Exhausted()
      ensures status.Success? ==>
        && Holds(x.(expr := Expr.Not(x.expr)), r, fs, ts) && (r.kind.Literal? || r.kind.Condition? || r.kind.Deferred?)
        && old(emitter.code)[..x.start] <= emitter.code
        && emitter.pendingResults - Count(r.kind.Deferred?) == old(emitter.pendingResults) - Count(v.kind.Deferred?)
        && emitter.unresolvedJumps - OwnedJumps(r, fs, ts) == old(emitter.unresolvedJumps) - OwnedJumps(v, ts, fs)
    {
      r := v;
      if v.kind.Literal? || v.kind.Condition? {
        r := NegateInPlace(v, x, ts, fs);
        return Success, r;
      }
      status, r := ExpressionValueToRegister(v, x, ts, fs);
      if status.Success? {
        r := NegateRegister(r, x, ts, fs);
      }
    }

    /** A constant or a comparison is negated without a new instruction. */
    method NegateInPlace(v: Descriptor, ghost x: Site, ghost ts: seq<nat>, ghost fs: seq<nat>) returns (r: Descriptor)
      requires Holds(x, v, ts, fs) && (v.kind.Literal? || v.kind.Condition?)
      modifies emitter`code
      ensures Holds(x.(expr := Expr.Not(x.expr)), r, fs, ts) && r.kind.Literal? == v.kind.Literal? && r.kind.Condition? == v.kind.Condition?
      ensures old(emitter.code)[..x.start] <= emitter.code
    {
      ghost var code0 := emitter.code;
      r := v;
      if v.kind.Literal? {
        r := v.(kind := Kind.Literal(Boolean(!Truth(v.kind.value))));
      } else {
        emitter.InvertComparison(v.kind.pc);
      }
      r := SwapExits(r, code0, v.kind, x, ts, fs);
    }

    method NegateRegister(v: Descriptor, ghost x: Site, ghost ts: seq<nat>, ghost fs: seq<nat>) returns (r: Descriptor)
      requires Holds(x, v, ts, fs) && (v.kind.Local? || v.kind.Temporary?)
      modifies emitter`code, emitter`pendingResults, emitter`registerTop
      ensures Holds(x.(expr := Expr.Not(x.expr)), r, fs, ts) && r.kind.Deferred?
      ensures old(emitter.code)[..x.start] <= emitter.code && emitter.pendingResults == old(emitter.pendingResults) + 1
    {
      ghost var code0 := emitter.code;
      var pc := emitter.EmitDeferred(NotOp(NO_REGISTER, v.kind.register));
      if v.kind.Temporary? {
        emitter.ReleaseRegisters(v.kind.register);
      }
      r := SwapExits(v.(kind := Deferred(pc)), code0, v.kind, x, ts, fs);
    }

    /** The exits change sides and lose the values they carried. */
    method SwapExits(v: Descriptor, ghost code0: seq<Instr>, ghost kind0: Kind, ghost x: Site, ghost ts: seq<nat>, ghost fs: seq<nat>)
      returns (r: Descriptor)
      requires emitter.Valid()
      requires Compiled(Current(), code0, x.start, x.mark, NO_REGISTER, Yields(kind0), Members(ts), Members(fs), x.expr)
      requires IsChain(code0, v.trueExits, ts) && IsChain(code0, v.falseExits, fs)
      requires NegatedTail(code0, kind0, emitter.code, v.kind)
      modifies emitter`code
      ensures emitter.Valid() && r == Descriptor(v.kind, v.falseExits, v.trueExits)
      ensures IsChain(emitter.code, r.trueExits, fs) && IsChain(emitter.code, r.falseExits, ts)
      ensures Compiled(Current(), emitter.code, x.start, x.mark, NO_REGISTER, Yields(r.kind), Members(fs), Members(ts), Expr.Not(x.expr))
      ensures code0[..x.start] <= emitter.code
    {
      NotMeaning(Current(), code0, kind0, x, v, ts, fs, emitter.code, v.kind);
      r := Descriptor(v.kind, v.falseExits, v.trueExits);
      emitter.DiscardJumpValues(r.trueExits, fs);
      emitter.DiscardJumpValues(r.falseExits, ts);
    }

    method EmitUnary(op: Operator, v: Descriptor, ghost x: Site, ghost ts: seq<nat>, ghost fs: seq<nat>)
      returns (status: Status, r: Descriptor)
      requires Holds(x, v, ts, fs) && (op == Negate || op == Length)
      modifies emitter
      ensures Grown()
      ensures status.Failure? ==> Exhausted()
      ensures status.Success? ==>
        && Holds(x.(expr := Expr.Unary(op, x.expr)), r, [], []) && (r.kind.Literal? || r.kind.Deferred?)
        && old(emitter.code)[..x.start] <= emitter.code
        && emitter.pendingResults - Count(r.kind.Deferred?) == old(emitter.pendingResults) - Count(v.kind.Deferred?)
        && emitter.unresolvedJumps == old(emitter.unresolvedJumps) - OwnedJumps(v, ts, fs)
    {
      if v.kind.Literal? && v.trueExits == 0 && v.falseExits == 0 && op == Negate && v.kind.value.Number? {
        r := v.(kind := Kind.Literal(Number(emitter.numbers.negate(v.kind.value.bits))));
        assert Members([]) == {};
        FoldedNegation(Current(), emitter.code, x.start, x.mark, x.expr, v.kind.value.bits);
        return Success, r;
      }
      status, r := ExpressionToRegister(v, x, ts, fs);
      if status.Success? {
        r := EmitUnaryOn(op, r, x);
      }
    }

    method EmitUnaryOn(op: Operator, operand: Descriptor, ghost x: Site) returns (r: Descriptor)
      requires Holds(x, operand, [], []) && (operand.kind.Local? || operand.kind.Temporary?)
      modifies emitter`code, emitter`pendingResults, emitter`registerTop
      ensures Holds(x.(expr := Expr.Unary(op, x.expr)), r, [], []) && r.kind.Deferred?
      ensures old(emitter.code) <= emitter.code && emitter.pendingResults == old(emitter.pendingResults) + 1
    {
      assert Members([]) == {};
      UnaryCompiled(Current(), emitter.code, x.start, x.mark, operand.kind, x.expr, op);
      var pc := emitter.EmitDeferred(UnaryOp(op, NO_REGISTER, operand.kind.register));
      if operand.kind.Temporary? {
        emitter.ReleaseRegisters(operand.kind.register);
      }
      r := Descriptor(Deferred(pc), 0, 0);
    }

    /** Releases the lowest register the operands own. */
    method ReleaseTemporaries(left: Kind, right: Kind, ghost mark: nat)
      requires emitter.Valid() && emitter.registerFloor <= mark <= emitter.registerTop
      requires left.Temporary? || right.Temporary? || emitter.registerTop == mark
      requires left.Temporary? ==> left.register >= mark
      requires right.Temporary? ==> right.register >= mark
      requires left.Temporary? || right.Temporary? ==>
        (left.Temporary? && left.register == mark) || (right.Temporary? && right.register == mark)
      modifies emitter`registerTop
      ensures emitter.Valid() && emitter.registerTop == mark
    {
      var base := NO_REGISTER;
      if left.Temporary? && left.register < base {
        base := left.register;
      }
      if right.Temporary? && right.register < base {
        base := right.register;
      }
      if base != NO_REGISTER {
        emitter.ReleaseRegisters(base);
      }
    }

    /** An unprepared numeric constant becomes an operand after the right one. */
    method ResolveConstant(value: Value, ghost x: Site, ghost y: LeftOperand, ghost kr: Kind, ghost r: Expr)
      returns (status: Status, kind: Kind, rk: nat)
      requires emitter.Valid() && y.kind == Kind.Literal(value) && value.Number? && IsHeld(kr)
      requires emitter.registerFloor <= x.mark && emitter.registerTop == TopFor(x, kr)
      requires (kr.Temporary? ==> kr.register == x.mark) && (kr.Local? ==> kr.register < x.mark)
      requires Paired(Current(), emitter.code, x.start, x.mark, y.kind, kr, y.expr, r)
      modifies emitter
      ensures Grown()
      ensures emitter.pendingResults == old(emitter.pendingResults) && emitter.unresolvedJumps == old(emitter.unresolvedJumps)
      ensures status.Failure? ==> Exhausted()
      ensures status.Success? ==>
        && Paired(Current(), emitter.code, x.start, x.mark, kind, kr, y.expr, r)
        && OperandFor(emitter.constants, kind, rk) && old(emitter.code) <= emitter.code
        && (kind == y.kind || (kind == Temporary(old(emitter.registerTop)) && emitter.registerTop == old(emitter.registerTop) + 1))
        && (kind == y.kind ==> emitter.registerTop == old(emitter.registerTop))
    {
      kind, rk := Kind.Literal(value), 0;
      ghost var u := Current();
      var index;
      status, index := emitter.Constant(value);
      if status.Failure? {
        return;
      }
      if index <= MAX_RK_CONSTANT {
        PairGrows(u, Current(), emitter.code, x, y.kind, kr, y.expr, r);
        return Success, kind, index + CONSTANT_BIT;
      }
      var register;
      status, register := emitter.ReserveRegisters(1);
      if status.Failure? {
        return;
      }
      SpillPaired(u, Current(), emitter.code, x.start, x.mark, y.kind, kr, y.expr, r, register, index);
      var _ := emitter.Emit(LoadK(register, index));
      kind, rk := Temporary(register), register;
    }

    method FoldConstants(op: Operator, a: int, b: int, ghost x: Site, ghost y: LeftOperand, ghost xr: Site) returns (r: Descriptor)
      requires IsLeft(x, y) && y.kind == Kind.Literal(Number(a)) && Grows(y.bounds, Current()) && IsArithmetic(op)
      requires Holds(xr, Descriptor(Kind.Literal(Number(b)), 0, 0), [], []) && xr.start == |y.code| && xr.mark == x.mark
      requires y.code <= emitter.code && InFragment(xr.expr, x.mark) && x.expr == Binary(op, y.expr, xr.expr)
      ensures Holds(x, r, [], []) && r.kind.Literal? && y.code[..x.start] <= emitter.code
    {
      assert Members([]) == {};
      r := Descriptor(Kind.Literal(Number(emitter.numbers.arith(op, a, b))), 0, 0);
      PairCompiled(y.bounds, Current(), y.code, x.start, x.mark, y.kind, y.expr, emitter.code, xr.mark, Kind.Literal(Number(b)), xr.expr);
      FoldedPair(Current(), emitter.code, x.start, x.mark, y.expr, xr.expr, op, a, b);
    }

    method EmitBinary(infix: Infix, left: Descriptor, right: Descriptor, preparedRK: nat, prepared: bool,
                      ghost x: Site, ghost y: LeftOperand, ghost xr: Site, ghost ts: seq<nat>, ghost fs: seq<nat>)
      returns (status: Status, r: Descriptor)
      requires Holds(xr, right, ts, fs) && IsLeft(x, y) && y.kind == left.kind && Grows(y.bounds, Current())
      requires y.code <= emitter.code && xr.start == |y.code| && xr.mark == TopFor(x, y.kind) && emitter.registerFloor <= x.mark
      requires InFragment(xr.expr, x.mark) && x.expr == Joined(infix, y.expr, xr.expr)
      requires infix.Arithmetic? ==> IsArithmetic(infix.op)
      requires if prepared then OperandFor(emitter.constants, left.kind, preparedRK)
               else infix.Arithmetic? && left.kind.Literal? && left.kind.value.Number?
      requires left.trueExits == left.falseExits == 0
      modifies emitter
      ensures Grown()
      ensures status.Failure? ==> Exhausted()
      ensures status.Success? ==>
        && Holds(x, r, [], []) && (r.kind.Literal? || r.kind.Deferred? || r.kind.Condition?)
        && y.code[..x.start] <= emitter.code
        && emitter.pendingResults - Count(r.kind.Deferred?) == old(emitter.pendingResults) - Count(right.kind.Deferred?)
        && emitter.unresolvedJumps - OwnedJumps(r, [], []) == old(emitter.unresolvedJumps) - OwnedJumps(right, ts, fs)
    {
      if infix.Arithmetic? && left.kind.Literal? && left.kind.value.Number? && right.kind.Literal? && right.kind.value.Number? &&
         right.trueExits == 0 && right.falseExits == 0 &&
         emitter.numbers.foldable(infix.op, left.kind.value.bits, right.kind.value.bits) {
        r := FoldConstants(infix.op, left.kind.value.bits, right.kind.value.bits, x, y, xr);
        return Success, r;
      }
      r := right;
      var right', rightRK;
      status, right', rightRK := ExpressionToRK(right, xr, ts, fs);
      if status.Failure? {
        return;
      }
      status, r := ApplyOperator(infix, left.kind, preparedRK, prepared, right', rightRK, x, y, xr);
    }

    method ApplyOperator(infix: Infix, left: Kind, preparedRK: nat, prepared: bool, right: Descriptor, rightRK: nat,
                         ghost x: Site, ghost y: LeftOperand, ghost xr: Site)
      returns (status: Status, r: Descriptor)
      requires Holds(xr, right, [], []) && IsLeft(x, y) && y.kind == left && Grows(y.bounds, Current())
      requires y.code <= emitter.code && xr.start == |y.code| && xr.mark == TopFor(x, y.kind) && emitter.registerFloor <= x.mark
      requires InFragment(xr.expr, x.mark) && x.expr == Joined(infix, y.expr, xr.expr)
      requires OperandFor(emitter.constants, right.kind, rightRK)
      requires if prepared then OperandFor(emitter.constants, left, preparedRK) else left.Literal? && left.value.Number?
      modifies emitter
      ensures Grown()
      ensures status.Failure? ==> Exhausted()
      ensures status.Success? ==>
        && Holds(x, r, [], []) && (r.kind.Deferred? || r.kind.Condition?)
        && y.code[..x.start] <= emitter.code
        && emitter.pendingResults - Count(r.kind.Deferred?) == old(emitter.pendingResults)
        && emitter.unresolvedJumps - OwnedJumps(r, [], []) == old(emitter.unresolvedJumps)
    {
      assert Members([]) == {};
      r := right;
      PairCompiled(y.bounds, Current(), y.code, x.start, x.mark, y.kind, y.expr, emitter.code, xr.mark, right.kind, xr.expr);
      var leftKind, leftRK := left, preparedRK;
      if !prepared {
        status, leftKind, leftRK := ResolveConstant(left.value, x, y, right.kind, xr.expr);
        if status.Failure? {
          return;
        }
      }
      status := Success;
      r := EmitOperator(infix, leftKind, leftRK, right.kind, rightRK, x, y.expr, xr.expr);
    }

    /** The deferred instruction, or the comparison with its jump. */
    method EmitOperator(infix: Infix, kl: Kind, leftRK: nat, kr: Kind, rightRK: nat, ghost x: Site, ghost l: Expr, ghost r: Expr)
      returns (v: Descriptor)
      requires emitter.Valid() && emitter.registerFloor <= x.mark <= emitter.registerTop && IsHeld(kl) && IsHeld(kr)
      requires Paired(Current(), emitter.code, x.start, x.mark, kl, kr, l, r) && x.expr == Joined(infix, l, r)
      requires OperandFor(emitter.constants, kl, leftRK) && OperandFor(emitter.constants, kr, rightRK)
      requires kl.Temporary? || kr.Temporary? || emitter.registerTop == x.mark
      requires kl.Temporary? ==> kl.register >= x.mark
      requires kr.Temporary? ==> kr.register >= x.mark
      requires kl.Temporary? || kr.Temporary? ==>
        (kl.Temporary? && kl.register == x.mark) || (kr.Temporary? && kr.register == x.mark)
      modifies emitter
      ensures Holds(x, v, [], []) && (v.kind.Deferred? || v.kind.Condition?)
      ensures emitter.registerFloor == old(emitter.registerFloor) && emitter.registerHigh == old(emitter.registerHigh)
      ensures emitter.constants == old(emitter.constants) && old(emitter.code) <= emitter.code
      ensures emitter.pendingResults == old(emitter.pendingResults) + Count(v.kind.Deferred?)
      ensures emitter.unresolvedJumps == old(emitter.unresolvedJumps) + OwnedJumps(v, [], [])
    {
      match infix {
        case Arithmetic(op) =>
          v := EmitArithmetic(op, kl, leftRK, kr, rightRK, x, l, r);
        case Relational(rel) =>
          v := EmitComparison(rel, kl, leftRK, kr, rightRK, x, l, r);
      }
      ReleaseTemporaries(kl, kr, x.mark);
    }

    method EmitArithmetic(op: Operator, ghost kl: Kind, leftRK: nat, ghost kr: Kind, rightRK: nat, ghost x: Site, ghost l: Expr, ghost r: Expr)
      returns (v: Descriptor)
      requires emitter.Valid() && emitter.registerFloor <= x.mark && IsHeld(kl) && IsHeld(kr)
      requires Paired(Current(), emitter.code, x.start, x.mark, kl, kr, l, r) && x.expr == Binary(op, l, r)
      requires OperandFor(emitter.constants, kl, leftRK) && OperandFor(emitter.constants, kr, rightRK)
      modifies emitter`code, emitter`pendingResults
      ensures Described(x, v, [], []) && v.kind.Deferred?
      ensures old(emitter.code) <= emitter.code && emitter.pendingResults == old(emitter.pendingResults) + 1
    {
      assert Members([]) == {};
      ArithCompiled(Current(), emitter.code, x.start, x.mark, kl, kr, l, r, op, leftRK, rightRK);
      var pc := emitter.EmitDeferred(Arith(op, NO_REGISTER, leftRK, rightRK));
      v := Descriptor(Deferred(pc), 0, 0);
    }

    method EmitComparison(rel: Relation, ghost kl: Kind, leftRK: nat, ghost kr: Kind, rightRK: nat, ghost x: Site, ghost l: Expr, ghost r: Expr)
      returns (v: Descriptor)
      requires emitter.Valid() && emitter.registerFloor <= x.mark && IsHeld(kl) && IsHeld(kr)
      requires Paired(Current(), emitter.code, x.start, x.mark, kl, kr, l, r) && x.expr == Compare(rel, l, r)
      requires OperandFor(emitter.constants, kl, leftRK) && OperandFor(emitter.constants, kr, rightRK)
      modifies emitter`code, emitter`unresolvedJumps
      ensures Described(x, v, [], []) && v.kind.Condition?
      ensures old(emitter.code) <= emitter.code && emitter.unresolvedJumps == old(emitter.unresolvedJumps) + 1
    {
      assert Members([]) == {};
      ComparisonCompiled(Current(), emitter.code, x.start, x.mark, kl, kr, l, r, rel, leftRK, rightRK);
      var operation, polarity, b, c := Equal, true, leftRK, rightRK;
      match rel {
        case IsEqual =>
        case IsNotEqual => polarity := false;
        case IsLess => operation := Less;
        case IsLessEqual => operation := LessEqual;
        case IsGreater => operation, b, c := Less, rightRK, leftRK;
        case IsGreaterEqual => operation, b, c := LessEqual, rightRK, leftRK;
      }
      ghost var code0 := emitter.code;
      var _ := emitter.Emit(Comparison(operation, polarity, b, c));
      var jump := emitter.EmitJump();
      assert emitter.code == code0 + [Comparison(operation, polarity, b, c), Jump(-1)];
      v := Descriptor(Condition(jump - 1), 0, 0);
    }

    /** A concatenation that ends in a deferred concatenation of the next registers becomes one instruction. */
    method WidenConcat(left: Descriptor, right: Descriptor, ghost x: Site, ghost y: LeftOperand, ghost xr: Site)
      requires Holds(xr, right, [], []) && IsLeft(x, y) && y.kind == left.kind == Temporary(x.mark) && Grows(y.bounds, Current())
      requires y.code <= emitter.code && xr.start == |y.code| && xr.mark == x.mark + 1 && emitter.registerFloor <= x.mark
      requires InFragment(xr.expr, x.mark) && x.expr == Binary(Concat, y.expr, xr.expr)
      requires right.kind.Deferred? && right.trueExits == right.falseExits == 0
      requires var i := emitter.code[right.kind.pc]; i.ConcatOp? && left.kind.register + 1 == i.b
      modifies emitter`code, emitter`registerTop
      ensures Holds(x, right, [], []) && y.code[..x.start] <= emitter.code
    {
      assert Members([]) == {};
      WidenPair(y.bounds, Current(), y.code, x.start, x.mark, y.expr, emitter.code, xr.expr);
      var code := emitter.code[right.kind.pc];
      emitter.code := emitter.code[right.kind.pc := ConcatOp(code.a, left.kind.register, code.c)];
      emitter.ReleaseRegisters(left.kind.register);
    }

    method EmitConcat(left: Descriptor, right: Descriptor, ghost x: Site, ghost y: LeftOperand, ghost xr: Site,
                      ghost ts: seq<nat>, ghost fs: seq<nat>)
      returns (status: Status, r: Descriptor)
      requires Holds(xr, right, ts, fs) && IsLeft(x, y) && y.kind == left.kind == Temporary(x.mark) && Grows(y.bounds, Current())
      requires y.code <= emitter.code && xr.start == |y.code| && xr.mark == x.mark + 1 && emitter.registerFloor <= x.mark
      requires InFragment(xr.expr, x.mark) && x.expr == Binary(Concat, y.expr, xr.expr)
      modifies emitter
      ensures Grown()
      ensures status.Failure? ==> Exhausted()
      ensures status.Success? ==>
        && Holds(x, r, [], []) && r.kind.Deferred?
        && y.code[..x.start] <= emitter.code
        && emitter.pendingResults - 1 == old(emitter.pendingResults) - Count(right.kind.Deferred?)
        && emitter.unresolvedJumps == old(emitter.unresolvedJumps) - OwnedJumps(right, ts, fs)
    {
      assert Members([]) == {};
      if right.kind.Deferred? && right.trueExits == 0 && right.falseExits == 0 {
        var code := emitter.code[right.kind.pc];
        if code.ConcatOp? && left.kind.register + 1 == code.b {
          WidenConcat(left, right, x, y, xr);
          return Success, right;
        }
      }
      r := right;
      status, r := ExpressionToTemporary(right, xr, ts, fs);
      if status.Failure? {
        return;
      }
      r := ConcatPair(left, r, x, y, xr);
    }

    method ConcatPair(left: Descriptor, right: Descriptor, ghost x: Site, ghost y: LeftOperand, ghost xr: Site)
      returns (r: Descriptor)
      requires Holds(xr, right, [], []) && IsLeft(x, y) && y.kind == left.kind == Temporary(x.mark) && Grows(y.bounds, Current())
      requires y.code <= emitter.code && xr.start == |y.code| && xr.mark == x.mark + 1 && emitter.registerFloor <= x.mark
      requires InFragment(xr.expr, x.mark) && x.expr == Binary(Concat, y.expr, xr.expr) && right.kind == Temporary(xr.mark)
      modifies emitter`code, emitter`registerTop, emitter`pendingResults
      ensures Holds(x, r, [], []) && r.kind.Deferred? && old(emitter.code) <= emitter.code
      ensures emitter.pendingResults == old(emitter.pendingResults) + 1
    {
      assert Members([]) == {};
      ConcatMeaning(Current(), emitter.code, x, y, xr);
      var pc := emitter.EmitDeferred(ConcatOp(NO_REGISTER, left.kind.register, right.kind.register));
      ReleaseTemporaries(left.kind, right.kind, x.mark);
      r := Descriptor(Deferred(pc), 0, 0);
    }

    /** The right operand of `and` or `or` takes over the exits of the left one. */
    method JoinOperands(truth: bool, list: nat, right: Descriptor, ghost u: Bounds, ghost code1: seq<Instr>, ghost x: Site,
                        ghost l: Expr, ghost xr: Site, ghost zs: seq<nat>, ghost ts: seq<nat>, ghost fs: seq<nat>)
      returns (status: Status, r: Descriptor, ghost us: seq<nat>, ghost gs: seq<nat>)
      requires Holds(xr, right, ts, fs) && Grows(u, Current()) && code1 <= emitter.code && emitter.registerFloor <= x.mark
      requires xr.start == |code1| && xr.mark == x.mark && IsChain(code1, list, zs) && !right.kind.Temporary?
      requires Compiled(u, code1, x.start, x.mark, NO_REGISTER, Knows(truth),
                        if truth then {} else Members(zs), if truth then Members(zs) else {}, l)
      requires x.expr == (if truth then And(l, xr.expr) else Or(l, xr.expr)) && InFragment(xr.expr, x.mark)
      modifies emitter`code
      ensures emitter.Valid()
      ensures status.Failure? ==> Exhausted()
      ensures status.Success? ==>
        && Holds(x, r, us, gs) && r.kind == right.kind && |us| + |gs| == |ts| + |fs| + |zs|
        && code1[..x.start] <= emitter.code
    {
      ghost var code2 := emitter.code;
      us, gs := if truth then ts else ts + zs, if truth then fs + zs else fs;
      r := right;
      JoinReady(u, Current(), code1, x, truth, list, zs, l, code2, right, ts, fs, xr);
      if truth {
        var joined;
        status, joined := emitter.JoinJumps(right.falseExits, list, fs, zs);
        r := right.(falseExits := joined);
        if status.Success? {
          ExitsJoined(Current(), code2, x, Yields(right.kind), Members(us), Members(gs), fs, zs, joined, right.trueExits, ts, emitter.code);
        }
      } else {
        var joined;
        status, joined := emitter.JoinJumps(right.trueExits, list, ts, zs);
        r := right.(trueExits := joined);
        if status.Success? {
          ExitsJoined(Current(), code2, x, Yields(right.kind), Members(us), Members(gs), ts, zs, joined, right.falseExits, fs, emitter.code);
        }
      }
    }

    // ----- expressions -----

    /** The promise of every expression method: the code appended so far is described by the result. */
    twostate predicate Parsed(e: Expr, v: Descriptor, ts: seq<nat>, fs: seq<nat>)
      reads emitter
    {
      && Holds(Site(old(|emitter.code|), old(emitter.registerTop), e), v, ts, fs)
      && !v.kind.Temporary?
      && old(emitter.code) <= emitter.code
      && emitter.pendingResults == old(emitter.pendingResults) + Count(v.kind.Deferred?)
      && emitter.unresolvedJumps == old(emitter.unresolvedJumps) + OwnedJumps(v, ts, fs)
    }

    method CompileExpression(e: Expr) returns (status: Status, v: Descriptor, ghost ts: seq<nat>, ghost fs: seq<nat>)
      requires emitter.Valid() && InFragment(e, emitter.registerFloor) && !CopiesBefore(emitter.code, |emitter.code|)
      modifies emitter
      ensures Grown()
      ensures status.Failure? ==> Exhausted()
      ensures status.Success? ==> Parsed(e, v, ts, fs)
      decreases e, 2
    {
      ts, fs := [], [];
      match e {
        case Literal(value) =>
          status, v := CompileLeaf(e);
        case LocalName(register) =>
          status, v := CompileLeaf(e);
        case GlobalName(name) =>
          status, v := CompileLeaf(e);
        case Not(operand) =>
          status, v, ts, fs := CompileNot(operand, e);
        case Unary(op, operand) =>
          status, v := CompileUnary(op, operand, e);
        case Binary(op, l, r) =>
          if op == Concat {
            status, v := CompileConcat(e);
          } else {
            status, v := CompileInfix(Arithmetic(op), l, r, e);
          }
        case Compare(rel, l, r) =>
          status, v := CompileInfix(Relational(rel), l, r, e);
        case And(l, r) =>
          status, v, ts, fs := CompileLogical(true, l, r, e);
        case Or(l, r) =>
          status, v, ts, fs := CompileLogical(false, l, r, e);
      }
    }

    method CompileLeaf(e: Expr) returns (status: Status, v: Descriptor)
      requires emitter.Valid() && InFragment(e, emitter.registerFloor) && !CopiesBefore(emitter.code, |emitter.code|)
      requires e.Literal? || e.LocalName? || e.GlobalName?
      modifies emitter`constants, emitter`constantIndexes
      ensures Grown()
      ensures status.Failure? ==> Exhausted()
      ensures status.Success? ==> Parsed(e, v, [], [])
    {
      ghost var x := Site(|emitter.code|, emitter.registerTop, e);
      status := Success;
      match e {
        case Literal(value) =>
          v := Descriptor(Kind.Literal(value), 0, 0);
        case LocalName(register) =>
          v := Descriptor(Local(register), 0, 0);
        case GlobalName(name) =>
          var index;
          status, index := emitter.Constant(Text(name));
          v := Descriptor(Global(index), 0, 0);
      }
      if status.Success? {
        LeafReady(Current(), emitter.code, x, v.kind);
      }
    }

    method CompileNot(operand: Expr, e: Expr) returns (status: Status, v: Descriptor, ghost ts: seq<nat>, ghost fs: seq<nat>)
      requires emitter.Valid() && InFragment(e, emitter.registerFloor) && !CopiesBefore(emitter.code, |emitter.code|)
      requires e == Expr.Not(operand)
      modifies emitter
      ensures Grown()
      ensures status.Failure? ==> Exhausted()
      ensures status.Success? ==> Parsed(e, v, ts, fs)
      decreases e, 0
    {
      ghost var x := Site(|emitter.code|, emitter.registerTop, operand);
      status, v, fs, ts := CompileExpression(operand);
      if status.Success? {
        status, v := EmitNot(v, x, fs, ts);
      }
    }

    method CompileUnary(op: Operator, operand: Expr, e: Expr) returns (status: Status, v: Descriptor)
      requires emitter.Valid() && InFragment(e, emitter.registerFloor) && !CopiesBefore(emitter.code, |emitter.code|)
      requires e == Expr.Unary(op, operand)
      modifies emitter
      ensures Grown()
      ensures status.Failure? ==> Exhausted()
      ensures status.Success? ==> Parsed(e, v, [], [])
      decreases e, 0
    {
      ghost var x := Site(|emitter.code|, emitter.registerTop, operand);
      ghost var us, gs;
      status, v, us, gs := CompileExpression(operand);
      if status.Success? {
        status, v := EmitUnary(op, v, x, us, gs);
      }
    }

    method CompileInfix(infix: Infix, l: Expr, r: Expr, e: Expr) returns (status: Status, v: Descriptor)
      requires emitter.Valid() && !CopiesBefore(emitter.code, |emitter.code|) && InFragment(e, emitter.registerFloor)
      requires e == Joined(infix, l, r) && (infix.Arithmetic? ==> IsArithmetic(infix.op))
      modifies emitter
      ensures Grown()
      ensures status.Failure? ==> Exhausted()
      ensures status.Success? ==> Parsed(e, v, [], [])
      decreases e, 0
    {
      ghost var x := Site(|emitter.code|, emitter.registerTop, e);
      ghost var us, gs;
      var left, right, preparedRK, prepared;
      ghost var y;
      status, left, preparedRK, prepared, y := CompileLeft(infix, l, e);
      v := left;
      if status.Failure? {
        return;
      }
      ghost var xr := Site(|emitter.code|, emitter.registerTop, r);
      status, right, us, gs := CompileExpression(r);
      if status.Failure? {
        return;
      }
      FragmentGrows(r, emitter.registerFloor, x.mark);
      status, v := EmitBinary(infix, left, right, preparedRK, prepared, x, y, xr, us, gs);
    }

    /** The left operand becomes an operand at once, unless it is a number that may still be folded. */
    method CompileLeft(infix: Infix, l: Expr, ghost e: Expr)
      returns (status: Status, left: Descriptor, preparedRK: nat, prepared: bool, ghost y: LeftOperand)
      requires emitter.Valid() && !CopiesBefore(emitter.code, |emitter.code|) && InFragment(l, emitter.registerFloor)
      requires l < e
      modifies emitter
      ensures Grown()
      ensures status.Failure? ==> Exhausted()
      ensures status.Success? ==>
        var x := Site(old(|emitter.code|), old(emitter.registerTop), e);
        && IsLeft(x, y) && y == LeftOperand(Current(), emitter.code, left.kind, l)
        && old(emitter.code) <= emitter.code && !CopiesBefore(emitter.code, |emitter.code|)
        && emitter.registerTop == TopFor(x, left.kind) && left.trueExits == left.falseExits == 0
        && (if prepared then OperandFor(emitter.constants, left.kind, preparedRK)
            else infix.Arithmetic? && left.kind.Literal? && left.kind.value.Number?)
        && emitter.pendingResults == old(emitter.pendingResults) && emitter.unresolvedJumps == old(emitter.unresolvedJumps)
      decreases l, 3
    {
      ghost var x := Site(|emitter.code|, emitter.registerTop, l);
      ghost var ts, fs;
      preparedRK, prepared := 0, false;
      status, left, ts, fs := CompileExpression(l);
      y := LeftOperand(Current(), emitter.code, left.kind, l);
      if status.Failure? {
        return;
      }
      if !infix.Arithmetic? || !left.kind.Literal? || !left.kind.value.Number? || left.trueExits != 0 || left.falseExits != 0 {
        status, left, preparedRK := ExpressionToRK(left, x, ts, fs);
        y := LeftOperand(Current(), emitter.code, left.kind, l);
        if status.Failure? {
          return;
        }
        prepared := true;
      }
      LeftReady(y, x, left);
    }

    method CompileConcat(e: Expr) returns (status: Status, v: Descriptor)
      requires emitter.Valid() && !CopiesBefore(emitter.code, |emitter.code|) && InFragment(e, emitter.registerFloor)
      requires e.Binary? && e.bop == Concat
      modifies emitter
      ensures Grown()
      ensures status.Failure? ==> Exhausted()
      ensures status.Success? ==> Parsed(e, v, [], [])
      decreases e, 1
    {
      ghost var x := Site(|emitter.code|, emitter.registerTop, e);
      ghost var us, gs, y;
      var left, right;
      status, left, y := PrepareConcat(e);
      v := left;
      if status.Failure? {
        return;
      }
      ghost var xr := Site(|emitter.code|, emitter.registerTop, e.right);
      status, right, us, gs := CompileExpression(e.right);
      if status.Failure? {
        return;
      }
      FragmentGrows(e.right, emitter.registerFloor, x.mark);
      status, v := EmitConcat(left, right, x, y, xr, us, gs);
    }

    /** The left operand of a concatenation goes to the next register. */
    method PrepareConcat(e: Expr) returns (status: Status, left: Descriptor, ghost y: LeftOperand)
      requires emitter.Valid() && !CopiesBefore(emitter.code, |emitter.code|) && InFragment(e, emitter.registerFloor)
      requires e.Binary? && e.bop == Concat
      modifies emitter
      ensures Grown()
      ensures status.Failure? ==> Exhausted()
      ensures status.Success? ==>
        var x := Site(old(|emitter.code|), old(emitter.registerTop), e);
        && IsLeft(x, y) && y == LeftOperand(Current(), emitter.code, left.kind, e.left) && left.kind == Temporary(x.mark)
        && old(emitter.code) <= emitter.code && !CopiesBefore(emitter.code, |emitter.code|)
        && emitter.registerTop == x.mark + 1
        && emitter.pendingResults == old(emitter.pendingResults) && emitter.unresolvedJumps == old(emitter.unresolvedJumps)
      decreases e, 0
    {
      ghost var x := Site(|emitter.code|, emitter.registerTop, e.left);
      ghost var ts, fs;
      status, left, ts, fs := CompileExpression(e.left);
      y := LeftOperand(Current(), emitter.code, left.kind, e.left);
      if status.Failure? {
        return;
      }
      status, left := ExpressionToTemporary(left, x, ts, fs);
      y := LeftOperand(Current(), emitter.code, left.kind, e.left);
      if status.Success? {
        LeftReady(y, x, left);
      }
    }

    /** `and` for `truth`, `or` otherwise. */
    method CompileLogical(truth: bool, l: Expr, r: Expr, e: Expr)
      returns (status: Status, v: Descriptor, ghost ts: seq<nat>, ghost fs: seq<nat>)
      requires emitter.Valid() && !CopiesBefore(emitter.code, |emitter.code|) && InFragment(e, emitter.registerFloor)
      requires e == if truth then And(l, r) else Or(l, r)
      modifies emitter
      ensures Grown()
      ensures status.Failure? ==> Exhausted()
      ensures status.Success? ==> Parsed(e, v, ts, fs)
      decreases e, 0
    {
      ghost var x := Site(|emitter.code|, emitter.registerTop, e);
      var list;
      ghost var zs;
      v, ts, fs := Descriptor(Invalid, 0, 0), [], [];
      status, list, zs := CompileGuard(truth, l, e);
      if status.Failure? {
        return;
      }
      ghost var u, code1 := Current(), emitter.code;
      ghost var xr := Site(|emitter.code|, emitter.registerTop, r);
      status, v, ts, fs := CompileExpression(r);
      if status.Failure? {
        return;
      }
      FragmentGrows(r, emitter.registerFloor, x.mark);
      status, v, ts, fs := JoinOperands(truth, list, v, u, code1, x, l, xr, zs, ts, fs);
    }

    /** An operand of which only one side goes on. */
    method CompileGuard(truth: bool, l: Expr, ghost e: Expr) returns (status: Status, list: nat, ghost zs: seq<nat>)
      requires emitter.Valid() && !CopiesBefore(emitter.code, |emitter.code|) && InFragment(l, emitter.registerFloor) && l < e
      modifies emitter
      ensures Grown()
      ensures status.Failure? ==> Exhausted()
      ensures status.Success? ==>
        && Guards(Site(old(|emitter.code|), old(emitter.registerTop), l), truth, list, zs)
        && old(emitter.code) <= emitter.code && !CopiesBefore(emitter.code, |emitter.code|)
        && emitter.registerTop == old(emitter.registerTop)
        && emitter.pendingResults == old(emitter.pendingResults)
        && emitter.unresolvedJumps == old(emitter.unresolvedJumps) + |zs|
      decreases l, 3
    {
      ghost var x := Site(|emitter.code|, emitter.registerTop, l);
      ghost var ts, fs;
      var left;
      list, zs := 0, [];
      status, left, ts, fs := CompileExpression(l);
      if status.Failure? {
        return;
      }
      status, list, zs := FallThroughIf(truth, left, x, ts, fs);
      if status.Success? {
        GuardEnds(Current(), emitter.code, x, truth, zs);
      }
    }

    // ----- whole expressions -----

    /** Compiles an assignment of `e` to the register `target`: a local, which may itself occur in
        `e`, or the register just reserved.  All control flow is resolved and every result bound. */
    method CompileInto(e: Expr, target: nat) returns (status: Status)
      requires emitter.Valid() && InFragment(e, emitter.registerFloor) && !CopiesBefore(emitter.code, |emitter.code|)
      requires target < emitter.registerHigh
      modifies emitter
      ensures Grown()
      ensures status.Failure? ==> Exhausted()
      ensures status.Success? ==>
        && old(emitter.code) <= emitter.code
        && emitter.unresolvedJumps == old(emitter.unresolvedJumps) && emitter.pendingResults == old(emitter.pendingResults)
        && Assigns(Current(), emitter.code, old(|emitter.code|), old(emitter.registerTop), e, target)
    {
      ghost var x := Site(|emitter.code|, emitter.registerTop, e);
      var v;
      ghost var ts, fs;
      status, v, ts, fs := CompileExpression(e);
      if status.Failure? {
        return;
      }
      status, v := WriteExpression(v, target, x, ts, fs);
      if status.Success? {
        assert Members([]) == {};
        AssignsCompiled(Current(), emitter.code, x.start, x.mark, e, target);
      }
    }

    /** Compiles a condition: the truthy path falls through and the jumps of `list` leave on the
        other one. */
    method CompileCondition(e: Expr) returns (status: Status, list: nat, ghost xs: seq<nat>)
      requires emitter.Valid() && InFragment(e, emitter.registerFloor) && !CopiesBefore(emitter.code, |emitter.code|)
      modifies emitter
      ensures Grown()
      ensures status.Failure? ==> Exhausted()
      ensures status.Success? ==>
        && old(emitter.code) <= emitter.code && IsChain(emitter.code, list, xs)
        && emitter.registerTop == old(emitter.registerTop)
        && emitter.unresolvedJumps == old(emitter.unresolvedJumps) + |xs| && emitter.pendingResults == old(emitter.pendingResults)
        && Chooses(Current(), emitter.code, old(|emitter.code|), old(emitter.registerTop), Members(xs), e)
    {
      ghost var x := Site(|emitter.code|, emitter.registerTop, e);
      var v;
      ghost var ts, fs;
      list, xs := 0, [];
      status, v, ts, fs := CompileExpression(e);
      if status.Failure? {
        return;
      }
      status, list, xs := ConditionFalseExits(v, x, ts, fs);
    }

    method ConditionFalseExits(v: Descriptor, ghost x: Site, ghost ts: seq<nat>, ghost fs: seq<nat>)
      returns (status: Status, list: nat, ghost xs: seq<nat>)
      requires Holds(x, v, ts, fs)
      modifies emitter
      ensures Grown()
      ensures status.Failure? ==> Exhausted()
      ensures status.Success? ==>
        && old(emitter.code)[..x.start] <= emitter.code && IsChain(emitter.code, list, xs)
        && emitter.registerTop == x.mark
        && emitter.unresolvedJumps == old(emitter.unresolvedJumps) - OwnedJumps(v, ts, fs) + |xs|
        && emitter.pendingResults == old(emitter.pendingResults) - Count(v.kind.Deferred?)
        && Chooses(Current(), emitter.code, x.start, x.mark, Members(xs), x.expr)
    {
      if v.kind.Literal? && !Truth(v.kind.value) {
        status, list, xs := LeaveAlways(v, x, ts, fs);
        return;
      }
      status, list, xs := FallThroughIf(true, v, x, ts, fs);
      if status.Success? {
        ChoosesGuarded(Current(), emitter.code, x, xs);
      }
    }

    /** A constant that is never true leaves by an unconditional jump. */
    method LeaveAlways(v: Descriptor, ghost x: Site, ghost ts: seq<nat>, ghost fs: seq<nat>)
      returns (status: Status, list: nat, ghost xs: seq<nat>)
      requires Holds(x, v, ts, fs) && v.kind.Literal? && !Truth(v.kind.value)
      modifies emitter`code, emitter`unresolvedJumps
      ensures emitter.Valid()
      ensures status.Failure? ==> Exhausted()
      ensures status.Success? ==>
        && old(emitter.code)[..x.start] <= emitter.code && IsChain(emitter.code, list, xs)
        && emitter.unresolvedJumps == old(emitter.unresolvedJumps) - |ts| - |fs| + |xs|
        && Chooses(Current(), emitter.code, x.start, x.mark, Members(xs), x.expr)
    {
      ghost var code0, j := emitter.code, |emitter.code|;
      var exit := emitter.EmitJump();
      BareExit(Current(), code0, x, v, ts, fs, emitter.code);
      xs := [j] + fs;
      status, list := emitter.JoinJumps(exit, v.falseExits, [j], fs);
      if status.Failure? {
        return;
      }
      BareExitPatched(Current(), code0, x, v, ts, fs, list, emitter.code);
      status := emitter.PatchConditionalJumps(v.trueExits, |emitter.code|, NO_REGISTER, |emitter.code|, ts);
    }
  }
}
