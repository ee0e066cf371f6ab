/** The final write of a value: resolving every exit so that each path leaves the value in the
    target register. */
module Writing {
  import opened Machine
  import opened OpenCode
  import opened Emitter
  import opened Meaning
  import opened Lowering
  import Operands

  /** The instructions that materialize a Boolean; `over` jumps across them from a value that is
      already written. */
  function Loads(target: nat, over: bool): (r: seq<Instr>) {
    (if over then [Jump(2)] else []) + [LoadBool(target, false, true), LoadBool(target, true, false)]
  }

  /** The finished code: false exits without a copy go to `falseTarget`, true ones to `trueTarget`,
      and exits with a copy go to the end. */
  function Finished(code: seq<Instr>, ts: seq<nat>, fs: seq<nat>, target: nat, falseTarget: nat, trueTarget: nat): (r: seq<Instr>)
    ensures |r| == |code|
  {
    Patched(Patched(code, fs, |code|, target, falseTarget), ts, |code|, target, trueTarget)
  }

  function FinishedAt(code: seq<Instr>, ts: seq<nat>, fs: seq<nat>, target: nat, falseTarget: nat, trueTarget: nat, k: nat): Instr
    requires k < |code|
  {
    if k in ts then Jump((if CopiesBefore(code, k) then |code| else trueTarget) - (k + 1))
    else if k in fs then Jump((if CopiesBefore(code, k) then |code| else falseTarget) - (k + 1))
    else if (k + 1 in ts || k + 1 in fs) && code[k].TestSet? then Redirected(code[k], target)
    else code[k]
  }

  lemma FinishedPointwise(code: seq<Instr>, ts: seq<nat>, fs: seq<nat>, target: nat, ft: nat, tt: nat, k: nat)
    requires k < |code| && AllJumps(code, ts) && AllJumps(code, fs) && Members(ts) !! Members(fs)
    ensures Finished(code, ts, fs, target, ft, tt)[k] == FinishedAt(code, ts, fs, target, ft, tt, k)
  {
    assert k in ts ==> k in Members(ts);
    assert k in fs ==> k in Members(fs);
    assert k + 1 in ts ==> k + 1 in Members(ts);
    assert k + 1 in fs ==> k + 1 in Members(fs);
    var once := Patched(code, fs, |code|, target, ft);
    if k > 0 {
      assert once[k - 1] == PatchedAt(code, fs, |code|, target, ft, k - 1);
      assert k - 1 in fs ==> code[k - 1].Jump?;
    }
  }

  lemma FinishedShape(code: seq<Instr>, ts: seq<nat>, fs: seq<nat>, target: nat, ext: seq<Instr>, ft: nat, tt: nat)
    requires AllJumps(code, ts) && AllJumps(code, fs) && Members(ts) !! Members(fs)
    requires forall k :: 0 <= k < |ext| ==> !ext[k].TestSet?
    ensures var code1, code' := code + ext, Finished(code + ext, ts, fs, target, ft, tt);
            && (forall k :: |code| <= k < |code1| ==> code'[k] == ext[k - |code|])
            && (forall k :: 0 <= k < |code| ==> code'[k] == FinishedAt(code1, ts, fs, target, ft, tt, k))
            && (forall k :: 0 <= k < |code| ==> IsControl(code'[k]) == IsControl(code[k]))
  {
    var code1, code' := code + ext, Finished(code + ext, ts, fs, target, ft, tt);
    forall k | 0 <= k < |code1| ensures code'[k] == FinishedAt(code1, ts, fs, target, ft, tt, k) {
      FinishedPointwise(code1, ts, fs, target, ft, tt, k);
    }
  }

  lemma FinishRefines(code: seq<Instr>, start: nat, ts: seq<nat>, fs: seq<nat>, target: nat, ext: seq<Instr>, ft: nat, tt: nat)
    requires WellFormed(code, start, Members(ts) + Members(fs)) && Members(ts) !! Members(fs)
    requires forall k :: 0 <= k < |ext| ==> !ext[k].TestSet?
    requires |code| <= ft <= |code| + |ext| && |code| <= tt <= |code| + |ext|
    ensures AllJumps(code, ts) && AllJumps(code, fs)
    ensures Refines(code, Members(ts) + Members(fs), Finished(code + ext, ts, fs, target, ft, tt), {}, start)
  {
    var P := Members(ts) + Members(fs);
    var code' := Finished(code + ext, ts, fs, target, ft, tt);
    forall j | j in ts || j in fs ensures j in P && j < |code| && code[j].Jump? { assert j in P; }
    FinishedShape(code, ts, fs, target, ext, ft, tt);
    forall k | start <= k < |code| ensures RefinedAt(code, P, code', {}, k) {
      assert WellPlaced(code, P, k);
      assert code'[k] == FinishedAt(code + ext, ts, fs, target, ft, tt, k);
      assert k in P ==> k in ts || k in fs;
    }
  }

  lemma FinishWellFormed(code: seq<Instr>, start: nat, ts: seq<nat>, fs: seq<nat>, target: nat, ext: seq<Instr>, ft: nat, tt: nat)
    requires WellFormed(code, start, Members(ts) + Members(fs)) && Members(ts) !! Members(fs) && !CopiesBefore(code, start)
    requires ext == [] || ext == Loads(target, true) || ext == Loads(target, false)
    requires if ext == [] then ft == tt == |code| else ft + 2 == tt + 1 == |code| + |ext|
    ensures var code' := Finished(code + ext, ts, fs, target, ft, tt);
            WellFormed(code', start, {}) && !CopiesBefore(code', start)
  {
    var P := Members(ts) + Members(fs);
    var code' := Finished(code + ext, ts, fs, target, ft, tt);
    FinishRefines(code, start, ts, fs, target, ext, ft, tt);
    FinishedShape(code, ts, fs, target, ext, ft, tt);
    if |code| > start { assert WellPlaced(code, P, |code| - 1); }
    forall k | start <= k < |code'| ensures WellPlaced(code', {}, k) {
      if k < |code| {
        FinishPlaced(code, start, P, ts, fs, target, ext, ft, tt, code', k);
      }
    }
    if start > 0 {
      assert code'[start - 1] == FinishedAt(code + ext, ts, fs, target, ft, tt, start - 1);
      assert start - 1 in ts || start - 1 in fs ==> start - 1 in P;
    }
  }

  lemma FinishPlaced(code: seq<Instr>, start: nat, P: set<nat>, ts: seq<nat>, fs: seq<nat>, target: nat, ext: seq<Instr>,
                     ft: nat, tt: nat, code': seq<Instr>, k: nat)
    requires start <= k < |code| && |code'| == |code| + |ext| && P == Members(ts) + Members(fs)
    requires WellPlaced(code, P, k) && RefinedAt(code, P, code', {}, k)
    requires |code| <= ft <= |code'| && |code| <= tt <= |code'|
    requires !IsControl(code'[ft - 1]) && !IsControl(code'[tt - 1]) && !IsControl(code'[|code'| - 1])
    requires forall i :: 0 <= i < |code| ==> IsControl(code'[i]) == IsControl(code[i])
    requires code'[k] == FinishedAt(code + ext, ts, fs, target, ft, tt, k)
    requires k + 1 < |code| && (k + 1 in P || code[k + 1].Jump?) ==> code'[k + 1].Jump?
    ensures WellPlaced(code', {}, k)
  {
    assert k in P ==> k in ts || k in fs;
  }

  /** Without extra instructions every exit must carry its own copy; with them, exits that do not
      go to the Boolean they stand for. */
  ghost predicate Plan(code: seq<Instr>, fall: Fall, ts: seq<nat>, fs: seq<nat>, target: nat, ext: seq<Instr>, ft: nat, tt: nat) {
    if ext == [] then
      fall.Yields? && ft == tt == |code| && forall j :: j in ts || j in fs ==> CopiesBefore(code, j)
    else
      ext == Loads(target, fall.Yields?) && ft + 2 == tt + 1 == |code| + |ext|
  }

  // ----- what the finished code does -----

  /** The state once the value is in the target. */
  function Landed(code: seq<Instr>, ts: seq<nat>, target: nat, out: Outcome, fall: Fall): Outcome {
    match out
    case Fell(s) => if fall.FallsFalse? then Fell(Write(s, target, Boolean(false))) else out
    case Exited(j, s) => Fell(Write(s, target, ExitValue(code, j, s, j in ts)))
    case _ => out
  }

  lemma RunLoads(w: World, code: seq<Instr>, target: nat, pc: nat, s: State)
    requires |code| >= 2 && code[|code| - 2..] == Loads(target, false)
    requires pc == |code| - 2 || pc == |code| - 1
    ensures Run(w, code, {}, pc, s) == Fell(Write(s, target, Boolean(pc == |code| - 1)))
  {
    assert code[|code| - 2] == Loads(target, false)[0] && code[|code| - 1] == Loads(target, false)[1];
    assert Run(w, code, {}, |code|, Write(s, target, Boolean(pc == |code| - 1))).Fell?;
  }

  /** The value of an exit lands in the target whether its TESTSET was directed or dropped. */
  lemma ExitLands(w: World, code: seq<Instr>, start: nat, fall: Fall, ts: seq<nat>, fs: seq<nat>, target: nat, ext: seq<Instr>,
                  ft: nat, tt: nat, j: nat, s: State)
    requires WellFormed(code, start, Members(ts) + Members(fs)) && Members(ts) !! Members(fs) && !CopiesBefore(code, start)
    requires j in ts || j in fs
    requires target < NO_REGISTER && target < |s.regs|
    requires Plan(code, fall, ts, fs, target, ext, ft, tt)
    ensures var code' := Finished(code + ext, ts, fs, target, ft, tt);
            && start <= j < |code| && code'[j].Jump? && 0 <= Target(code', j)
            && Run(w, code', {}, Target(code', j), Copied(code', start, j, s))
               == Fell(Write(s, target, ExitValue(code, j, s, j in ts)))
  {
    var code1, code' := code + ext, Finished(code + ext, ts, fs, target, ft, tt);
    assert j in Members(ts) + Members(fs);
    assert j in ts && j in fs ==> j in Members(ts) && j in Members(fs);
    FinishRefines(code, start, ts, fs, target, ext, ft, tt);
    FinishedShape(code, ts, fs, target, ext, ft, tt);
    assert code'[j] == FinishedAt(code1, ts, fs, target, ft, tt, j);
    if CopiesBefore(code, j) {
      assert j > start && code1[j - 1] == code[j - 1];
      assert code'[j - 1] == FinishedAt(code1, ts, fs, target, ft, tt, j - 1) == Redirected(code[j - 1], target);
      assert Write(s, target, Read(s, target)) == s;
    } else {
      assert ext != [];
      assert j > start ==> code'[j - 1] == FinishedAt(code1, ts, fs, target, ft, tt, j - 1);
      assert code'[|code'| - 2..] == Loads(target, false);
      RunLoads(w, code', target, Target(code', j), s);
    }
  }

  /** Every exit is resolved and every path leaves the value of the expression in `target`. */
  lemma FinishCompiled(u: Bounds, u': Bounds, code: seq<Instr>, start: nat, mark: nat, dst: nat, fall: Fall,
                       ts: seq<nat>, fs: seq<nat>, e: Expr, target: nat, ext: seq<Instr>, ft: nat, tt: nat)
    requires Compiled(u, code, start, mark, dst, fall, Members(ts), Members(fs), e) && Grows(u, u')
    requires fall == Yields(Temporary(target)) || fall == FallsFalse
    requires dst == target || dst == NO_REGISTER
    requires target < u'.high && target < NO_REGISTER
    requires Plan(code, fall, ts, fs, target, ext, ft, tt)
    ensures Compiled(u', Finished(code + ext, ts, fs, target, ft, tt), start, mark, target, Yields(Temporary(target)), {}, {}, e)
  {
    var T, F := Members(ts), Members(fs);
    var code' := Finished(code + ext, ts, fs, target, ft, tt);
    assert Core(code, fall) == code && Core(code', Yields(Temporary(target))) == code';
    FinishWellFormed(code, start, ts, fs, target, ext, ft, tt);
    assert Laid(code', start, Yields(Temporary(target)), {}, {}) by { Operands.NothingPending(); }
    forall w, s | Admits(u', w, s)
      ensures Describes(w, code', mark, target, Yields(Temporary(target)), {}, {}, Eval(w, e, s), s, Run(w, code', {} + {}, start, s))
    {
      Operands.NothingPending();
      assert Admits(u, w, s);
      var out := Run(w, code, T + F, start, s);
      FinishRun(w, code, start, fall, ts, fs, target, ext, ft, tt, s);
      FinishMeaning(w, code, mark, dst, fall, ts, fs, Eval(w, e, s), s, out, target, code');
    }
  }

  lemma FinishRun(w: World, code: seq<Instr>, start: nat, fall: Fall, ts: seq<nat>, fs: seq<nat>, target: nat,
                  ext: seq<Instr>, ft: nat, tt: nat, s: State)
    requires WellFormed(code, start, Members(ts) + Members(fs)) && Members(ts) !! Members(fs) && !CopiesBefore(code, start)
    requires target < NO_REGISTER && target < |s.regs| <= MAX_REGISTERS
    requires !fall.Knows?
    requires Plan(code, fall, ts, fs, target, ext, ft, tt)
    requires var out := Run(w, code, Members(ts) + Members(fs), start, s);
             (out.Fell? || out.Exited?) ==> |out.state.regs| == |s.regs|
    ensures var out := Run(w, code, Members(ts) + Members(fs), start, s);
            out.Stuck? || Run(w, Finished(code + ext, ts, fs, target, ft, tt), {}, start, s) == Landed(code, ts, target, out, fall)
  {
    var P := Members(ts) + Members(fs);
    var code' := Finished(code + ext, ts, fs, target, ft, tt);
    var out := Run(w, code, P, start, s);
    FinishSimulates(w, code, start, ts, fs, target, ext, ft, tt, s);
    if out.Exited? {
      ExitLands(w, code, start, fall, ts, fs, target, ext, ft, tt, out.pc, out.state);
    } else if out.Fell? {
      FallLands(w, code, fall, target, ext, code', out.state);
    }
  }

  lemma FinishSimulates(w: World, code: seq<Instr>, start: nat, ts: seq<nat>, fs: seq<nat>, target: nat,
                        ext: seq<Instr>, ft: nat, tt: nat, s: State)
    requires WellFormed(code, start, Members(ts) + Members(fs)) && Members(ts) !! Members(fs) && !CopiesBefore(code, start)
    requires |s.regs| <= MAX_REGISTERS
    requires ext == [] || ext == Loads(target, true) || ext == Loads(target, false)
    requires |code| <= ft <= |code| + |ext| && |code| <= tt <= |code| + |ext|
    ensures var P, code' := Members(ts) + Members(fs), Finished(code + ext, ts, fs, target, ft, tt);
            var out, out' := Run(w, code, P, start, s), Run(w, code', {}, start, s);
            && (forall k :: |code| <= k < |code'| ==> code'[k] == ext[k - |code|])
            && (out.Fell? ==> out' == Run(w, code', {}, |code|, out.state))
            && (out.Raised? ==> out' == out)
            && (out.Exited? ==>
                  && (out.pc in ts || out.pc in fs)
                  && start <= out.pc < |code|
                  && code'[out.pc].Jump? && 0 <= Target(code', out.pc)
                  && out' == Run(w, code', {}, Target(code', out.pc), Copied(code', start, out.pc, out.state)))
  {
    var P := Members(ts) + Members(fs);
    FinishRefines(code, start, ts, fs, target, ext, ft, tt);
    FinishedShape(code, ts, fs, target, ext, ft, tt);
    Simulate(w, code, P, Finished(code + ext, ts, fs, target, ft, tt), {}, start, start, s);
  }

  lemma FallLands(w: World, code: seq<Instr>, fall: Fall, target: nat, ext: seq<Instr>, code': seq<Instr>, s: State)
    requires |code'| == |code| + |ext| && forall k :: |code| <= k < |code'| ==> code'[k] == ext[k - |code|]
    requires (fall.Yields? && ext == []) || ext == Loads(target, fall.Yields?)
    requires !fall.Knows?
    ensures Run(w, code', {}, |code|, s) == Fell(if fall.FallsFalse? then Write(s, target, Boolean(false)) else s)
  {
    if fall.FallsFalse? {
      assert code'[|code'| - 2..] == Loads(target, false);
      RunLoads(w, code', target, |code|, s);
    } else if fall.Yields? && ext != [] {
      assert code'[|code|] == Jump(2) && |code'| == |code| + 3;
      assert Run(w, code', {}, |code'|, s) == Fell(s);
    }
  }

  lemma FinishMeaning(w: World, code: seq<Instr>, mark: nat, dst: nat, fall: Fall, ts: seq<nat>, fs: seq<nat>, reply: Reply,
                      s: State, out: Outcome, target: nat, code': seq<Instr>)
    requires Shape(code, fall) && (fall == Yields(Temporary(target)) || fall == FallsFalse)
    requires dst == target || dst == NO_REGISTER
    requires target < |s.regs| && mark <= |s.regs| <= MAX_REGISTERS
    requires Describes(w, code, mark, dst, fall, Members(ts), Members(fs), reply, s, out)
    ensures Describes(w, code', mark, target, Yields(Temporary(target)), {}, {}, reply, s, Landed(code, ts, target, out, fall))
  {
    if out.Exited? {
      assert out.pc in ts <==> out.pc in Members(ts);
    }
  }

  /** A value already in the target register needs no instruction. */
  lemma AlreadyWritten(u: Bounds, code: seq<Instr>, start: nat, mark: nat, kind: Kind, T: set<nat>, F: set<nat>, e: Expr)
    requires Compiled(u, code, start, mark, NO_REGISTER, Yields(kind), T, F, e) && (kind.Local? || kind.Temporary?)
    ensures Compiled(u, code, start, mark, kind.register, Yields(Temporary(kind.register)), T, F, e)
  {
    assert Core(code, Yields(kind)) == Core(code, Yields(Temporary(kind.register)));
  }

  /** A destination at or above the mark is no exception to what is preserved. */
  lemma AboveMark(u: Bounds, code: seq<Instr>, start: nat, mark: nat, dst: nat, kind: Kind, T: set<nat>, F: set<nat>, e: Expr)
    requires Compiled(u, code, start, mark, dst, Yields(kind), T, F, e) && mark <= dst
    ensures Compiled(u, code, start, mark, NO_REGISTER, Yields(kind), T, F, e)
  {
  }
}
