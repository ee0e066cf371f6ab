/** Meaning-preserving steps on compiled code: negation, branching, sequencing, operands and the
    final write of a value. */
module Lowering {
  import opened Wrappers
  import opened Machine
  import opened OpenCode
  import opened Emitter
  import opened Meaning

  // ----- negation -----

  ghost predicate Copyless(code: seq<Instr>, pcs: set<nat>) {
    forall j :: j in pcs ==> !CopiesBefore(code, j)
  }

  /** The exits of a negated expression change sides and carry Booleans. */
  lemma NegateCompiled(u: Bounds, code: seq<Instr>, start: nat, mark: nat, kind: Kind, ts: seq<nat>, fs: seq<nat>,
                       e: Expr, code': seq<Instr>, kind': Kind)
    requires Compiled(u, code, start, mark, NO_REGISTER, Yields(kind), Members(ts), Members(fs), e)
    requires Shape(code', Yields(kind'))
    requires Core(code', Yields(kind')) == Discarded(Discarded(Core(code, Yields(kind)), fs), ts)
    requires forall w, s {:trigger Admits(u, w, s)} :: Admits(u, w, s) ==>
      ValueOf(w, code', kind', s) == AsBoolean(ValueOf(w, code, kind, s), false)
    ensures Compiled(u, code', start, mark, NO_REGISTER, Yields(kind'), Members(fs), Members(ts), Expr.Not(e))
  {
    var T, F := Members(ts), Members(fs);
    var P := T + F;
    assert F + T == P;
    var core, core' := Core(code, Yields(kind)), Core(code', Yields(kind'));
    NegateLaid(core, start, ts, fs);
    assert Copyless(code', P) && !CopiesBefore(code', start) by {
      forall j | 0 < j <= |core'| ensures CopiesBefore(code', j) == CopiesBefore(core', j) {
        assert code'[j - 1] == core'[j - 1];
      }
    }
    forall w, s | Admits(u, w, s)
      ensures Describes(w, code', mark, NO_REGISTER, Yields(kind'), F, T, Eval(w, Expr.Not(e), s), s, Run(w, core', P, start, s))
    {
      var out := Run(w, core, P, start, s);
      SamePendingRun(w, core, P, core', start, s);
      if out.Fell? {
        assert Admits(u, w, out.state);
      }
      NegateAt(w, code, mark, kind, T, F, Eval(w, e, s), s, out, code', kind');
    }
  }

  lemma NegateAt(w: World, code: seq<Instr>, mark: nat, kind: Kind, T: set<nat>, F: set<nat>,
                 reply: Reply, s: State, out: Outcome, code': seq<Instr>, kind': Kind)
    requires Shape(code, Yields(kind)) && Shape(code', Yields(kind'))
    requires Describes(w, code, mark, NO_REGISTER, Yields(kind), T, F, reply, s, out)
    requires T !! F && Copyless(code', T + F)
    requires out.Fell? ==> ValueOf(w, code', kind', out.state) == AsBoolean(ValueOf(w, code, kind, out.state), false)
    ensures Describes(w, code', mark, NO_REGISTER, Yields(kind'), F, T, AsBoolean(reply, false), s, out)
  {
  }

  /** Rewriting that keeps every jump pending keeps the outcome. */
  lemma SamePendingRun(w: World, core: seq<Instr>, P: set<nat>, core': seq<Instr>, start: nat, s: State)
    requires WellFormed(core, start, P) && Refines(core, P, core', P, start) && |core'| == |core| && |s.regs| <= MAX_REGISTERS
    ensures Run(w, core, P, start, s) == Stuck || Run(w, core', P, start, s) == Run(w, core, P, start, s)
  {
    Simulate(w, core, P, core', P, start, start, s);
  }

  lemma NegateLaid(core: seq<Instr>, start: nat, ts: seq<nat>, fs: seq<nat>)
    requires WellFormed(core, start, Members(ts) + Members(fs)) && !CopiesBefore(core, start)
    ensures var P := Members(ts) + Members(fs);
            var core' := Discarded(Discarded(core, fs), ts);
            WellFormed(core', start, P) && Refines(core, P, core', P, start) && Copyless(core', P) && !CopiesBefore(core', start)
  {
    var P := Members(ts) + Members(fs);
    var core' := Discarded(Discarded(core, fs), ts);
    forall k | start <= k < |core| ensures RefinedAt(core, P, core', P, k) && IsControl(core[k]) == IsControl(core'[k])
    {
      assert WellPlaced(core, P, k);
    }
    forall k | start <= k < |core| ensures WellPlaced(core', P, k) {
      assert WellPlaced(core, P, k) && RefinedAt(core, P, core', P, k);
    }
  }

  // ----- branching on a value -----

  /** How a control instruction and the jump behind it decide on a pending value: they fall through
      exactly when its truth is `truth`. */
  ghost predicate Decides(w: World, control: Instr, reply: Reply, truth: bool, s: State) {
    match control
    case TestSet(a, b, when) =>
      a == NO_REGISTER && when == !truth && reply == Reply(Some(Read(s, b)), s.trace)
    case Test(a, when) =>
      when == truth && reply == Reply(Some(Boolean(!Truth(Read(s, a)))), s.trace)
    case Comparison(_, _, _, _) =>
      var r := Compared(w, control, s);
      if r.value.None? then reply == r
      else reply == Reply(Some(Boolean(Truth(r.value.value) != truth)), r.trace)
    case _ => false
  }

  lemma BranchLaid(core: seq<Instr>, start: nat, P: set<nat>, control: Instr)
    requires WellFormed(core, start, P) && IsControl(control) && (control.TestSet? ==> control.a == NO_REGISTER)
    ensures WellFormed(core + [control, Jump(-1)], start, P + {|core| + 1})
  {
    var code' := core + [control, Jump(-1)];
    var P' := P + {|core| + 1};
    forall k | start <= k < |code'| ensures WellPlaced(code', P', k) {
      if k < |core| { assert WellPlaced(core, P, k); }
    }
  }

  lemma RunBranch(w: World, core: seq<Instr>, control: Instr, P: set<nat>, s: State, reply: Reply, truth: bool)
    requires |core| !in P && |core| + 1 in P && |s.regs| <= MAX_REGISTERS
    requires IsControl(control) && Decides(w, control, reply, truth, s)
    ensures Run(w, core + [control, Jump(-1)], P, |core|, s) ==
      if reply.value.None? then Raised(reply.trace)
      else if Truth(reply.value.value) == truth then Fell(s.(trace := reply.trace))
      else Exited(|core| + 1, s.(trace := reply.trace))
  {
    var code := core + [control, Jump(-1)];
    var (next, out) := Step(w, code, |core|, s);
    if out.Fell? {
      assert out.state == s.(trace := reply.trace);
      assert next == |core| + 1 || next == |code|;
      assert Run(w, code, P, next, out.state) == if next == |code| then out else Exited(next, out.state);
    }
  }

  lemma BranchCompiled(u: Bounds, u': Bounds, code: seq<Instr>, start: nat, mark: nat, kind: Kind, T: set<nat>, F: set<nat>,
                       e: Expr, truth: bool, control: Instr, code': seq<Instr>, fall: Fall)
    requires fall == Knows(truth) || (fall == FallsFalse && !truth && control.Comparison?)
    requires Compiled(u, code, start, mark, NO_REGISTER, Yields(kind), T, F, e) && Grows(u, u')
    requires IsControl(control) && (control.TestSet? ==> control.a == NO_REGISTER)
    requires code' == Core(code, Yields(kind)) + [control, Jump(-1)]
    requires forall w, s {:trigger Admits(u', w, s)} :: Admits(u', w, s) ==> Decides(w, control, ValueOf(w, code, kind, s), truth, s)
    ensures var j := |code'| - 1;
            Compiled(u', code', start, mark, NO_REGISTER, fall,
                     if truth then T else T + {j}, if truth then F + {j} else F, e)
  {
    var core := Core(code, Yields(kind));
    var j := |code'| - 1;
    var T', F' := if truth then T else T + {j}, if truth then F + {j} else F;
    var P' := T' + F';
    assert P' == T + F + {j} && Core(code', fall) == code';
    assert Laid(code', start, fall, T', F') by {
      BranchLaid(core, start, T + F, control);
      assert start > 0 ==> code'[start - 1] == code[start - 1];
    }
    forall w, s | Admits(u', w, s)
      ensures Describes(w, code', mark, NO_REGISTER, fall, T', F', Eval(w, e, s), s, Run(w, code', P', start, s))
    {
      assert Admits(u, w, s);
      var out := Run(w, core, T + F, start, s);
      if out.Fell? {
        assert Admits(u', w, out.state);
      }
      BranchState(w, code, start, mark, kind, T, F, Eval(w, e, s), s, truth, control, code', fall, T', F');
    }
  }

  lemma BranchState(w: World, code: seq<Instr>, start: nat, mark: nat, kind: Kind, T: set<nat>, F: set<nat>, reply: Reply,
                    s: State, truth: bool, control: Instr, code': seq<Instr>, fall: Fall, T': set<nat>, F': set<nat>)
    requires fall == Knows(truth) || (fall == FallsFalse && !truth && control.Comparison?)
    requires Laid(code, start, Yields(kind), T, F) && IsControl(control) && |s.regs| <= MAX_REGISTERS
    requires code' == Core(code, Yields(kind)) + [control, Jump(-1)]
    requires var j := |code'| - 1;
             T' == (if truth then T else T + {j}) && F' == (if truth then F + {j} else F)
    requires var out := Run(w, Core(code, Yields(kind)), T + F, start, s);
             && Describes(w, code, mark, NO_REGISTER, Yields(kind), T, F, reply, s, out)
             && (out.Fell? ==> Decides(w, control, ValueOf(w, code, kind, out.state), truth, out.state))
    ensures Describes(w, code', mark, NO_REGISTER, fall, T', F', reply, s, Run(w, code', T' + F', start, s))
  {
    var core := Core(code, Yields(kind));
    var out := Run(w, core, T + F, start, s);
    var value := if out.Fell? then ValueOf(w, code, kind, out.state) else Reply(None, []);
    assert T' + F' == T + F + {|core| + 1};
    BranchRun(w, core, T + F, start, s, control, T' + F', value, truth);
    BranchAt(w, code, mark, kind, T, F, reply, s, out, truth, control, code', fall, T', F', Run(w, code', T' + F', start, s));
  }

  lemma BranchRun(w: World, core: seq<Instr>, P: set<nat>, start: nat, s: State, control: Instr, P': set<nat>,
                  reply: Reply, truth: bool)
    requires WellFormed(core, start, P) && P' == P + {|core| + 1} && |s.regs| <= MAX_REGISTERS
    requires var out := Run(w, core, P, start, s);
             !out.Stuck? && (out.Fell? ==> IsControl(control) && Decides(w, control, reply, truth, out.state)
                                           && |out.state.regs| <= MAX_REGISTERS)
    ensures var out, out' := Run(w, core, P, start, s), Run(w, core + [control, Jump(-1)], P', start, s);
            match out
            case Fell(s') =>
              out' == if reply.value.None? then Raised(reply.trace)
                      else if Truth(reply.value.value) == truth then Fell(s'.(trace := reply.trace))
                      else Exited(|core| + 1, s'.(trace := reply.trace))
            case _ => out' == out
  {
    ExtendedRuns(w, core, P, start, s, [control, Jump(-1)], P');
    var out := Run(w, core, P, start, s);
    if out.Fell? {
      RunBranch(w, core, control, P', out.state, reply, truth);
    }
  }

  lemma BranchAt(w: World, code: seq<Instr>, mark: nat, kind: Kind, T: set<nat>, F: set<nat>, reply: Reply, s: State,
                 out: Outcome, truth: bool, control: Instr, code': seq<Instr>, fall: Fall, T': set<nat>, F': set<nat>, out': Outcome)
    requires fall == Knows(truth) || (fall == FallsFalse && !truth && control.Comparison?)
    requires Shape(code, Yields(kind)) && IsControl(control)
    requires code' == Core(code, Yields(kind)) + [control, Jump(-1)]
    requires forall j :: j in T + F ==> j < |code'| - 2
    requires var j := |code'| - 1;
             T' == (if truth then T else T + {j}) && F' == (if truth then F + {j} else F)
    requires Describes(w, code, mark, NO_REGISTER, Yields(kind), T, F, reply, s, out)
    requires out.Fell? ==> Decides(w, control, ValueOf(w, code, kind, out.state), truth, out.state)
    requires match out
      case Fell(s') =>
        var value := ValueOf(w, code, kind, s');
        out' == if value.value.None? then Raised(value.trace)
                else if Truth(value.value.value) == truth then Fell(s'.(trace := value.trace))
                else Exited(|code'| - 1, s'.(trace := value.trace))
      case _ => out' == out
    ensures Describes(w, code', mark, NO_REGISTER, fall, T', F', reply, s, out')
  {
    var n := |code'| - 2;
    if out.Exited? {
      assert out.pc in T + F && code'[..n] == code[..n];
      assert out.pc > 0 ==> code'[out.pc - 1] == code[out.pc - 1];
    } else if out.Fell? && out'.Exited? {
      assert n + 1 !in T + F && code'[n] == control;
    }
  }

  // ----- resolving the exits on one side to the end of the code -----

  lemma PatchHereCompiled(u: Bounds, code: seq<Instr>, start: nat, mark: nat, truth: bool, T: set<nat>, F: set<nat>,
                          e: Expr, xs: seq<nat>)
    requires Compiled(u, code, start, mark, NO_REGISTER, Knows(truth), T, F, e)
    requires Members(xs) == if truth then T else F
    ensures Compiled(u, Patched(code, xs, |code|, NO_REGISTER, |code|), start, mark, NO_REGISTER, Knows(truth),
                     if truth then {} else T, if truth then F else {}, e)
  {
    var code' := Patched(code, xs, |code|, NO_REGISTER, |code|);
    var T', F' := if truth then {} else T, if truth then F else {};
    var P, P' := T + F, T' + F';
    assert Core(code, Knows(truth)) == code && Core(code', Knows(truth)) == code';
    assert P' == P - Members(xs);
    PatchHereLaid(code, start, P, xs);
    forall w, s | Admits(u, w, s)
      ensures Describes(w, code', mark, NO_REGISTER, Knows(truth), T', F', Eval(w, e, s), s, Run(w, code', P', start, s))
    {
      Simulate(w, code, P, code', P', start, start, s);
      PatchHereAt(w, code, P, mark, truth, T, F, Eval(w, e, s), s, Run(w, code, P, start, s), xs, T', F', P', start,
                  Run(w, code', P', start, s));
    }
  }

  lemma PatchHereLaid(code: seq<Instr>, start: nat, P: set<nat>, xs: seq<nat>)
    requires WellFormed(code, start, P) && Members(xs) <= P && !CopiesBefore(code, start)
    ensures var code' := Patched(code, xs, |code|, NO_REGISTER, |code|);
            && Refines(code, P, code', P - Members(xs), start) && WellFormed(code', start, P - Members(xs))
            && !CopiesBefore(code', start)
            && (forall j :: j in xs ==> j < |code| && !CopiesBefore(code', j) && code'[j] == Jump(|code| - (j + 1)))
            && (forall j :: j in P && j !in xs ==>
                  CopiesBefore(code', j) == CopiesBefore(code, j) &&
                  (CopiesBefore(code, j) ==> code'[j - 1] == code[j - 1]))
  {
    var code' := Patched(code, xs, |code|, NO_REGISTER, |code|);
    var P' := P - Members(xs);
    forall j | j in xs ensures j in P && j < |code| && code'[j].Jump? {
      assert j in Members(xs);
    }
    forall k | start <= k < |code|
      ensures RefinedAt(code, P, code', P', k) && IsControl(code[k]) == IsControl(code'[k])
    {
      assert WellPlaced(code, P, k);
    }
    if |code| > start {
      assert WellPlaced(code, P, |code| - 1);
    }
    forall k | start <= k < |code| ensures WellPlaced(code', P', k) {
      assert WellPlaced(code, P, k) && RefinedAt(code, P, code', P', k);
    }
    forall j | j in P && j !in xs
      ensures CopiesBefore(code', j) == CopiesBefore(code, j) && (CopiesBefore(code, j) ==> code'[j - 1] == code[j - 1])
    {
      assert start <= j < |code|;
      if j > start {
        assert j - 1 in xs ==> code[j - 1].Jump?;
      }
    }
  }

  lemma PatchHereAt(w: World, code: seq<Instr>, P: set<nat>, mark: nat, truth: bool, T: set<nat>, F: set<nat>, reply: Reply,
                    s: State, out: Outcome, xs: seq<nat>, T': set<nat>, F': set<nat>, P': set<nat>, start: nat, out': Outcome)
    requires P == T + F && T !! F && WellFormed(code, start, P) && P' == P - Members(xs)
    requires Members(xs) == (if truth then T else F) && !CopiesBefore(code, start)
    requires T' == (if truth then {} else T) && F' == (if truth then F else {})
    requires Describes(w, code, mark, NO_REGISTER, Knows(truth), T, F, reply, s, out)
    requires Carried(w, code, P, out, Patched(code, xs, |code|, NO_REGISTER, |code|), P', start, out')
    ensures Describes(w, Patched(code, xs, |code|, NO_REGISTER, |code|), mark, NO_REGISTER, Knows(truth), T', F', reply, s, out')
  {
    PatchHereLaid(code, start, P, xs);
    if out.Exited? && out.pc !in P' {
      assert out.pc in Members(xs) && out' == Fell(out.state);
    }
  }

  // ----- one operand of `and` or `or` after the other -----

  lemma {:induction false} PendingElsewhere(w: World, code: seq<Instr>, P: set<nat>, P': set<nat>, pc: nat, s: State)
    requires forall j :: pc <= j ==> (j in P <==> j in P')
    ensures Run(w, code, P, pc, s) == Run(w, code, P', pc, s)
    decreases |code| - pc
  {
    if pc < |code| && pc !in P {
      var (next, out) := Step(w, code, pc, s);
      if out.Fell? && next > pc && next <= |code| {
        PendingElsewhere(w, code, P, P', next, out.state);
      }
    }
  }

  lemma SequenceLaid(code: seq<Instr>, start: nat, X: set<nat>, core': seq<Instr>, P: set<nat>, P': set<nat>)
    requires WellFormed(code, start, X) && WellFormed(core', |code|, P) && code <= core' && P' == P + X
    ensures WellFormed(core', start, P') && Refines(code, X, core', P', start)
  {
    forall k | start <= k < |core'| ensures WellPlaced(core', P', k) {
      if k < |code| { assert WellPlaced(code, X, k); } else { assert WellPlaced(core', P, k); }
    }
    forall k | start <= k < |code| ensures RefinedAt(code, X, core', P', k) {
      assert WellPlaced(code, X, k);
    }
  }

  lemma SequenceCompiled(u: Bounds, u': Bounds, code: seq<Instr>, start: nat, mark: nat, truth: bool, X: set<nat>, l: Expr,
                         code': seq<Instr>, kind: Kind, T: set<nat>, F: set<nat>, r: Expr)
    requires Compiled(u, code, start, mark, NO_REGISTER, Knows(truth), if truth then {} else X, if truth then X else {}, l)
    requires Compiled(u', code', |code|, mark, NO_REGISTER, Yields(kind), T, F, r) && Grows(u, u')
    requires code <= code' && InFragment(r, mark)
    ensures Compiled(u', code', start, mark, NO_REGISTER, Yields(kind), if truth then T else T + X, if truth then F + X else F,
                     if truth then And(l, r) else Or(l, r))
  {
    var T', F' := if truth then T else T + X, if truth then F + X else F;
    var P' := T' + F';
    var core' := Core(code', Yields(kind));
    assert Core(code, Knows(truth)) == code;
    assert code <= core';
    var T0, F0 := if truth then {} else X, if truth then X else {};
    assert T0 + F0 == X && P' == T + F + X;
    SequenceLaid(code, start, X, core', T + F, P');
    assert start > 0 ==> code'[start - 1] == core'[start - 1];
    forall w, s | Admits(u', w, s)
      ensures Describes(w, code', mark, NO_REGISTER, Yields(kind), T', F', Eval(w, if truth then And(l, r) else Or(l, r), s), s,
                        Run(w, core', P', start, s))
    {
      assert Admits(u, w, s);
      var out := Run(w, code, X, start, s);
      if out.Fell? {
        assert Admits(u', w, out.state);
      }
      SequenceAt(w, code, start, mark, truth, X, T0, F0, l, s, code', kind, T, F, r, T', F');
    }
  }

  lemma SequenceAt(w: World, code: seq<Instr>, start: nat, mark: nat, truth: bool, X: set<nat>, T0: set<nat>, F0: set<nat>,
                   l: Expr, s: State, code': seq<Instr>, kind: Kind, T: set<nat>, F: set<nat>, r: Expr,
                   T': set<nat>, F': set<nat>)
    requires T0 == (if truth then {} else X) && F0 == (if truth then X else {})
    requires T' == (if truth then T else T + X) && F' == (if truth then F + X else F)
    requires Shape(code', Yields(kind)) && code <= Core(code', Yields(kind))
    requires WellFormed(code, start, X) && WellFormed(Core(code', Yields(kind)), |code|, T + F)
    requires forall j :: j in X ==> j < |code| && j !in T && j !in F
    requires mark <= |s.regs| <= MAX_REGISTERS && InFragment(r, mark)
    requires Describes(w, code, mark, NO_REGISTER, Knows(truth), T0, F0, Eval(w, l, s), s, Run(w, code, X, start, s))
    requires var out := Run(w, code, X, start, s);
             out.Fell? ==> Describes(w, code', mark, NO_REGISTER, Yields(kind), T, F, Eval(w, r, out.state), out.state,
                                     Run(w, Core(code', Yields(kind)), T + F, |code|, out.state))
    ensures Describes(w, code', mark, NO_REGISTER, Yields(kind), T', F', Eval(w, if truth then And(l, r) else Or(l, r), s), s,
                      Run(w, Core(code', Yields(kind)), T' + F', start, s))
  {
    var core' := Core(code', Yields(kind));
    assert T' + F' == T + F + X;
    SequenceRun(w, code, start, X, core', T + F, T' + F', s);
    SequenceMeaning(w, code, mark, truth, X, T0, F0, l, s, Run(w, code, X, start, s), code', kind, T, F, r, T', F',
                    Run(w, core', T' + F', start, s));
  }

  ghost predicate Continues(w: World, code: seq<Instr>, P: set<nat>, pc: nat, out: Outcome, out': Outcome) {
    if out.Fell? then out' == Run(w, code, P, pc, out.state) else out.Stuck? || out' == out
  }

  lemma SequenceRun(w: World, code: seq<Instr>, start: nat, X: set<nat>, core': seq<Instr>, P: set<nat>, P': set<nat>, s: State)
    requires WellFormed(code, start, X) && WellFormed(core', |code|, P) && code <= core' && P' == P + X
    requires |s.regs| <= MAX_REGISTERS
    ensures Continues(w, core', P, |code|, Run(w, code, X, start, s), Run(w, core', P', start, s))
  {
    SequenceLaid(code, start, X, core', P, P');
    Simulate(w, code, X, core', P', start, start, s);
    var out := Run(w, code, X, start, s);
    if out.Fell? {
      PendingElsewhere(w, core', P, P', |code|, out.state);
    }
  }

  lemma SequenceMeaning(w: World, code: seq<Instr>, mark: nat, truth: bool, X: set<nat>, T0: set<nat>, F0: set<nat>,
                        l: Expr, s: State, out: Outcome, code': seq<Instr>, kind: Kind, T: set<nat>, F: set<nat>, r: Expr,
                        T': set<nat>, F': set<nat>, out': Outcome)
    requires T0 == (if truth then {} else X) && F0 == (if truth then X else {})
    requires T' == (if truth then T else T + X) && F' == (if truth then F + X else F)
    requires Shape(code', Yields(kind)) && code <= code'
    requires forall j :: j in X ==> j < |code| && j !in T && j !in F
    requires mark <= |s.regs| <= MAX_REGISTERS && InFragment(r, mark)
    requires Describes(w, code, mark, NO_REGISTER, Knows(truth), T0, F0, Eval(w, l, s), s, out)
    requires if out.Fell? then Describes(w, code', mark, NO_REGISTER, Yields(kind), T, F, Eval(w, r, out.state), out.state, out')
             else out' == out
    ensures Describes(w, code', mark, NO_REGISTER, Yields(kind), T', F', Eval(w, if truth then And(l, r) else Or(l, r), s), s, out')
  {
    if out.Fell? {
      EvalLocal(w, r, s.(trace := out.state.trace), out.state, mark);
      assert Eval(w, if truth then And(l, r) else Or(l, r), s) == Eval(w, r, s.(trace := out.state.trace));
      if out'.Exited? {
        assert out'.pc !in X;
      }
    } else if out.Exited? {
      assert out.pc in X;
      assert out.pc > 0 ==> code'[out.pc - 1] == code[out.pc - 1];
    }
  }
}
