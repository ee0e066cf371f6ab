/** What partially compiled code means: `Compiled` relates the code of an expression, its open
    exits and the way it falls through to the evaluation of that expression. */
module Meaning {
  import opened Wrappers
  import opened Machine
  import opened OpenCode
  import opened Emitter

  /** What is fixed about the function so far; constants and the frame only grow. */
  datatype Bounds = Bounds(numbers: Numbers, constants: seq<Value>, high: nat)

  ghost predicate Grows(u: Bounds, v: Bounds) {
    u.numbers == v.numbers && u.constants <= v.constants && u.high <= v.high
  }

  /** A world and a frame the finished function may run in. */
  ghost predicate Admits(u: Bounds, w: World, s: State) {
    w.numbers == u.numbers && u.constants <= w.constants && u.high <= |s.regs| <= MAX_REGISTERS
  }

  /** How execution leaves the code at its end: with a value still to be produced, with only the
      truth of the value known, or with the value false of a comparison whose jump was not taken. */
  datatype Fall = Yields(kind: Kind) | Knows(truth: bool) | FallsFalse

  function TailLength(fall: Fall): nat {
    if fall.Yields? && fall.kind.Deferred? then 1
    else if fall.Yields? && fall.kind.Condition? then 2
    else 0
  }

  /** A deferred instruction or an undecided comparison stands at the very end. */
  ghost predicate Shape(code: seq<Instr>, fall: Fall) {
    && TailLength(fall) <= |code|
    && (fall.Yields? && fall.kind.Deferred? ==>
          var i := code[|code| - 1];
          fall.kind.pc == |code| - 1 && Bindable(i) && i.a == NO_REGISTER && (i.ConcatOp? ==> i.b < i.c))
    && (fall.Yields? && fall.kind.Condition? ==>
          fall.kind.pc == |code| - 1 && code[|code| - 1] == Jump(-1) && code[|code| - 2].Comparison?)
    && (fall.Yields? ==> !fall.kind.Invalid?)
  }

  function Core(code: seq<Instr>, fall: Fall): seq<Instr>
    requires TailLength(fall) <= |code|
  {
    code[..|code| - TailLength(fall)]
  }

  /** The value the descriptor stands for, produced at the end of the core. */
  ghost function ValueOf(w: World, code: seq<Instr>, kind: Kind, s: State): Reply
    requires Shape(code, Yields(kind))
  {
    match kind
    case Literal(v) => Reply(Some(v), s.trace)
    case Local(r) => Reply(Some(Read(s, r)), s.trace)
    case Temporary(r) => Reply(Some(Read(s, r)), s.trace)
    case Global(k) => Operate(w, FetchGlobal, Machine.Constant(w, k), Nil, s.trace)
    case Deferred(pc) => Compute(w, code[pc], s)
    case Condition(pc) => Compared(w, code[pc - 1], s)
  }

  /** Registers below `mark` are unchanged, except for the destination `dst`. */
  ghost predicate Same(s: State, s': State, mark: nat, dst: nat) {
    |s.regs| == |s'.regs| && forall r :: 0 <= r < mark && r < |s.regs| && r != dst ==> s'.regs[r] == s.regs[r]
  }

  /** The value carried by a pending exit: what its TESTSET would copy, or a Boolean. */
  function ExitValue(code: seq<Instr>, j: nat, s: State, truth: bool): Value {
    if CopiesBefore(code, j) then Read(s, code[j - 1].b) else Boolean(truth)
  }

  ghost predicate Exits(code: seq<Instr>, j: nat, s': State, truth: bool, reply: Reply) {
    reply == Reply(Some(ExitValue(code, j, s', truth)), s'.trace) && Truth(reply.value.value) == truth
  }

  ghost predicate Describes(w: World, code: seq<Instr>, mark: nat, dst: nat, fall: Fall,
                            T: set<nat>, F: set<nat>, reply: Reply, s: State, out: Outcome)
    requires Shape(code, fall)
  {
    match out
    case Fell(s') =>
      && Same(s, s', mark, dst)
      && (match fall
          case Yields(kind) => ValueOf(w, code, kind, s') == reply
          case Knows(truth) => reply.trace == s'.trace && reply.value.Some? && Truth(reply.value.value) == truth
          case FallsFalse => reply == Reply(Some(Boolean(false)), s'.trace))
    case Exited(j, s') =>
      Same(s, s', mark, dst) && (j in T || j in F) && Exits(code, j, s', j in T, reply)
    case Raised(trace) => reply == Reply(None, trace)
    case Stuck => false
  }

  ghost predicate Laid(code: seq<Instr>, start: nat, fall: Fall, T: set<nat>, F: set<nat>) {
    && Shape(code, fall)
    && start <= |Core(code, fall)|
    && T !! F
    && !CopiesBefore(code, start)
    && WellFormed(Core(code, fall), start, T + F)
  }

  ghost predicate Compiled(u: Bounds, code: seq<Instr>, start: nat, mark: nat, dst: nat, fall: Fall,
                           T: set<nat>, F: set<nat>, e: Expr) {
    && mark <= u.high
    && Laid(code, start, fall, T, F)
    && (forall w, s {:trigger Admits(u, w, s)} :: Admits(u, w, s) ==>
          Describes(w, code, mark, dst, fall, T, F, Eval(w, e, s), s, Run(w, Core(code, fall), T + F, start, s)))
  }

  // ----- facts about evaluation -----

  lemma {:induction false} EvalLocal(w: World, e: Expr, s: State, s': State, mark: nat)
    requires InFragment(e, mark) && Same(s, s', mark, NO_REGISTER) && s.trace == s'.trace && mark <= MAX_REGISTERS
    ensures Eval(w, e, s) == Eval(w, e, s')
    decreases e
  {
    if e.Not? || e.Unary? {
      EvalLocal(w, e.operand, s, s', mark);
    } else if e.Binary? || e.Compare? || e.And? || e.Or? {
      EvalLocal(w, e.left, s, s', mark);
      var t := Eval(w, e.left, s).trace;
      EvalLocal(w, e.right, s.(trace := t), s'.(trace := t), mark);
    }
  }

  // ----- leaves -----

  ghost predicate IsLeaf(constants: seq<Value>, e: Expr, kind: Kind) {
    match e
    case Literal(v) => kind == Kind.Literal(v)
    case LocalName(r) => kind == Local(r)
    case GlobalName(name) => kind.Global? && kind.constant < |constants| && constants[kind.constant] == Text(name)
    case _ => false
  }

  lemma LeafCompiled(u: Bounds, code: seq<Instr>, mark: nat, e: Expr, kind: Kind)
    requires mark <= u.high && IsLeaf(u.constants, e, kind) && !CopiesBefore(code, |code|)
    ensures Compiled(u, code, |code|, mark, NO_REGISTER, Yields(kind), {}, {}, e)
  {
  }

  // ----- replacing the end of the code -----

  lemma ExtendedRuns(w: World, core: seq<Instr>, P: set<nat>, start: nat, s: State, tail: seq<Instr>, P': set<nat>)
    requires WellFormed(core, start, P) && P <= P' && |s.regs| <= MAX_REGISTERS
    requires forall j :: j in P' && j !in P ==> j >= |core|
    ensures Carried(w, core, P, Run(w, core, P, start, s), core + tail, P', start, Run(w, core + tail, P', start, s))
  {
    forall k | start <= k < |core| ensures RefinedAt(core, P, core + tail, P', k) {
      assert (core + tail)[k] == core[k];
    }
    Simulate(w, core, P, core + tail, P', start, start, s);
  }

  lemma WellFormedAppend(core: seq<Instr>, start: nat, P: set<nat>, i: Instr)
    requires WellFormed(core, start, P) && Computes(i)
    ensures WellFormed(core + [i], start, P)
  {
    var code' := core + [i];
    forall k | start <= k < |code'| ensures WellPlaced(code', P, k) {
      if k < |core| { assert WellPlaced(core, P, k); }
    }
  }

  /** Appends an instruction that produces the pending value in a register. */
  lemma AppendCompute(u: Bounds, u': Bounds, code: seq<Instr>, start: nat, mark: nat, dst: nat, kind: Kind,
                      T: set<nat>, F: set<nat>, e: Expr, i: Instr)
    requires Compiled(u, code, start, mark, NO_REGISTER, Yields(kind), T, F, e) && Grows(u, u')
    requires Computes(i) && i.a < u'.high && (mark <= i.a || i.a == dst)
    requires forall w, s {:trigger Admits(u', w, s)} :: Admits(u', w, s) ==> Compute(w, i, s) == ValueOf(w, code, kind, s)
    ensures Compiled(u', Core(code, Yields(kind)) + [i], start, mark, dst, Yields(Temporary(i.a)), T, F, e)
  {
    var core := Core(code, Yields(kind));
    var code' := core + [i];
    assert Core(code', Yields(Temporary(i.a))) == code';
    WellFormedAppend(core, start, T + F, i);
    assert start > 0 ==> code'[start - 1] == code[start - 1];
    forall j | j in T || j in F ensures j < |core| { assert j in T + F; }
    forall w, s | Admits(u', w, s)
      ensures Describes(w, code', mark, dst, Yields(Temporary(i.a)), T, F, Eval(w, e, s), s, Run(w, code', T + F, start, s))
    {
      assert Admits(u, w, s);
      var out := Run(w, Core(code, Yields(kind)), T + F, start, s);
      if out.Fell? {
        assert Admits(u', w, out.state);
      }
      AppendComputeRun(w, core, T + F, start, s, i);
      AppendComputeAt(w, s, code, mark, dst, kind, T, F, Eval(w, e, s), i, out);
    }
  }

  lemma RunCompute(w: World, core: seq<Instr>, i: Instr, P: set<nat>, s: State)
    requires Computes(i) && |core| !in P
    ensures var r := Compute(w, i, s);
            Run(w, core + [i], P, |core|, s)
            == if r.value.None? then Raised(r.trace) else Fell(Write(s.(trace := r.trace), i.a, r.value.value))
  {
    var code := core + [i];
    var (next, out) := Step(w, code, |core|, s);
    if out.Fell? {
      assert next == |code|;
      assert Run(w, code, P, next, out.state) == out;
    }
  }

  ghost function AfterCompute(w: World, i: Instr, out: Outcome): Outcome
    requires Computes(i)
  {
    if !out.Fell? then out else
    var r := Compute(w, i, out.state);
    if r.value.None? then Raised(r.trace) else Fell(Write(out.state.(trace := r.trace), i.a, r.value.value))
  }

  lemma AppendComputeRun(w: World, core: seq<Instr>, P: set<nat>, start: nat, s: State, i: Instr)
    requires WellFormed(core, start, P) && Computes(i) && |s.regs| <= MAX_REGISTERS
    ensures var out := Run(w, core, P, start, s);
            out.Stuck? || Run(w, core + [i], P, start, s) == AfterCompute(w, i, out)
  {
    ExtendedRuns(w, core, P, start, s, [i], P);
    var out := Run(w, core, P, start, s);
    if out.Fell? {
      RunCompute(w, core, i, P, out.state);
    }
  }

  lemma AppendComputeAt(w: World, s: State, code: seq<Instr>, mark: nat, dst: nat, kind: Kind,
                        T: set<nat>, F: set<nat>, reply: Reply, i: Instr, out: Outcome)
    requires Shape(code, Yields(kind)) && mark <= |s.regs| <= MAX_REGISTERS
    requires forall j :: j in T || j in F ==> j < |Core(code, Yields(kind))|
    requires Computes(i) && i.a < |s.regs| && (mark <= i.a || i.a == dst)
    requires Describes(w, code, mark, NO_REGISTER, Yields(kind), T, F, reply, s, out)
    requires out.Fell? ==> Compute(w, i, out.state) == ValueOf(w, code, kind, out.state)
    ensures var code' := Core(code, Yields(kind)) + [i];
            Describes(w, code', mark, dst, Yields(Temporary(i.a)), T, F, reply, s, AfterCompute(w, i, out))
  {
    if out.Exited? {
      var code' := Core(code, Yields(kind)) + [i];
      assert out.pc > 0 ==> code'[out.pc - 1] == code[out.pc - 1];
    }
  }

  // ----- changing pending exits -----

  function Members(pcs: seq<nat>): set<nat> {
    set j | j in pcs
  }

  /** Only the links of pending jumps changed. */
  ghost predicate Relinked(code: seq<Instr>, P: set<nat>, code': seq<Instr>) {
    |code'| == |code| && forall k :: 0 <= k < |code| ==> if k in P then code'[k].Jump? else code'[k] == code[k]
  }

  lemma RelinkRefined(u: Bounds, code: seq<Instr>, start: nat, mark: nat, dst: nat, fall: Fall,
                      T: set<nat>, F: set<nat>, e: Expr, code': seq<Instr>)
    requires Compiled(u, code, start, mark, dst, fall, T, F, e) && Relinked(code, T + F, code')
    ensures var P, core, core' := T + F, Core(code, fall), Core(code', fall);
      |core'| == |core| && WellFormed(core', start, P) && forall k :: start <= k < |core'| ==> RefinedAt(core, P, core', P, k)
  {
    var P := T + F;
    var core, core' := Core(code, fall), Core(code', fall);
    forall k | start <= k < |core'| ensures WellPlaced(core', P, k) && RefinedAt(core, P, core', P, k) {
      assert WellPlaced(core, P, k);
    }
  }

  lemma RelinkCompiled(u: Bounds, code: seq<Instr>, start: nat, mark: nat, dst: nat, fall: Fall,
                       T: set<nat>, F: set<nat>, e: Expr, code': seq<Instr>)
    requires Compiled(u, code, start, mark, dst, fall, T, F, e) && Relinked(code, T + F, code')
    ensures Compiled(u, code', start, mark, dst, fall, T, F, e)
  {
    var P := T + F;
    var core, core' := Core(code, fall), Core(code', fall);
    RelinkRefined(u, code, start, mark, dst, fall, T, F, e, code');
    forall w, s | Admits(u, w, s)
      ensures Describes(w, code', mark, dst, fall, T, F, Eval(w, e, s), s, Run(w, core', P, start, s))
    {
      Simulate(w, core, P, core', P, start, start, s);
      DescribesAgain(w, code, mark, dst, fall, T, F, Eval(w, e, s), s, Run(w, core, P, start, s), code', fall, Run(w, core', P, start, s));
    }
  }

  /** The same outcome read with another code, when that code agrees on what is still pending. */
  lemma DescribesAgain(w: World, code: seq<Instr>, mark: nat, dst: nat, fall: Fall, T: set<nat>, F: set<nat>,
                       reply: Reply, s: State, out: Outcome, code': seq<Instr>, fall': Fall, out': Outcome)
    requires Shape(code, fall) && Shape(code', fall') && out == out'
    requires Describes(w, code, mark, dst, fall, T, F, reply, s, out)
    requires forall j :: j in T + F ==>
      CopiesBefore(code, j) == CopiesBefore(code', j) && (CopiesBefore(code, j) ==> code[j - 1].b == code'[j - 1].b)
    requires fall'.Yields? == fall.Yields? && fall'.FallsFalse? == fall.FallsFalse? && (fall.Knows? ==> fall' == fall)
    requires out.Fell? && fall.Yields? ==>
      ValueOf(w, code, fall.kind, out.state) == ValueOf(w, code', fall'.kind, out.state)
    ensures Describes(w, code', mark, dst, fall', T, F, reply, s, out')
  {
  }
}
