/** Two operands held at once, and the operators that consume them. */
module Operands {
  import opened Wrappers
  import opened Machine
  import opened OpenCode
  import opened Emitter
  import opened Meaning
  import opened Lowering

  /** A value that needs no further instruction. */
  predicate IsHeld(kind: Kind) {
    kind.Literal? || kind.Local? || kind.Temporary?
  }

  function Held(kind: Kind, s: State): Value
    requires IsHeld(kind)
  {
    match kind
    case Literal(v) => v
    case Local(r) => Read(s, r)
    case Temporary(r) => Read(s, r)
  }

  predicate HeldBelow(kind: Kind, mark: nat) {
    IsHeld(kind) && (kind.Literal? || kind.register < mark)
  }

  /** `rk` is an operand field that reads the held value. */
  predicate OperandFor(constants: seq<Value>, kind: Kind, rk: nat) {
    match kind
    case Literal(v) => CONSTANT_BIT <= rk < CONSTANT_BIT + |constants| && constants[rk - CONSTANT_BIT] == v
    case Local(r) => rk == r < CONSTANT_BIT
    case Temporary(r) => rk == r < CONSTANT_BIT
    case _ => false
  }

  /** The left value is held while the right one is still to be produced at the end of the core. */
  ghost predicate PairedAt(w: World, code: seq<Instr>, mark: nat, kl: Kind, kr: Kind, pair: Pair, s: State, out: Outcome)
    requires Shape(code, Yields(kr)) && IsHeld(kl)
  {
    match out
    case Fell(s') => Same(s, s', mark, NO_REGISTER) && pair == Both(Held(kl, s'), ValueOf(w, code, kr, s'))
    case Raised(trace) => pair == LeftRaised(trace) || (pair.Both? && pair.right == Reply(None, trace))
    case _ => false
  }

  ghost predicate Paired(u: Bounds, code: seq<Instr>, start: nat, mark: nat, kl: Kind, kr: Kind, l: Expr, r: Expr) {
    && mark <= u.high
    && IsHeld(kl)
    && Laid(code, start, Yields(kr), {}, {})
    && (forall w, s {:trigger Admits(u, w, s)} :: Admits(u, w, s) ==>
          PairedAt(w, code, mark, kl, kr, EvalPair(w, l, r, s), s, Run(w, Core(code, Yields(kr)), {}, start, s)))
  }

  lemma NothingPending()
    ensures var none: set<nat> := {}; none + none == none
  {
  }

  lemma PairCompiled(u: Bounds, u': Bounds, code: seq<Instr>, start: nat, mark: nat, kl: Kind, l: Expr,
                     code': seq<Instr>, mark': nat, kr: Kind, r: Expr)
    requires Compiled(u, code, start, mark, NO_REGISTER, Yields(kl), {}, {}, l) && HeldBelow(kl, mark')
    requires Compiled(u', code', |code|, mark', NO_REGISTER, Yields(kr), {}, {}, r) && Grows(u, u')
    requires code <= code' && InFragment(r, mark) && mark <= mark'
    ensures Paired(u', code', start, mark, kl, kr, l, r)
  {
    NothingPending();
    var core' := Core(code', Yields(kr));
    PairLaid(code, start, kl, code', kr);
    forall w, s | Admits(u', w, s)
      ensures PairedAt(w, code', mark, kl, kr, EvalPair(w, l, r, s), s, Run(w, core', {}, start, s))
    {
      assert Admits(u, w, s);
      var out := Run(w, code, {}, start, s);
      if out.Fell? {
        assert Admits(u', w, out.state);
      }
      SequenceRun(w, code, start, {}, core', {}, {}, s);
      PairMeaning(w, code, mark, kl, l, s, out, code', mark', kr, r, Run(w, core', {}, start, s));
    }
  }

  lemma PairLaid(code: seq<Instr>, start: nat, kl: Kind, code': seq<Instr>, kr: Kind)
    requires IsHeld(kl) && Laid(code, start, Yields(kl), {}, {}) && Laid(code', |code|, Yields(kr), {}, {}) && code <= code'
    ensures Laid(code', start, Yields(kr), {}, {}) && Core(code, Yields(kl)) == code <= Core(code', Yields(kr))
    ensures WellFormed(code, start, {}) && WellFormed(Core(code', Yields(kr)), |code|, {})
  {
    NothingPending();
    assert Core(code, Yields(kl)) == code;
    SequenceLaid(code, start, {}, Core(code', Yields(kr)), {}, {});
    assert start > 0 ==> code'[start - 1] == code[start - 1];
  }

  lemma PairMeaning(w: World, code: seq<Instr>, mark: nat, kl: Kind, l: Expr, s: State, out: Outcome,
                    code': seq<Instr>, mark': nat, kr: Kind, r: Expr, out': Outcome)
    requires Shape(code, Yields(kl)) && Shape(code', Yields(kr)) && HeldBelow(kl, mark')
    requires Describes(w, code, mark, NO_REGISTER, Yields(kl), {}, {}, Eval(w, l, s), s, out)
    requires if out.Fell? then Describes(w, code', mark', NO_REGISTER, Yields(kr), {}, {}, Eval(w, r, out.state), out.state, out') else out' == out
    requires InFragment(r, mark) && mark <= mark' <= |s.regs| <= MAX_REGISTERS
    ensures PairedAt(w, code', mark, kl, kr, EvalPair(w, l, r, s), s, out')
  {
    if out.Fell? {
      EvalLocal(w, r, s.(trace := out.state.trace), out.state, mark);
    }
  }

  /** Loads a constant left operand above a right operand that is already held. */
  lemma SpillPaired(u: Bounds, u': Bounds, code: seq<Instr>, start: nat, mark: nat, kl: Kind, kr: Kind, l: Expr, r: Expr,
                    t: nat, k: nat)
    requires Paired(u, code, start, mark, kl, kr, l, r) && Grows(u, u')
    requires kl.Literal? && HeldBelow(kr, t) && mark <= t < u'.high && k < |u'.constants| && u'.constants[k] == kl.value
    ensures Paired(u', code + [LoadK(t, k)], start, mark, Temporary(t), kr, l, r)
  {
    NothingPending();
    var i := LoadK(t, k);
    var code' := code + [i];
    assert Core(code, Yields(kr)) == code && Core(code', Yields(kr)) == code';
    WellFormedAppend(code, start, {}, i);
    assert start > 0 ==> code'[start - 1] == code[start - 1];
    forall w, s | Admits(u', w, s)
      ensures PairedAt(w, code', mark, Temporary(t), kr, EvalPair(w, l, r, s), s, Run(w, code', {}, start, s))
    {
      assert Admits(u, w, s);
      var out := Run(w, code, {}, start, s);
      SpillRun(w, code, start, s, i);
      SpillAt(w, code, mark, kl, kr, EvalPair(w, l, r, s), s, out, t, k, Run(w, code', {}, start, s));
    }
  }

  lemma SpillRun(w: World, code: seq<Instr>, start: nat, s: State, i: Instr)
    requires WellFormed(code, start, {}) && i.LoadK? && |s.regs| <= MAX_REGISTERS
    ensures var out, out' := Run(w, code, {}, start, s), Run(w, code + [i], {}, start, s);
            if out.Fell? then out' == Fell(Write(out.state, i.a, Machine.Constant(w, i.bx)))
            else out.Raised? ==> out' == out
  {
    ExtendedRuns(w, code, {}, start, s, [i], {});
    var out := Run(w, code, {}, start, s);
    if out.Fell? {
      RunCompute(w, code, i, {}, out.state);
    }
  }

  lemma SpillAt(w: World, code: seq<Instr>, mark: nat, kl: Kind, kr: Kind, pair: Pair, s: State, out: Outcome, t: nat, k: nat,
                out': Outcome)
    requires kl.Literal? && HeldBelow(kr, t)
    requires mark <= t < |s.regs| <= MAX_REGISTERS && k < |w.constants| && w.constants[k] == kl.value
    requires PairedAt(w, code, mark, kl, kr, pair, s, out)
    requires if out.Fell? then out' == Fell(Write(out.state, t, Machine.Constant(w, k))) else out.Raised? ==> out' == out
    ensures PairedAt(w, code + [LoadK(t, k)], mark, Temporary(t), kr, pair, s, out')
  {
  }

  // ----- operators -----

  /** What a binary expression makes of its operands. */
  function Apply(w: World, e: Expr, pair: Pair): Reply
    requires e.Binary? || e.Compare?
  {
    if e.Binary? then ApplyBinary(w, e.bop, pair) else ApplyRelation(w, e.rel, pair)
  }

  lemma EvalApplies(w: World, e: Expr, s: State)
    requires e.Binary? || e.Compare?
    ensures Eval(w, e, s) == Apply(w, e, EvalPair(w, e.left, e.right, s))
  {
  }

  /** A tail that applies the operator to the pair stands for the whole expression. */
  lemma PairConsumed(u: Bounds, code: seq<Instr>, start: nat, mark: nat, kl: Kind, kr: Kind, e: Expr, code': seq<Instr>, kind: Kind)
    requires (e.Binary? || e.Compare?) && Paired(u, code, start, mark, kl, kr, e.left, e.right)
    requires Shape(code', Yields(kind)) && Core(code', Yields(kind)) == Core(code, Yields(kr))
    requires forall w, s {:trigger Admits(u, w, s)} :: Admits(u, w, s) ==>
      ValueOf(w, code', kind, s) == Apply(w, e, Both(Held(kl, s), ValueOf(w, code, kr, s)))
    ensures Compiled(u, code', start, mark, NO_REGISTER, Yields(kind), {}, {}, e)
  {
    var core := Core(code, Yields(kr));
    NothingPending();
    assert start > 0 ==> code'[start - 1] == core[start - 1] == code[start - 1];
    forall w, s | Admits(u, w, s)
      ensures Describes(w, code', mark, NO_REGISTER, Yields(kind), {}, {}, Eval(w, e, s), s, Run(w, core, {}, start, s))
    {
      var out := Run(w, core, {}, start, s);
      EvalApplies(w, e, s);
      if out.Fell? {
        assert Admits(u, w, out.state);
      }
      ConsumedMeaning(w, code, mark, kl, kr, EvalPair(w, e.left, e.right, s), s, out, e, code', kind, Eval(w, e, s));
    }
  }

  lemma ConsumedMeaning(w: World, code: seq<Instr>, mark: nat, kl: Kind, kr: Kind, pair: Pair, s: State, out: Outcome, e: Expr,
                        code': seq<Instr>, kind: Kind, reply: Reply)
    requires (e.Binary? || e.Compare?) && Shape(code, Yields(kr)) && Shape(code', Yields(kind)) && IsHeld(kl)
    requires PairedAt(w, code, mark, kl, kr, pair, s, out) && reply == Apply(w, e, pair)
    requires out.Fell? ==>
      ValueOf(w, code', kind, out.state) == Apply(w, e, Both(Held(kl, out.state), ValueOf(w, code, kr, out.state)))
    ensures Describes(w, code', mark, NO_REGISTER, Yields(kind), {}, {}, reply, s, out)
  {
  }

  lemma OperandReads(u: Bounds, kind: Kind, rk: nat, w: World, s: State, code: seq<Instr>)
    requires IsHeld(kind) && OperandFor(u.constants, kind, rk) && Admits(u, w, s)
    ensures Operand(w, s, rk) == Held(kind, s) && ValueOf(w, code, kind, s) == Reply(Some(Held(kind, s)), s.trace)
  {
  }

  lemma ArithApplied(u: Bounds, code: seq<Instr>, kl: Kind, kr: Kind, l: Expr, r: Expr, op: Operator, x: nat, y: nat, w: World, s: State)
    requires IsHeld(kl) && IsHeld(kr) && OperandFor(u.constants, kl, x) && OperandFor(u.constants, kr, y) && Admits(u, w, s)
    ensures ValueOf(w, code + [Arith(op, NO_REGISTER, x, y)], Deferred(|code|), s) ==
      Apply(w, Binary(op, l, r), Both(Held(kl, s), ValueOf(w, code, kr, s)))
  {
    OperandReads(u, kl, x, w, s, code);
    OperandReads(u, kr, y, w, s, code);
  }

  lemma ArithCompiled(u: Bounds, code: seq<Instr>, start: nat, mark: nat, kl: Kind, kr: Kind, l: Expr, r: Expr,
                      op: Operator, x: nat, y: nat)
    requires Paired(u, code, start, mark, kl, kr, l, r) && IsHeld(kr)
    requires OperandFor(u.constants, kl, x) && OperandFor(u.constants, kr, y)
    ensures Compiled(u, code + [Arith(op, NO_REGISTER, x, y)], start, mark, NO_REGISTER, Yields(Deferred(|code|)), {}, {},
                     Binary(op, l, r))
  {
    var code', kind := code + [Arith(op, NO_REGISTER, x, y)], Deferred(|code|);
    assert Core(code', Yields(kind)) == Core(code, Yields(kr));
    forall w, s | Admits(u, w, s)
      ensures ValueOf(w, code', kind, s) == Apply(w, Binary(op, l, r), Both(Held(kl, s), ValueOf(w, code, kr, s)))
    {
      ArithApplied(u, code, kl, kr, l, r, op, x, y, w, s);
    }
    PairConsumed(u, code, start, mark, kl, kr, Binary(op, l, r), code', kind);
  }

  lemma ComparisonCompiled(u: Bounds, code: seq<Instr>, start: nat, mark: nat, kl: Kind, kr: Kind, l: Expr, r: Expr,
                           rel: Relation, x: nat, y: nat)
    requires Paired(u, code, start, mark, kl, kr, l, r) && IsHeld(kr)
    requires OperandFor(u.constants, kl, x) && OperandFor(u.constants, kr, y)
    ensures var (b, c) := if Swapped(rel) then (y, x) else (x, y);
            var code' := code + [Comparison(RelationOperator(rel), !rel.IsNotEqual?, b, c), Jump(-1)];
            Compiled(u, code', start, mark, NO_REGISTER, Yields(Condition(|code| + 1)), {}, {}, Compare(rel, l, r))
  {
    var (b, c) := if Swapped(rel) then (y, x) else (x, y);
    var code' := code + [Comparison(RelationOperator(rel), !rel.IsNotEqual?, b, c), Jump(-1)];
    var kind := Condition(|code| + 1);
    assert Core(code', Yields(kind)) == Core(code, Yields(kr));
    forall w, s | Admits(u, w, s)
      ensures ValueOf(w, code', kind, s) == Apply(w, Compare(rel, l, r), Both(Held(kl, s), ValueOf(w, code, kr, s)))
    {
      OperandReads(u, kl, x, w, s, code);
      OperandReads(u, kr, y, w, s, code);
    }
    PairConsumed(u, code, start, mark, kl, kr, Compare(rel, l, r), code', kind);
  }

  lemma ConcatApplied(u: Bounds, code: seq<Instr>, a: nat, l: Expr, r: Expr, w: World, s: State)
    requires Admits(u, w, s)
    ensures ValueOf(w, code + [ConcatOp(NO_REGISTER, a, a + 1)], Deferred(|code|), s) ==
      Apply(w, Binary(Concat, l, r), Both(Held(Temporary(a), s), ValueOf(w, code, Temporary(a + 1), s)))
  {
    assert ConcatRange(w, s, a + 1, a + 1) == Reply(Some(Read(s, a + 1)), s.trace);
  }

  /** A concatenation of two neighbouring registers. */
  lemma ConcatCompiled(u: Bounds, code: seq<Instr>, start: nat, mark: nat, a: nat, l: Expr, r: Expr)
    requires Paired(u, code, start, mark, Temporary(a), Temporary(a + 1), l, r)
    ensures Compiled(u, code + [ConcatOp(NO_REGISTER, a, a + 1)], start, mark, NO_REGISTER, Yields(Deferred(|code|)), {}, {},
                     Binary(Concat, l, r))
  {
    var code', kind := code + [ConcatOp(NO_REGISTER, a, a + 1)], Deferred(|code|);
    assert Core(code', Yields(kind)) == Core(code, Yields(Temporary(a + 1)));
    forall w, s | Admits(u, w, s)
      ensures ValueOf(w, code', kind, s) == Apply(w, Binary(Concat, l, r),
                Both(Held(Temporary(a), s), ValueOf(w, code, Temporary(a + 1), s)))
    {
      ConcatApplied(u, code, a, l, r, w, s);
    }
    PairConsumed(u, code, start, mark, Temporary(a), Temporary(a + 1), Binary(Concat, l, r), code', kind);
  }

  /** A deferred concatenation on the right is widened by the register of the left operand. */
  lemma WidenCompiled(u: Bounds, code: seq<Instr>, start: nat, mark: nat, a: nat, l: Expr, r: Expr)
    requires code != [] && Paired(u, code, start, mark, Temporary(a), Deferred(|code| - 1), l, r)
    requires var i := code[|code| - 1]; i.ConcatOp? && i.b == a + 1
    ensures var code' := code[|code| - 1 := ConcatOp(NO_REGISTER, a, code[|code| - 1].c)];
            Compiled(u, code', start, mark, NO_REGISTER, Yields(Deferred(|code| - 1)), {}, {}, Binary(Concat, l, r))
  {
    var i := code[|code| - 1];
    var code' := code[|code| - 1 := ConcatOp(NO_REGISTER, a, i.c)];
    var kind := Deferred(|code| - 1);
    assert Core(code', Yields(kind)) == Core(code, Yields(kind));
    forall w, s | Admits(u, w, s)
      ensures ValueOf(w, code', kind, s) == Apply(w, Binary(Concat, l, r), Both(Held(Temporary(a), s), ValueOf(w, code, kind, s)))
    {
      assert ConcatRange(w, s, a + 1, i.c) == ValueOf(w, code, kind, s);
    }
    PairConsumed(u, code, start, mark, Temporary(a), kind, Binary(Concat, l, r), code', kind);
  }

  /** The same for code that was compiled after the left operand. */
  lemma WidenPair(u: Bounds, u': Bounds, code: seq<Instr>, start: nat, a: nat, l: Expr, code': seq<Instr>, r: Expr)
    requires Compiled(u, code, start, a, NO_REGISTER, Yields(Temporary(a)), {}, {}, l) && Grows(u, u')
    requires code' != [] && Compiled(u', code', |code|, a + 1, NO_REGISTER, Yields(Deferred(|code'| - 1)), {}, {}, r)
    requires code <= code' && InFragment(r, a)
    requires var i := code'[|code'| - 1]; i.ConcatOp? && i.b == a + 1
    ensures var after := code'[|code'| - 1 := ConcatOp(NO_REGISTER, a, code'[|code'| - 1].c)];
            Compiled(u', after, start, a, NO_REGISTER, Yields(Deferred(|code'| - 1)), {}, {}, Binary(Concat, l, r))
  {
    PairCompiled(u, u', code, start, a, Temporary(a), l, code', a + 1, Deferred(|code'| - 1), r);
    WidenCompiled(u', code', start, a, a, l, r);
  }

  lemma UnaryCompiled(u: Bounds, code: seq<Instr>, start: nat, mark: nat, kind: Kind, e: Expr, op: Operator)
    requires Compiled(u, code, start, mark, NO_REGISTER, Yields(kind), {}, {}, e) && (kind.Local? || kind.Temporary?)
    ensures Compiled(u, code + [UnaryOp(op, NO_REGISTER, kind.register)], start, mark, NO_REGISTER,
                     Yields(Deferred(|code|)), {}, {}, Expr.Unary(op, e))
  {
    var code', kind' := code + [UnaryOp(op, NO_REGISTER, kind.register)], Deferred(|code|);
    assert Core(code', Yields(kind')) == code == Core(code, Yields(kind));
    NothingPending();
    assert start > 0 ==> code'[start - 1] == code[start - 1];
    forall w, s | Admits(u, w, s)
      ensures Describes(w, code', mark, NO_REGISTER, Yields(kind'), {}, {}, Eval(w, Expr.Unary(op, e), s), s, Run(w, code, {}, start, s))
    {
      UnaryMeaning(w, code, mark, kind, op, Eval(w, e, s), s, Run(w, code, {}, start, s), code', Eval(w, Expr.Unary(op, e), s));
    }
  }

  lemma UnaryMeaning(w: World, code: seq<Instr>, mark: nat, kind: Kind, op: Operator, operand: Reply, s: State, out: Outcome,
                     code': seq<Instr>, reply: Reply)
    requires kind.Local? || kind.Temporary?
    requires code' == code + [UnaryOp(op, NO_REGISTER, kind.register)]
    requires Describes(w, code, mark, NO_REGISTER, Yields(kind), {}, {}, operand, s, out)
    requires reply == if operand.value.None? then operand else Operate(w, op, operand.value.value, Nil, operand.trace)
    ensures Describes(w, code', mark, NO_REGISTER, Yields(Deferred(|code|)), {}, {}, reply, s, out)
  {
  }

  // ----- constant folding -----

  lemma FoldedPair(u: Bounds, code: seq<Instr>, start: nat, mark: nat, l: Expr, r: Expr, op: Operator, a: int, b: int)
    requires Paired(u, code, start, mark, Kind.Literal(Number(a)), Kind.Literal(Number(b)), l, r) && IsArithmetic(op)
    ensures Compiled(u, code, start, mark, NO_REGISTER, Yields(Kind.Literal(Number(u.numbers.arith(op, a, b)))), {}, {},
                     Binary(op, l, r))
  {
    PairConsumed(u, code, start, mark, Kind.Literal(Number(a)), Kind.Literal(Number(b)), Binary(op, l, r), code,
                 Kind.Literal(Number(u.numbers.arith(op, a, b))));
  }

  lemma FoldedNegation(u: Bounds, code: seq<Instr>, start: nat, mark: nat, e: Expr, a: int)
    requires Compiled(u, code, start, mark, NO_REGISTER, Yields(Kind.Literal(Number(a))), {}, {}, e)
    ensures Compiled(u, code, start, mark, NO_REGISTER, Yields(Kind.Literal(Number(u.numbers.negate(a)))), {}, {},
                     Expr.Unary(Negate, e))
  {
    var kind, kind' := Kind.Literal(Number(a)), Kind.Literal(Number(u.numbers.negate(a)));
    assert Core(code, Yields(kind)) == Core(code, Yields(kind')) == code;
    forall w, s | Admits(u, w, s)
      ensures Describes(w, code, mark, NO_REGISTER, Yields(kind'), {}, {}, Eval(w, Expr.Unary(Negate, e), s), s,
                        Run(w, code, {} + {}, start, s))
    {
      FoldedNegationAt(w, code, mark, a, Eval(w, e, s), s, Run(w, code, {} + {}, start, s), Eval(w, Expr.Unary(Negate, e), s));
    }
  }

  lemma FoldedNegationAt(w: World, code: seq<Instr>, mark: nat, a: int, operand: Reply, s: State, out: Outcome, reply: Reply)
    requires Describes(w, code, mark, NO_REGISTER, Yields(Kind.Literal(Number(a))), {}, {}, operand, s, out)
    requires reply == if operand.value.None? then operand else Operate(w, Negate, operand.value.value, Nil, operand.trace)
    ensures Describes(w, code, mark, NO_REGISTER, Yields(Kind.Literal(Number(w.numbers.negate(a)))), {}, {}, reply, s, out)
  {
  }
}
