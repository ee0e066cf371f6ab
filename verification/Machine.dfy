/** Values, operators, instructions and the straight-line machine that expression code runs on.

    Numbers are kept uninterpreted: `Numbers` supplies the arithmetic of the host, and everything
    that is not arithmetic on two numbers or concatenation of strings and numbers is an `Event`
    answered by an arbitrary function of the history.  A metamethod, a string coercion and a type
    error are all answers, so two programs with the same trace perform the same operations, in the
    same order, on the same operands. */
module Machine {
  import opened Wrappers

  datatype Value = Nil | Boolean(b: bool) | Number(bits: int) | Text(chars: string) | Object(id: int)

  predicate Truth(v: Value) {
    v != Nil && v != Boolean(false)
  }

  datatype Operator =
    | Add | Sub | Mul | Div | Mod | Pow
    | Negate | Length | Concat
    | Equal | Less | LessEqual
    | FetchGlobal

  predicate IsArithmetic(op: Operator) {
    op in {Add, Sub, Mul, Div, Mod, Pow}
  }

  /** The host's number operations.  `foldable` says when the compiler may compute a constant
      operation in advance. */
  datatype Numbers = Numbers(
    arith: (Operator, int, int) -> int,
    negate: int -> int,
    format: int -> string,
    foldable: (Operator, int, int) -> bool)

  datatype Event = Event(op: Operator, left: Value, right: Value)

  datatype World = World(numbers: Numbers, answer: (seq<Event>, Event) -> Option<Value>, constants: seq<Value>)

  /** The value an operation produces, `None` when it raises, and the history after it. */
  datatype Reply = Reply(value: Option<Value>, trace: seq<Event>)

  predicate IsDirect(v: Value) {
    v.Number? || v.Text?
  }

  function DirectText(numbers: Numbers, v: Value): string
    requires IsDirect(v)
  {
    if v.Number? then numbers.format(v.bits) else v.chars
  }

  function Operate(w: World, op: Operator, left: Value, right: Value, trace: seq<Event>): Reply {
    if IsArithmetic(op) && left.Number? && right.Number? then
      Reply(Some(Number(w.numbers.arith(op, left.bits, right.bits))), trace)
    else if op == Negate && left.Number? then
      Reply(Some(Number(w.numbers.negate(left.bits))), trace)
    else if op == Concat && IsDirect(left) && IsDirect(right) then
      Reply(Some(Text(DirectText(w.numbers, left) + DirectText(w.numbers, right))), trace)
    else
      var event := Event(op, left, right);
      Reply(w.answer(trace, event), trace + [event])
  }

  // ----- source expressions and their direct evaluation -----

  datatype Relation = IsEqual | IsNotEqual | IsLess | IsLessEqual | IsGreater | IsGreaterEqual

  datatype Expr =
    | Literal(value: Value)
    | LocalName(register: nat)
    | GlobalName(name: string)
    | Not(operand: Expr)
    | Unary(uop: Operator, operand: Expr)
    | Binary(bop: Operator, left: Expr, right: Expr)
    | Compare(rel: Relation, left: Expr, right: Expr)
    | And(left: Expr, right: Expr)
    | Or(left: Expr, right: Expr)

  /** The fragment: operators are used at their own arity, literals are scalars and every local
      lives below `locals`. */
  predicate InFragment(e: Expr, locals: nat) {
    match e
    case Literal(v) => !v.Object?
    case LocalName(r) => r < locals
    case GlobalName(_) => true
    case Not(x) => InFragment(x, locals)
    case Unary(op, x) => op in {Negate, Length} && InFragment(x, locals)
    case Binary(op, l, r) => (IsArithmetic(op) || op == Concat) && InFragment(l, locals) && InFragment(r, locals)
    case Compare(_, l, r) => InFragment(l, locals) && InFragment(r, locals)
    case And(l, r) => InFragment(l, locals) && InFragment(r, locals)
    case Or(l, r) => InFragment(l, locals) && InFragment(r, locals)
  }

  datatype State = State(regs: seq<Value>, trace: seq<Event>)

  function Read(s: State, r: nat): Value {
    if r < |s.regs| then s.regs[r] else Nil
  }

  function Write(s: State, r: nat, v: Value): State {
    if r < |s.regs| then s.(regs := s.regs[r := v]) else s
  }

  function RelationOperator(rel: Relation): Operator {
    match rel
    case IsEqual => Equal
    case IsNotEqual => Equal
    case IsLess => Less
    case IsLessEqual => LessEqual
    case IsGreater => Less
    case IsGreaterEqual => LessEqual
  }

  predicate Swapped(rel: Relation) {
    rel.IsGreater? || rel.IsGreaterEqual?
  }

  /** A comparison's answer reduced to the Boolean `Truth(answer) == polarity`. */
  function AsBoolean(reply: Reply, polarity: bool): Reply {
    if reply.value.None? then reply
    else Reply(Some(Boolean(Truth(reply.value.value) == polarity)), reply.trace)
  }

  datatype Pair = LeftRaised(trace: seq<Event>) | Both(left: Value, right: Reply)

  function ApplyBinary(w: World, op: Operator, pair: Pair): Reply {
    if pair.LeftRaised? then Reply(None, pair.trace)
    else if pair.right.value.None? then pair.right
    else Operate(w, op, pair.left, pair.right.value.value, pair.right.trace)
  }

  function ApplyRelation(w: World, rel: Relation, pair: Pair): Reply {
    if pair.LeftRaised? then Reply(None, pair.trace)
    else if pair.right.value.None? then pair.right
    else
      var (x, y) := if Swapped(rel) then (pair.right.value.value, pair.left) else (pair.left, pair.right.value.value);
      AsBoolean(Operate(w, RelationOperator(rel), x, y, pair.right.trace), !rel.IsNotEqual?)
  }

  /** Evaluation of an expression by structural recursion, the reference the compiled code is
      compared with (Lua 5.1 Reference Manual, sections 2.5.1 to 2.5.4). */
  function Eval(w: World, e: Expr, s: State): Reply
    decreases e
  {
    match e
    case Literal(v) => Reply(Some(v), s.trace)
    case LocalName(r) => Reply(Some(Read(s, r)), s.trace)
    case GlobalName(name) => Operate(w, FetchGlobal, Text(name), Nil, s.trace)
    case Not(x) => AsBoolean(Eval(w, x, s), false)
    case Unary(op, x) =>
      var a := Eval(w, x, s);
      if a.value.None? then a else Operate(w, op, a.value.value, Nil, a.trace)
    case Binary(op, l, r) =>
      var a := Eval(w, l, s);
      ApplyBinary(w, op, if a.value.None? then LeftRaised(a.trace) else Both(a.value.value, Eval(w, r, s.(trace := a.trace))))
    case Compare(rel, l, r) =>
      var a := Eval(w, l, s);
      ApplyRelation(w, rel, if a.value.None? then LeftRaised(a.trace) else Both(a.value.value, Eval(w, r, s.(trace := a.trace))))
    case And(l, r) =>
      var a := Eval(w, l, s);
      if a.value.None? || !Truth(a.value.value) then a else Eval(w, r, s.(trace := a.trace))
    case Or(l, r) =>
      var a := Eval(w, l, s);
      if a.value.None? || Truth(a.value.value) then a else Eval(w, r, s.(trace := a.trace))
  }

  /** The left operand before the right one. */
  function EvalPair(w: World, l: Expr, r: Expr, s: State): Pair {
    var a := Eval(w, l, s);
    if a.value.None? then LeftRaised(a.trace) else Both(a.value.value, Eval(w, r, s.(trace := a.trace)))
  }

  // ----- instructions -----

  /** The instructions expression code uses.  `b` and `c` of Arith and Compare are RK operands:
      a constant index plus CONSTANT_BIT, or a register. */
  datatype Instr =
    | Move(a: nat, b: nat)
    | LoadK(a: nat, bx: nat)
    | LoadBool(a: nat, value: bool, skip: bool)
    | LoadNil(a: nat, b: nat)
    | GetGlobal(a: nat, bx: nat)
    | Arith(op: Operator, a: nat, b: nat, c: nat)
    | UnaryOp(op: Operator, a: nat, b: nat)
    | NotOp(a: nat, b: nat)
    | ConcatOp(a: nat, b: nat, c: nat)
    | Jump(sbx: int)
    | Comparison(op: Operator, polarity: bool, b: nat, c: nat)
    | Test(a: nat, when: bool)
    | TestSet(a: nat, b: nat, when: bool)

  const CONSTANT_BIT: nat := 256
  const NO_REGISTER: nat := 255
  const MAX_REGISTERS: nat := 250
  const MAX_SBX: int := 131071
  const MAX_BX: nat := 262143
  const MAX_RK_CONSTANT: nat := 255

  function Constant(w: World, k: nat): Value {
    if k < |w.constants| then w.constants[k] else Nil
  }

  function Operand(w: World, s: State, rk: nat): Value {
    if rk >= CONSTANT_BIT then Constant(w, rk - CONSTANT_BIT) else Read(s, rk)
  }

  /** A concatenation of the register range [b, c], from right to left. */
  function ConcatRange(w: World, s: State, b: nat, c: nat): Reply
    decreases c - b
  {
    if b >= c then Reply(Some(Read(s, c)), s.trace) else
    var rest := ConcatRange(w, s, b + 1, c);
    if rest.value.None? then rest else
    Operate(w, Concat, Read(s, b), rest.value.value, rest.trace)
  }

  /** Instructions that compute one value into register `a` and continue at the next instruction. */
  predicate Computes(i: Instr) {
    i.Move? || i.LoadK? || (i.LoadBool? && !i.skip) || (i.LoadNil? && i.a == i.b) || i.GetGlobal? ||
    i.Arith? || i.UnaryOp? || i.NotOp? || i.ConcatOp?
  }

  function Compute(w: World, i: Instr, s: State): Reply
    requires Computes(i)
  {
    match i
    case Move(_, b) => Reply(Some(Read(s, b)), s.trace)
    case LoadK(_, bx) => Reply(Some(Constant(w, bx)), s.trace)
    case LoadBool(_, v, _) => Reply(Some(Boolean(v)), s.trace)
    case LoadNil(_, _) => Reply(Some(Nil), s.trace)
    case GetGlobal(_, bx) => Operate(w, FetchGlobal, Constant(w, bx), Nil, s.trace)
    case Arith(op, _, b, c) => Operate(w, op, Operand(w, s, b), Operand(w, s, c), s.trace)
    case UnaryOp(op, _, b) => Operate(w, op, Read(s, b), Nil, s.trace)
    case NotOp(_, b) => Reply(Some(Boolean(!Truth(Read(s, b)))), s.trace)
    case ConcatOp(_, b, c) => ConcatRange(w, s, b, c)
  }

  /** Instructions that decide between the jump that follows them and the instruction after it. */
  predicate IsControl(i: Instr) {
    i.Comparison? || i.Test? || i.TestSet?
  }

  function Compared(w: World, i: Instr, s: State): Reply
    requires i.Comparison?
  {
    AsBoolean(Operate(w, i.op, Operand(w, s, i.b), Operand(w, s, i.c), s.trace), i.polarity)
  }

  datatype Outcome =
    | Fell(state: State)            // reached the end of the code
    | Exited(pc: nat, state: State) // stopped at a pending jump
    | Raised(trace: seq<Event>)     // an operation raised
    | Stuck                         // left the code or moved backwards

  /** One step.  The executor of the original fuses a control instruction with the jump behind it;
      here the jump is a step of its own, which is where a pending jump is observed. */
  function Step(w: World, code: seq<Instr>, pc: nat, s: State): (nat, Outcome)
    requires pc < |code|
  {
    var i := code[pc];
    if i.Jump? then
      if 0 <= pc + 1 + i.sbx then (pc + 1 + i.sbx, Fell(s)) else (pc, Stuck)
    else if i.Comparison? then
      var r := Compared(w, i, s);
      if r.value.None? then (pc, Raised(r.trace))
      else ((if Truth(r.value.value) then pc + 1 else pc + 2), Fell(s.(trace := r.trace)))
    else if i.Test? then
      ((if Truth(Read(s, i.a)) == i.when then pc + 1 else pc + 2), Fell(s))
    else if i.TestSet? then
      if Truth(Read(s, i.b)) == i.when then (pc + 1, Fell(Write(s, i.a, Read(s, i.b)))) else (pc + 2, Fell(s))
    else if Computes(i) then
      var r := Compute(w, i, s);
      if r.value.None? then (pc, Raised(r.trace))
      else (pc + 1, Fell(Write(s.(trace := r.trace), i.a, r.value.value)))
    else if i.LoadBool? then
      (pc + 2, Fell(Write(s, i.a, Boolean(i.value))))
    else
      (pc + 1, Fell(s.(regs := seq(|s.regs|, k requires 0 <= k < |s.regs| => if i.a <= k <= i.b then Nil else s.regs[k]))))
  }

  /** Runs `code` from `pc`, stopping at the pending jumps `pending`, at the end, or at an error. */
  ghost function Run(w: World, code: seq<Instr>, pending: set<nat>, pc: nat, s: State): Outcome
    decreases |code| - pc
  {
    if pc > |code| then Stuck
    else if pc == |code| then Fell(s)
    else if pc in pending then Exited(pc, s)
    else
      var (next, out) := Step(w, code, pc, s);
      if out.Fell? then
        if next > pc then Run(w, code, pending, next, out.state) else Stuck
      else out
  }
}
