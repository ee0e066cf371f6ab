/** What expressions mean, form by form, in terms of the values of their operands and the events that the world
    answers; and what follows for compiled code. */
module ExpressionLaws {
  import opened Wrappers
  import opened Machine
  import opened Meaning
  import opened Exits

  // ----- names and logical operators -----

  /** Reading a global asks the world for it. Reading a local asks nothing. */
  lemma NameMeaning(w: World, s: State, name: string, r: nat)
    ensures Eval(w, GlobalName(name), s) ==
      Reply(w.answer(s.trace, Event(FetchGlobal, Text(name), Nil)), s.trace + [Event(FetchGlobal, Text(name), Nil)])
    ensures r < |s.regs| ==> Eval(w, LocalName(r), s) == Reply(Some(s.regs[r]), s.trace)
  {
  }

  /** Only nil and false are false. The operators keep the value that decides, and evaluate the other operand only if
      the first does not decide. */
  lemma AndMeaning(w: World, l: Expr, r: Expr, s: State, a: Reply)
    requires a == Eval(w, l, s)
    ensures a.value == None || a.value == Some(Nil) || a.value == Some(Boolean(false)) ==> Eval(w, And(l, r), s) == a
    ensures a.value != None && a.value != Some(Nil) && a.value != Some(Boolean(false)) ==>
      Eval(w, And(l, r), s) == Eval(w, r, s.(trace := a.trace))
  {
  }

  lemma OrMeaning(w: World, l: Expr, r: Expr, s: State, a: Reply)
    requires a == Eval(w, l, s)
    ensures a.value == Some(Nil) || a.value == Some(Boolean(false)) ==> Eval(w, Or(l, r), s) == Eval(w, r, s.(trace := a.trace))
    ensures a.value != Some(Nil) && a.value != Some(Boolean(false)) ==> Eval(w, Or(l, r), s) == a
  {
  }

  lemma NotMeaning(w: World, e: Expr, s: State)
    ensures var a := Eval(w, e, s);
      Eval(w, Not(e), s) ==
        if a.value == None then a else Reply(Some(Boolean(a.value in {Some(Nil), Some(Boolean(false))})), a.trace)
  {
  }

  // ----- operators on values -----

  /** Both operands have values, the left one first. */
  ghost predicate Values(w: World, l: Expr, r: Expr, s: State, x: Value, y: Value, trace: seq<Event>) {
    Eval(w, l, s).value == Some(x) && Eval(w, r, s.(trace := Eval(w, l, s).trace)) == Reply(Some(y), trace)
  }

  /** An operand that raises ends the operation; the right one is not evaluated if the left one raises. */
  lemma OperandRaises(w: World, l: Expr, r: Expr, s: State, op: Operator, rel: Relation)
    ensures var a := Eval(w, l, s); var b := Eval(w, r, s.(trace := a.trace));
      (a.value == None ==> Eval(w, Binary(op, l, r), s) == Eval(w, Compare(rel, l, r), s) == Eval(w, Unary(op, l), s) == a) &&
      (a.value != None && b.value == None ==> Eval(w, Binary(op, l, r), s) == Eval(w, Compare(rel, l, r), s) == b)
  {
    BinaryRaises(w, l, r, s, op);
  }

  lemma BinaryRaises(w: World, l: Expr, r: Expr, s: State, op: Operator)
    ensures var a := Eval(w, l, s); var b := Eval(w, r, s.(trace := a.trace));
      (a.value == None ==> Eval(w, Binary(op, l, r), s) == a) && (a.value != None && b.value == None ==> Eval(w, Binary(op, l, r), s) == b)
  {
  }

  lemma ArithmeticMeaning(w: World, op: Operator, l: Expr, r: Expr, s: State, x: Value, y: Value, trace: seq<Event>)
    requires Values(w, l, r, s, x, y, trace) && op in {Add, Sub, Mul, Div, Mod, Pow}
    ensures Eval(w, Binary(op, l, r), s) ==
      if x.Number? && y.Number? then Reply(Some(Number(w.numbers.arith(op, x.bits, y.bits))), trace)
      else Reply(w.answer(trace, Event(op, x, y)), trace + [Event(op, x, y)])
  {
  }

  lemma ConcatMeaning(w: World, l: Expr, r: Expr, s: State, x: Value, y: Value, trace: seq<Event>)
    requires Values(w, l, r, s, x, y, trace)
    ensures var e := Binary(Concat, l, r);
      (x.Text? && y.Text? ==> Eval(w, e, s) == Reply(Some(Text(x.chars + y.chars)), trace)) &&
      (x.Text? && y.Number? ==> Eval(w, e, s) == Reply(Some(Text(x.chars + w.numbers.format(y.bits))), trace)) &&
      (x.Number? && y.Text? ==> Eval(w, e, s) == Reply(Some(Text(w.numbers.format(x.bits) + y.chars)), trace)) &&
      (x.Number? && y.Number? ==> Eval(w, e, s) == Reply(Some(Text(w.numbers.format(x.bits) + w.numbers.format(y.bits))), trace)) &&
      (!(x.Text? || x.Number?) || !(y.Text? || y.Number?) ==>
        Eval(w, e, s) == Reply(w.answer(trace, Event(Concat, x, y)), trace + [Event(Concat, x, y)]))
  {
  }

  lemma UnaryMeaning(w: World, e: Expr, s: State, x: Value, trace: seq<Event>)
    requires Eval(w, e, s) == Reply(Some(x), trace)
    ensures Eval(w, Unary(Negate, e), s) ==
      if x.Number? then Reply(Some(Number(w.numbers.negate(x.bits))), trace)
      else Reply(w.answer(trace, Event(Negate, x, Nil)), trace + [Event(Negate, x, Nil)])
    ensures Eval(w, Unary(Length, e), s) == Reply(w.answer(trace, Event(Length, x, Nil)), trace + [Event(Length, x, Nil)])
  {
  }

  // ----- comparisons -----

  /** One event is asked, and its answer, or the opposite of it, is the Boolean that results. */
  ghost predicate Asks(w: World, reply: Reply, trace: seq<Event>, e: Event, opposite: bool) {
    var answer := w.answer(trace, e);
    reply.trace == trace + [e] &&
    reply.value == if answer == None then None
                   else Some(Boolean((answer == Some(Nil) || answer == Some(Boolean(false))) == opposite))
  }

  lemma ComparedPair(w: World, rel: Relation, l: Expr, r: Expr, s: State, x: Value, y: Value, trace: seq<Event>)
    requires Values(w, l, r, s, x, y, trace)
    ensures Eval(w, Compare(rel, l, r), s) == ApplyRelation(w, rel, Both(x, Reply(Some(y), trace)))
  {
  }

  /** Which event each relation asks: the two descending ones exchange their operands, which have been evaluated from
      left to right all the same. */
  lemma ComparisonMeaning(w: World, rel: Relation, l: Expr, r: Expr, s: State, x: Value, y: Value, trace: seq<Event>)
    requires Values(w, l, r, s, x, y, trace)
    ensures rel == IsEqual ==> Asks(w, Eval(w, Compare(rel, l, r), s), trace, Event(Equal, x, y), false)
    ensures rel == IsNotEqual ==> Asks(w, Eval(w, Compare(rel, l, r), s), trace, Event(Equal, x, y), true)
    ensures rel == IsLess ==> Asks(w, Eval(w, Compare(rel, l, r), s), trace, Event(Less, x, y), false)
    ensures rel == IsLessEqual ==> Asks(w, Eval(w, Compare(rel, l, r), s), trace, Event(LessEqual, x, y), false)
    ensures rel == IsGreater ==> Asks(w, Eval(w, Compare(rel, l, r), s), trace, Event(Less, y, x), false)
    ensures rel == IsGreaterEqual ==> Asks(w, Eval(w, Compare(rel, l, r), s), trace, Event(LessEqual, y, x), false)
  {
    ComparedPair(w, rel, l, r, s, x, y, trace);
  }

  /** The world compares numbers by a total order. */
  ghost predicate OrdersNumbers(w: World, before: (int, int) -> bool) {
    (forall a, b :: (if before(a, b) then 1 else 0) + (if a == b then 1 else 0) + (if before(b, a) then 1 else 0) == 1) &&
    (forall a, b, c :: before(a, b) && before(b, c) ==> before(a, c)) &&
    (forall t, a, b {:trigger w.answer(t, Event(Equal, Number(a), Number(b)))} ::
      w.answer(t, Event(Equal, Number(a), Number(b))) == Some(Boolean(a == b))) &&
    (forall t, a, b {:trigger w.answer(t, Event(Less, Number(a), Number(b)))} ::
      w.answer(t, Event(Less, Number(a), Number(b))) == Some(Boolean(before(a, b)))) &&
    (forall t, a, b {:trigger w.answer(t, Event(LessEqual, Number(a), Number(b)))} ::
      w.answer(t, Event(LessEqual, Number(a), Number(b))) == Some(Boolean(!before(b, a))))
  }

  /** The relation on numbers that is meant. */
  predicate Relates(rel: Relation, before: (int, int) -> bool, a: int, b: int) {
    match rel
    case IsEqual => a == b
    case IsNotEqual => a != b
    case IsLess => before(a, b)
    case IsLessEqual => before(a, b) || a == b
    case IsGreater => before(b, a)
    case IsGreaterEqual => before(b, a) || a == b
  }

  lemma NumbersCompared(w: World, before: (int, int) -> bool, rel: Relation, l: Expr, r: Expr, s: State, a: int, b: int, trace: seq<Event>)
    requires OrdersNumbers(w, before) && Values(w, l, r, s, Number(a), Number(b), trace)
    ensures Eval(w, Compare(rel, l, r), s).value == Some(Boolean(Relates(rel, before, a, b)))
  {
    ComparisonMeaning(w, rel, l, r, s, Number(a), Number(b), trace);
  }

  /** The code of a comparison of two numbers leaves its truth in the target. */
  lemma ComparisonAssigned(u: Bounds, code: seq<Instr>, start: nat, mark: nat, target: nat, rel: Relation, l: Expr, r: Expr,
                           w: World, before: (int, int) -> bool, s: State, a: int, b: int, trace: seq<Event>)
    requires Assigns(u, code, start, mark, Compare(rel, l, r), target) && Admits(u, w, s)
    requires OrdersNumbers(w, before) && Values(w, l, r, s, Number(a), Number(b), trace)
    ensures var out := Run(w, code, {}, start, s);
      out.Fell? && target < |out.state.regs| && out.state.regs[target] == Boolean(Relates(rel, before, a, b)) &&
      forall k :: 0 <= k < mark && k < |s.regs| && k != target ==> k < |out.state.regs| && out.state.regs[k] == s.regs[k]
  {
    NumbersCompared(w, before, rel, l, r, s, a, b, trace);
  }

  /** The code of a condition that compares two numbers falls through if the relation holds, and leaves if not. */
  lemma ComparisonChosen(u: Bounds, code: seq<Instr>, start: nat, mark: nat, pending: set<nat>, rel: Relation, l: Expr, r: Expr,
                         w: World, before: (int, int) -> bool, s: State, a: int, b: int, trace: seq<Event>)
    requires Chooses(u, code, start, mark, pending, Compare(rel, l, r)) && Admits(u, w, s)
    requires OrdersNumbers(w, before) && Values(w, l, r, s, Number(a), Number(b), trace)
    ensures var out := Run(w, code, pending, start, s);
      if Relates(rel, before, a, b) then out.Fell? else out.Exited? && out.pc in pending
  {
    NumbersCompared(w, before, rel, l, r, s, a, b, trace);
    assert ChoosesAt(mark, pending, Eval(w, Compare(rel, l, r), s), s, Run(w, code, pending, start, s));
  }
}
