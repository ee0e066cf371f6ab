/** Descriptors, their exit lists and what each step of code generation does to the meaning of
    the code behind them; and the promises made about whole expressions. */
module Exits {
  import opened Wrappers
  import opened Machine
  import opened OpenCode
  import opened Emitter
  import opened Meaning
  import opened Lowering
  import opened Operands
  import opened Writing

  /** Where an expression's code begins, the first register it may use, and the expression. */
  datatype Site = Site(start: nat, mark: nat, expr: Expr)

  function Count(b: bool): int {
    if b then 1 else 0
  }

  /** The jumps a descriptor still owns. */
  function OwnedJumps(v: Descriptor, ts: seq<nat>, fs: seq<nat>): int {
    |ts| + |fs| + Count(v.kind.Condition?)
  }

  /** The exits of compiled code lie in its core, so a change behind the core keeps their chains. */
  lemma CoreChains(u: Bounds, code: seq<Instr>, x: Site, dst: nat, fall: Fall, v: Descriptor, ts: seq<nat>, fs: seq<nat>,
                   code': seq<Instr>)
    requires Compiled(u, code, x.start, x.mark, dst, fall, Members(ts), Members(fs), x.expr)
    requires IsChain(code, v.trueExits, ts) && IsChain(code, v.falseExits, fs)
    requires Core(code, fall) <= code'
    ensures IsChain(code', v.trueExits, ts) && IsChain(code', v.falseExits, fs) && code[..x.start] <= code'
    ensures Distinct(ts + fs) && Distinct(fs + ts)
    ensures forall j :: j in ts || j in fs ==> x.start <= j < |Core(code, fall)|
    ensures !CopiesBefore(Core(code, fall), |Core(code, fall)|)
  {
    if |Core(code, fall)| > x.start {
      assert WellPlaced(Core(code, fall), Members(ts) + Members(fs), |Core(code, fall)| - 1);
    }
    var P := Members(ts) + Members(fs);
    forall j | j in ts || j in fs ensures x.start <= j < |Core(code, fall)| && code'[j] == code[j] {
      assert j in P;
    }
    ChainKept(code, v.trueExits, ts, code');
    ChainKept(code, v.falseExits, fs, code');
    DistinctJoin(ts, fs);
    DistinctJoin(fs, ts);
  }

  lemma DistinctJoin(xs: seq<nat>, ys: seq<nat>)
    requires Distinct(xs) && Distinct(ys) && Members(xs) !! Members(ys)
    ensures Distinct(xs + ys)
    ensures Members(xs + ys) == Members(xs) + Members(ys)
  {
    var all := xs + ys;
    forall i, j | 0 <= i < j < |all| ensures all[i] != all[j] {
      if i < |xs| <= j {
        assert xs[i] in Members(xs) && ys[j - |xs|] in Members(ys);
      }
    }
  }

  /** Joining two lists of the same side relinks pending jumps only. */
  lemma ExitsJoined(u: Bounds, code: seq<Instr>, x: Site, fall: Fall, T: set<nat>, F: set<nat>,
                    xs: seq<nat>, zs: seq<nat>, joined: nat, other: nat, ys: seq<nat>, code': seq<Instr>)
    requires Compiled(u, code, x.start, x.mark, NO_REGISTER, fall, T, F, x.expr)
    requires Members(xs + zs) + Members(ys) == T + F && Members(xs + zs) !! Members(ys)
    requires IsChain(code, other, ys)
    requires |code'| == |code| && forall k :: 0 <= k < |code| && k !in xs ==> code'[k] == code[k]
    requires IsChain(code', joined, xs + zs)
    ensures Compiled(u, code', x.start, x.mark, NO_REGISTER, fall, T, F, x.expr)
    ensures IsChain(code', other, ys) && code[..x.start] <= code'
  {
    var P := T + F;
    ChainJumps(code', joined, xs + zs);
    forall k | k in P ensures x.start <= k < |Core(code, fall)| && code[k] == Core(code, fall)[k] {}
    forall k | 0 <= k < |code| ensures if k in P then code'[k].Jump? else code'[k] == code[k] {
      if k in xs + zs {
        assert k in Members(xs + zs);
      } else if k in P {
        assert k in Members(ys);
        assert code[k].Jump?;
      } else {
        assert k in xs ==> k in xs + zs;
      }
    }
    RelinkCompiled(u, code, x.start, x.mark, NO_REGISTER, fall, T, F, x.expr, code');
    forall k | k in ys ensures k < |code| && code'[k] == code[k] {
      assert k in Members(ys) && k in P;
      assert k in xs ==> k in Members(xs + zs);
    }
    ChainKept(code, other, ys, code');
    forall k | 0 <= k < x.start ensures code'[k] == code[k] {
      assert k in xs ==> k in Members(xs + zs);
    }
  }

  lemma SingleChain(code: seq<Instr>, j: nat)
    requires j < |code| && code[j] == Jump(-1)
    ensures IsChain(code, j + 1, [j])
  {
    assert ChainAt(code, [j], 0);
  }

  lemma NormalExitPatched(code: seq<Instr>, target: nat, over: bool, code1: seq<Instr>, ns: seq<nat>)
    requires ns == if over then [|code|] else []
    requires code1 == code + (if over then [Jump(-1)] else []) + [LoadBool(target, false, true), LoadBool(target, true, false)]
    requires !CopiesBefore(code, |code|)
    ensures IsChain(code1, if over then |code| + 1 else 0, ns)
    ensures Patched(code1, ns, |code1|, NO_REGISTER, |code1|) == code + Loads(target, over)
  {
    if over {
      SingleChain(code1, |code|);
    }
    var code2 := Patched(code1, ns, |code1|, NO_REGISTER, |code1|);
    forall k | 0 <= k < |code1| ensures code2[k] == (code + Loads(target, over))[k] {
      assert code2[k] == PatchedAt(code1, ns, |code1|, NO_REGISTER, |code1|, k);
    }
  }

  lemma TrueChainKept(code: seq<Instr>, list: nat, ts: seq<nat>, fs: seq<nat>, vt: nat, target: nat, ft: nat)
    requires IsChain(code, list, ts) && Members(ts) !! Members(fs)
    ensures IsChain(Patched(code, fs, vt, target, ft), list, ts)
  {
    ChainJumps(code, list, ts);
    forall j | j in ts ensures j !in fs {
      assert j in Members(ts);
      assert j in fs ==> j in Members(fs);
    }
    ChainKept(code, list, ts, Patched(code, fs, vt, target, ft));
  }

  lemma FinishedPrefix(code: seq<Instr>, x: Site, ts: seq<nat>, fs: seq<nat>, ext: seq<Instr>, target: nat, ft: nat, tt: nat)
    requires x.start <= |code| && (forall j :: j in ts || j in fs ==> x.start <= j < |code|) && !CopiesBefore(code, x.start)
    ensures code[..x.start] <= Finished(code + ext, ts, fs, target, ft, tt)
  {
    var code1 := code + ext;
    var once := Patched(code1, fs, |code1|, target, ft);
    forall k | 0 <= k < x.start ensures Finished(code1, ts, fs, target, ft, tt)[k] == code[k] {
      assert once[k] == PatchedAt(code1, fs, |code1|, target, ft, k);
    }
  }

  function Excepted(fall: Fall, target: nat): nat {
    if fall.Yields? then target else NO_REGISTER
  }

  /** Patching the false exits and then the true ones finishes the write. */
  lemma ExitsResolved(u: Bounds, code: seq<Instr>, x: Site, fall: Fall, v: Descriptor, ts: seq<nat>, fs: seq<nat>,
                      target: nat, ext: seq<Instr>, ft: nat, tt: nat)
    requires Compiled(u, code, x.start, x.mark, Excepted(fall, target), fall, Members(ts), Members(fs), x.expr)
    requires IsChain(code, v.trueExits, ts) && IsChain(code, v.falseExits, fs)
    requires fall == Yields(Temporary(target)) || fall == FallsFalse
    requires Plan(code, fall, ts, fs, target, ext, ft, tt)
    requires target < u.high <= MAX_REGISTERS
    ensures var code1 := code + ext;
            var code2 := Patched(code1, fs, |code1|, target, ft);
            var code3 := Patched(code2, ts, |code1|, target, tt);
            && IsChain(code1, v.falseExits, fs) && IsChain(code2, v.trueExits, ts)
            && Compiled(u, code3, x.start, x.mark, target, Yields(Temporary(target)), {}, {}, x.expr)
            && code[..x.start] <= code3
  {
    var code1 := code + ext;
    assert Core(code, fall) == code;
    CoreChains(u, code, x, Excepted(fall, target), fall, v, ts, fs, code1);
    TrueChainKept(code1, v.trueExits, ts, fs, |code1|, target, ft);
    FinishCompiled(u, u, code, x.start, x.mark, Excepted(fall, target), fall, ts, fs, x.expr, target, ext, ft, tt);
    FinishedPrefix(code, x, ts, fs, ext, target, ft, tt);
  }

  /** Expressions own at most the register at their mark. */
  function TopFor(x: Site, kind: Kind): nat {
    if kind.Temporary? then x.mark + 1 else x.mark
  }

  lemma KnownCompiled(u: Bounds, code: seq<Instr>, x: Site, value: Value, T: set<nat>, F: set<nat>)
    requires Compiled(u, code, x.start, x.mark, NO_REGISTER, Yields(Kind.Literal(value)), T, F, x.expr)
    ensures Compiled(u, code, x.start, x.mark, NO_REGISTER, Knows(Truth(value)), T, F, x.expr)
  {
    assert Core(code, Yields(Kind.Literal(value))) == Core(code, Knows(Truth(value)));
  }

  lemma HigherFrame(u: Bounds, u': Bounds, code: seq<Instr>, x: Site, kind: Kind, ts: seq<nat>, fs: seq<nat>)
    requires Compiled(u, code, x.start, x.mark, NO_REGISTER, Yields(kind), Members(ts), Members(fs), x.expr) && Grows(u, u')
    ensures Compiled(u', code, x.start, x.mark, NO_REGISTER, Yields(kind), Members(ts), Members(fs), x.expr)
  {
    forall w, s | Admits(u', w, s) ensures Admits(u, w, s) {}
  }

  ghost predicate NewExit(code: seq<Instr>, x: Site, v: Descriptor, ts: seq<nat>, fs: seq<nat>, j: nat) {
    && IsChain(code, v.trueExits, ts) && IsChain(code, v.falseExits, fs) && IsChain(code, j + 1, [j])
    && Distinct(ts + [j]) && Distinct(fs + [j])
    && Members(ts + [j]) == Members(ts) + {j} && Members(fs + [j]) == Members(fs) + {j}
    && j !in ts && j !in fs
  }

  lemma NewExitFacts(code: seq<Instr>, x: Site, v: Descriptor, ts: seq<nat>, fs: seq<nat>, j: nat)
    requires IsChain(code, v.trueExits, ts) && IsChain(code, v.falseExits, fs)
    requires j < |code| && code[j] == Jump(-1) && j !in ts && j !in fs
    ensures NewExit(code, x, v, ts, fs, j)
  {
    SingleChain(code, j);
    assert Members([j]) == {j};
    DistinctJoin(ts, [j]);
    DistinctJoin(fs, [j]);
  }

  /** A comparison decides with its own jump, inverted when the true side is to fall through. */
  lemma ConditionExit(u: Bounds, code: seq<Instr>, x: Site, v: Descriptor, ts: seq<nat>, fs: seq<nat>, truth: bool,
                      code1: seq<Instr>, fall: Fall)
    requires Compiled(u, code, x.start, x.mark, NO_REGISTER, Yields(v.kind), Members(ts), Members(fs), x.expr)
    requires v.kind.Condition? && IsChain(code, v.trueExits, ts) && IsChain(code, v.falseExits, fs)
    requires code1 == if truth then code[v.kind.pc - 1 := Inverted(code[v.kind.pc - 1])] else code
    requires fall == Knows(truth) || (fall == FallsFalse && !truth)
    ensures NewExit(code1, x, v, ts, fs, v.kind.pc) && code[..x.start] <= code1 && !CopiesBefore(code1, v.kind.pc)
    ensures var T, F, j := Members(ts), Members(fs), v.kind.pc;
            Compiled(u, code1, x.start, x.mark, NO_REGISTER, fall, if truth then T else T + {j}, if truth then F + {j} else F, x.expr)
  {
    var T, F, j := Members(ts), Members(fs), v.kind.pc;
    var core := Core(code, Yields(v.kind));
    assert code1 == core + [code1[j - 1], Jump(-1)];
    BranchCompiled(u, u, code, x.start, x.mark, v.kind, T, F, x.expr, truth, code1[j - 1], code1, fall);
    CoreChains(u, code, x, NO_REGISTER, Yields(v.kind), v, ts, fs, code1);
    NewExitFacts(code1, x, v, ts, fs, j);
  }

  /** The control instruction that tests a value and lets `truth` fall through. */
  ghost predicate Tests(code: seq<Instr>, kind: Kind, control: Instr, truth: bool) {
    match kind
    case Local(r) => control == TestSet(NO_REGISTER, r, !truth)
    case Temporary(r) => control == TestSet(NO_REGISTER, r, !truth)
    case Deferred(pc) => pc < |code| && code[pc].NotOp? && control == Test(code[pc].b, truth)
    case _ => false
  }

  /** A test and its jump behind the core of a value. */
  lemma ExitEmitted(u: Bounds, u': Bounds, code: seq<Instr>, x: Site, v: Descriptor, ts: seq<nat>, fs: seq<nat>, truth: bool,
                    control: Instr, code': seq<Instr>)
    requires Compiled(u, code, x.start, x.mark, NO_REGISTER, Yields(v.kind), Members(ts), Members(fs), x.expr) && Grows(u, u')
    requires IsChain(code, v.trueExits, ts) && IsChain(code, v.falseExits, fs)
    requires code' == Core(code, Yields(v.kind)) + [control, Jump(-1)]
    requires Tests(code, v.kind, control, truth)
    ensures var j := |code'| - 1;
            && NewExit(code', x, v, ts, fs, j) && code[..x.start] <= code'
            && Compiled(u', code', x.start, x.mark, NO_REGISTER, Knows(truth),
                        if truth then Members(ts) else Members(ts) + {j}, if truth then Members(fs) + {j} else Members(fs), x.expr)
  {
    BranchCompiled(u, u', code, x.start, x.mark, v.kind, Members(ts), Members(fs), x.expr, truth, control, code', Knows(truth));
    CoreChains(u, code, x, NO_REGISTER, Yields(v.kind), v, ts, fs, code');
    NewExitFacts(code', x, v, ts, fs, |code'| - 1);
  }

  /** The exits on the side that falls through are resolved to the end of the code. */
  lemma GuardPatched(u: Bounds, code: seq<Instr>, x: Site, truth: bool, list: nat, zs: seq<nat>, ys: seq<nat>)
    requires Compiled(u, code, x.start, x.mark, NO_REGISTER, Knows(truth),
                      if truth then Members(ys) else Members(zs), if truth then Members(zs) else Members(ys), x.expr)
    requires IsChain(code, list, zs)
    ensures var code' := Patched(code, ys, |code|, NO_REGISTER, |code|);
            && IsChain(code', list, zs) && code[..x.start] <= code'
            && Compiled(u, code', x.start, x.mark, NO_REGISTER, Knows(truth),
                        if truth then {} else Members(zs), if truth then Members(zs) else {}, x.expr)
  {
    var T, F := if truth then Members(ys) else Members(zs), if truth then Members(zs) else Members(ys);
    PatchHereCompiled(u, code, x.start, x.mark, truth, T, F, x.expr, ys);
    TrueChainKept(code, list, zs, ys, |code|, NO_REGISTER, |code|);
    var code' := Patched(code, ys, |code|, NO_REGISTER, |code|);
    assert Core(code, Knows(truth)) == code;
    forall k | 0 <= k < x.start ensures code'[k] == code[k] {
      assert k in ys ==> k in Members(ys) && k in T + F;
      assert k + 1 in ys ==> k + 1 in Members(ys) && k + 1 in T + F;
    }
  }

  /** How the operand's kind and the code behind its core change under `not`. */
  ghost predicate NegatedTail(code: seq<Instr>, kind: Kind, code': seq<Instr>, kind': Kind) {
    match kind
    case Literal(v) => kind' == Kind.Literal(Boolean(!Truth(v))) && code' == code
    case Condition(pc) => kind' == kind && 0 < pc < |code| && code[pc - 1].Comparison? && code' == code[pc - 1 := Inverted(code[pc - 1])]
    case Local(r) => kind' == Deferred(|code|) && code' == code + [NotOp(NO_REGISTER, r)]
    case Temporary(r) => kind' == Deferred(|code|) && code' == code + [NotOp(NO_REGISTER, r)]
    case _ => false
  }

  lemma NegatedShape(code: seq<Instr>, kind: Kind, code': seq<Instr>, kind': Kind)
    requires Shape(code, Yields(kind)) && NegatedTail(code, kind, code', kind')
    ensures Shape(code', Yields(kind')) && Core(code', Yields(kind')) == Core(code, Yields(kind)) <= code'
  {
  }

  lemma NotMeaning(u: Bounds, code: seq<Instr>, kind: Kind, x: Site, v: Descriptor, ts: seq<nat>, fs: seq<nat>,
                   code': seq<Instr>, kind': Kind)
    requires Compiled(u, code, x.start, x.mark, NO_REGISTER, Yields(kind), Members(ts), Members(fs), x.expr)
    requires IsChain(code, v.trueExits, ts) && IsChain(code, v.falseExits, fs)
    requires NegatedTail(code, kind, code', kind')
    ensures var once := Discarded(code', fs);
            var twice := Discarded(once, ts);
            && IsChain(code', v.falseExits, fs) && IsChain(once, v.trueExits, ts)
            && IsChain(twice, v.falseExits, fs) && IsChain(twice, v.trueExits, ts)
            && code[..x.start] <= twice
            && Compiled(u, twice, x.start, x.mark, NO_REGISTER, Yields(kind'), Members(fs), Members(ts), Expr.Not(x.expr))
  {
    var core := Core(code, Yields(kind));
    NegatedShape(code, kind, code', kind');
    CoreChains(u, code, x, NO_REGISTER, Yields(kind), v, ts, fs, code');
    DiscardsKeep(code', core, x, v, ts, fs);
    NegatedValue(u, code, kind, code', kind', Discarded(Discarded(code', fs), ts), core);
    NegateCompiled(u, code, x.start, x.mark, kind, ts, fs, x.expr, Discarded(Discarded(code', fs), ts), kind');
  }

  lemma DiscardsKeep(code: seq<Instr>, core: seq<Instr>, x: Site, v: Descriptor, ts: seq<nat>, fs: seq<nat>)
    requires core <= code && IsChain(code, v.trueExits, ts) && IsChain(code, v.falseExits, fs)
    requires forall j :: j in ts || j in fs ==> x.start <= j < |core|
    requires x.start <= |core| && !CopiesBefore(core, x.start)
    ensures var once := Discarded(code, fs);
            var twice := Discarded(once, ts);
            && IsChain(once, v.trueExits, ts) && IsChain(twice, v.falseExits, fs) && IsChain(twice, v.trueExits, ts)
            && code[..x.start] <= twice
            && twice == Discarded(Discarded(core, fs), ts) + code[|core|..]
  {
    var once := Discarded(code, fs);
    var twice := Discarded(once, ts);
    ChainJumps(code, v.trueExits, ts);
    ChainJumps(code, v.falseExits, fs);
    ChainKept(code, v.trueExits, ts, once);
    ChainKept(code, v.trueExits, ts, twice);
    ChainKept(code, v.falseExits, fs, twice);
    var cut := Discarded(Discarded(core, fs), ts);
    forall k | 0 <= k < |code| ensures twice[k] == (cut + code[|core|..])[k] {
      assert once[k] == DiscardedAt(code, fs, k) && twice[k] == DiscardedAt(once, ts, k);
      if k < |core| {
        assert Discarded(core, fs)[k] == DiscardedAt(core, fs, k);
      }
    }
  }

  lemma NegatedValue(u: Bounds, code: seq<Instr>, kind: Kind, code': seq<Instr>, kind': Kind, final: seq<Instr>, core: seq<Instr>)
    requires Shape(code, Yields(kind)) && Shape(code', Yields(kind')) && NegatedTail(code, kind, code', kind')
    requires core == Core(code', Yields(kind')) && |final| == |code'| && final[|core|..] == code'[|core|..]
    ensures Shape(final, Yields(kind'))
    ensures forall w, s {:trigger Admits(u, w, s)} :: Admits(u, w, s) ==>
      ValueOf(w, final, kind', s) == AsBoolean(ValueOf(w, code, kind, s), false)
  {
    forall k | |core| <= k < |final| ensures final[k] == code'[k] {
      assert final[k] == final[|core|..][k - |core|] && code'[k] == code'[|core|..][k - |core|];
    }
  }

  /** A binary operator of the fragment that is neither `and`, `or` nor concatenation. */
  datatype Infix = Arithmetic(op: Operator) | Relational(rel: Relation)

  function Joined(infix: Infix, l: Expr, r: Expr): Expr {
    match infix
    case Arithmetic(op) => Binary(op, l, r)
    case Relational(rel) => Compare(rel, l, r)
  }

  /** The left operand as it was when the right one began: its code, and where its value is held. */
  datatype LeftOperand = LeftOperand(bounds: Bounds, code: seq<Instr>, kind: Kind, expr: Expr)

  ghost predicate IsLeft(x: Site, y: LeftOperand) {
    && Compiled(y.bounds, y.code, x.start, x.mark, NO_REGISTER, Yields(y.kind), {}, {}, y.expr)
    && HeldBelow(y.kind, TopFor(x, y.kind))
    && (y.kind.Temporary? ==> y.kind.register == x.mark)
  }

  lemma PairGrows(u: Bounds, u': Bounds, code: seq<Instr>, x: Site, kl: Kind, kr: Kind, l: Expr, r: Expr)
    requires Paired(u, code, x.start, x.mark, kl, kr, l, r) && Grows(u, u')
    ensures Paired(u', code, x.start, x.mark, kl, kr, l, r)
  {
    forall w, s | Admits(u', w, s) ensures Admits(u, w, s) {}
  }

  lemma JoinReady(u: Bounds, u': Bounds, code1: seq<Instr>, x: Site, truth: bool, list: nat, zs: seq<nat>, l: Expr,
                  code2: seq<Instr>, v: Descriptor, ts: seq<nat>, fs: seq<nat>, xr: Site)
    requires Compiled(u, code1, x.start, x.mark, NO_REGISTER, Knows(truth),
                      if truth then {} else Members(zs), if truth then Members(zs) else {}, l) && Grows(u, u')
    requires Compiled(u', code2, xr.start, xr.mark, NO_REGISTER, Yields(v.kind), Members(ts), Members(fs), xr.expr)
    requires code1 <= code2 && xr.start == |code1| && xr.mark == x.mark && InFragment(xr.expr, x.mark)
    requires IsChain(code1, list, zs) && IsChain(code2, v.trueExits, ts) && IsChain(code2, v.falseExits, fs)
    requires x.expr == (if truth then And(l, xr.expr) else Or(l, xr.expr))
    ensures IsChain(code2, list, zs) && Distinct(ts + zs) && Distinct(fs + zs) && code1[..x.start] == code2[..x.start]
    ensures Members(ts + zs) == Members(ts) + Members(zs) && Members(fs + zs) == Members(fs) + Members(zs)
    ensures Members(zs) !! Members(ts) + Members(fs)
    ensures Compiled(u', code2, x.start, x.mark, NO_REGISTER, Yields(v.kind),
                     Members(if truth then ts else ts + zs), Members(if truth then fs + zs else fs), x.expr)
  {
    CoreChains(u', code2, xr, NO_REGISTER, Yields(v.kind), v, ts, fs, code2);
    ChainJumps(code1, list, zs);
    ChainKept(code1, list, zs, code2);
    forall j | j in Members(zs) ensures j !in Members(ts) + Members(fs) {
      assert j in zs;
    }
    DistinctJoin(ts, zs);
    DistinctJoin(fs, zs);
    SequenceCompiled(u, u', code1, x.start, x.mark, truth, Members(zs), l, code2, v.kind, Members(ts), Members(fs), xr.expr);
  }

  lemma ConcatMeaning(u: Bounds, code: seq<Instr>, x: Site, y: LeftOperand, xr: Site)
    requires IsLeft(x, y) && y.kind == Temporary(x.mark) && Grows(y.bounds, u)
    requires Compiled(u, code, xr.start, xr.mark, NO_REGISTER, Yields(Temporary(xr.mark)), Members([]), Members([]), xr.expr)
    requires y.code <= code && xr.start == |y.code| && xr.mark == x.mark + 1
    requires InFragment(xr.expr, x.mark) && x.expr == Binary(Concat, y.expr, xr.expr)
    ensures Compiled(u, code + [ConcatOp(NO_REGISTER, x.mark, xr.mark)], x.start, x.mark, NO_REGISTER, Yields(Deferred(|code|)), {}, {}, x.expr)
  {
    assert Members([]) == {};
    PairCompiled(y.bounds, u, y.code, x.start, x.mark, y.kind, y.expr, code, xr.mark, Temporary(xr.mark), xr.expr);
    ConcatCompiled(u, code, x.start, x.mark, x.mark, y.expr, xr.expr);
  }

  lemma LeafReady(u: Bounds, code: seq<Instr>, x: Site, kind: Kind)
    requires x.mark <= u.high && IsLeaf(u.constants, x.expr, kind) && !CopiesBefore(code, |code|) && x.start == |code|
    ensures Compiled(u, code, x.start, x.mark, NO_REGISTER, Yields(kind), Members([]), Members([]), x.expr)
    ensures IsChain(code, 0, [])
  {
    assert Members([]) == {};
    LeafCompiled(u, code, x.mark, x.expr, kind);
  }

  lemma LeftReady(y: LeftOperand, x: Site, left: Descriptor)
    requires Compiled(y.bounds, y.code, x.start, x.mark, NO_REGISTER, Yields(y.kind), Members([]), Members([]), y.expr)
    requires IsHeld(y.kind) && y.kind == left.kind
    requires y.kind.Local? ==> y.kind.register < x.mark
    requires y.kind.Temporary? ==> y.kind.register == x.mark
    ensures IsLeft(x, y) && !CopiesBefore(y.code, |y.code|) && y.code[..x.start] <= y.code
  {
    assert Members([]) == {};
    CoreChains(y.bounds, y.code, x.(expr := y.expr), NO_REGISTER, Yields(y.kind), Descriptor(y.kind, 0, 0), [], [], y.code);
    assert Core(y.code, Yields(y.kind)) == y.code;
  }

  lemma GuardEnds(u: Bounds, code: seq<Instr>, x: Site, truth: bool, zs: seq<nat>)
    requires Compiled(u, code, x.start, x.mark, NO_REGISTER, Knows(truth),
                      if truth then {} else Members(zs), if truth then Members(zs) else {}, x.expr)
    ensures !CopiesBefore(code, |code|) && x.start <= |code|
  {
    assert Core(code, Knows(truth)) == code;
    if |code| > x.start {
      var T, F := if truth then {} else Members(zs), if truth then Members(zs) else {};
      assert WellPlaced(code, T + F, |code| - 1);
    }
  }

  lemma {:induction false} FragmentGrows(e: Expr, m: nat, n: nat)
    requires InFragment(e, m) && m <= n
    ensures InFragment(e, n)
  {
    if e.Not? || e.Unary? {
      FragmentGrows(e.operand, m, n);
    } else if e.Binary? || e.Compare? || e.And? || e.Or? {
      FragmentGrows(e.left, m, n);
      FragmentGrows(e.right, m, n);
    }
  }

  /** The instruction loads exactly this literal. */
  predicate Loading(constants: seq<Value>, i: Instr, value: Value) {
    Computes(i) &&
    match i
    case LoadNil(_, _) => value == Nil
    case LoadBool(_, b, _) => value == Boolean(b)
    case LoadK(_, k) => k < |constants| && constants[k] == value
    case _ => false
  }

  /** The instruction produces the pending value. */
  ghost predicate Produces(u: Bounds, i: Instr, code: seq<Instr>, kind: Kind) {
    && Shape(code, Yields(kind)) && Computes(i)
    && (forall w, s {:trigger Admits(u, w, s)} :: Admits(u, w, s) ==> Compute(w, i, s) == ValueOf(w, code, kind, s))
  }

  lemma ProducesKind(u: Bounds, i: Instr, code: seq<Instr>, kind: Kind)
    requires Shape(code, Yields(kind)) && Computes(i)
    requires match kind
      case Literal(value) => Loading(u.constants, i, value)
      case Local(r) => i.Move? && i.b == r
      case Temporary(r) => i.Move? && i.b == r
      case Global(k) => i.GetGlobal? && i.bx == k
      case Deferred(pc) => i == WithA(code[pc], i.a)
      case _ => false
    ensures Produces(u, i, code, kind)
  {
  }

  // ----- what whole expressions promise -----

  /** Runs of the finished code: the value of the expression arrives in `target` with the same
      history of operations, no other register below the mark changes, and the code raises exactly
      when evaluation does. */
  ghost predicate Assigns(u: Bounds, code: seq<Instr>, start: nat, mark: nat, e: Expr, target: nat) {
    forall w, s {:trigger Admits(u, w, s)} :: Admits(u, w, s) ==>
      var reply := Eval(w, e, s);
      var out := Run(w, code, {}, start, s);
      if reply.value.None? then out == Raised(reply.trace)
      else
        && out.Fell? && |out.state.regs| == |s.regs|
        && target < |s.regs| && out.state.regs[target] == reply.value.value && out.state.trace == reply.trace
        && forall r :: 0 <= r < mark && r < |s.regs| && r != target ==> out.state.regs[r] == s.regs[r]
  }

  lemma AssignsCompiled(u: Bounds, code: seq<Instr>, start: nat, mark: nat, e: Expr, target: nat)
    requires Compiled(u, code, start, mark, target, Yields(Temporary(target)), {}, {}, e) && target < u.high
    ensures Assigns(u, code, start, mark, e, target)
  {
    NothingPending();
    assert Core(code, Yields(Temporary(target))) == code;
  }

  /** Runs of a condition: it falls through exactly when the expression is true. */
  ghost predicate Chooses(u: Bounds, code: seq<Instr>, start: nat, mark: nat, P: set<nat>, e: Expr) {
    forall w, s {:trigger Admits(u, w, s)} :: Admits(u, w, s) ==>
      ChoosesAt(mark, P, Eval(w, e, s), s, Run(w, code, P, start, s))
  }

  ghost predicate ChoosesAt(mark: nat, P: set<nat>, reply: Reply, s: State, out: Outcome) {
    if reply.value.None? then out == Raised(reply.trace)
    else if Truth(reply.value.value) then out.Fell? && out.state.trace == reply.trace && Same(s, out.state, mark, NO_REGISTER)
    else out.Exited? && out.pc in P && out.state.trace == reply.trace && Same(s, out.state, mark, NO_REGISTER)
  }

  lemma ChoosesGuarded(u: Bounds, code: seq<Instr>, x: Site, xs: seq<nat>)
    requires Compiled(u, code, x.start, x.mark, NO_REGISTER, Knows(true), {}, Members(xs), x.expr)
    ensures Chooses(u, code, x.start, x.mark, Members(xs), x.expr)
  {
    assert Core(code, Knows(true)) == code && {} + Members(xs) == Members(xs);
  }

  lemma BareExit(u: Bounds, code: seq<Instr>, x: Site, v: Descriptor, ts: seq<nat>, fs: seq<nat>, code1: seq<Instr>)
    requires Compiled(u, code, x.start, x.mark, NO_REGISTER, Yields(v.kind), Members(ts), Members(fs), x.expr) && v.kind.Literal?
    requires IsChain(code, v.trueExits, ts) && IsChain(code, v.falseExits, fs) && code1 == code + [Jump(-1)]
    ensures IsChain(code1, |code| + 1, [|code|]) && IsChain(code1, v.falseExits, fs) && IsChain(code1, v.trueExits, ts)
    ensures Distinct([|code|] + fs) && x.start <= |code| && !CopiesBefore(code, |code|)
    ensures forall j :: j in ts || j in fs ==> x.start <= j < |code|
  {
    assert Core(code, Yields(v.kind)) == code;
    CoreChains(u, code, x, NO_REGISTER, Yields(v.kind), v, ts, fs, code1);
    SingleChain(code1, |code|);
    assert Members([|code|]) == {|code|};
    DistinctJoin([|code|], fs);
  }

  /** After the join and with the true exits sent behind the jump, only true values fall through. */
  lemma BareExitPatched(u: Bounds, code: seq<Instr>, x: Site, v: Descriptor, ts: seq<nat>, fs: seq<nat>, list: nat, code1: seq<Instr>)
    requires Compiled(u, code, x.start, x.mark, NO_REGISTER, Yields(v.kind), Members(ts), Members(fs), x.expr)
    requires v.kind.Literal? && !Truth(v.kind.value)
    requires IsChain(code, v.trueExits, ts) && IsChain(code1, list, [|code|] + fs)
    requires |code1| == |code| + 1 && forall k :: 0 <= k < |code| ==> code1[k] == code[k]
    ensures IsChain(code1, v.trueExits, ts)
    ensures var code' := Patched(code1, ts, |code1|, NO_REGISTER, |code1|);
            && IsChain(code', list, [|code|] + fs) && code[..x.start] <= code'
            && Chooses(u, code', x.start, x.mark, Members([|code|] + fs), x.expr)
  {
    var xs := [|code|] + fs;
    var code' := Patched(code1, ts, |code1|, NO_REGISTER, |code1|);
    assert Core(code, Yields(v.kind)) == code;
    BareExitRefines(code, x.start, ts, fs, code1);
    forall j | j in ts ensures j < |code| && code1[j] == code[j] { assert j in Members(ts) + Members(fs); }
    ChainKept(code, v.trueExits, ts, code1);
    TrueChainKept(code1, list, xs, ts, |code1|, NO_REGISTER, |code1|);
    forall w, s | Admits(u, w, s)
      ensures ChoosesAt(x.mark, Members(xs), Eval(w, x.expr, s), s, Run(w, code', Members(xs), x.start, s))
    {
      BareExitRun(w, code, x.start, ts, fs, code1, s);
      BareExitAt(w, code, x.mark, v.kind, ts, fs, Eval(w, x.expr, s), s, Run(w, code, Members(ts) + Members(fs), x.start, s),
                 Run(w, code', Members(xs), x.start, s));
    }
  }

  lemma BareExitRefines(code: seq<Instr>, start: nat, ts: seq<nat>, fs: seq<nat>, code1: seq<Instr>)
    requires WellFormed(code, start, Members(ts) + Members(fs)) && Members(ts) !! Members(fs) && !CopiesBefore(code, start)
    requires |code1| == |code| + 1 && forall k :: 0 <= k < |code| ==> code1[k] == code[k]
    ensures var code' := Patched(code1, ts, |code1|, NO_REGISTER, |code1|);
            && Refines(code, Members(ts) + Members(fs), code', Members([|code|] + fs), start)
            && Members([|code|] + fs) == {|code|} + Members(fs) && Members([|code|] + fs) !! Members(ts)
            && code[..start] <= code'
            && (forall j :: j in ts ==> j < |code| && code'[j] == Jump(|code1| - (j + 1)) && !CopiesBefore(code', j))
  {
    var P, X := Members(ts) + Members(fs), Members([|code|] + fs);
    var code' := Patched(code1, ts, |code1|, NO_REGISTER, |code1|);
    forall j | j in ts || j in fs ensures start <= j < |code| && code[j].Jump? { assert j in P; }
    assert X == {|code|} + Members(fs);
    forall k | 0 <= k < |code1| ensures code'[k] == PatchedAt(code1, ts, |code1|, NO_REGISTER, |code1|, k) {}
    forall k | start <= k < |code| ensures RefinedAt(code, P, code', X, k) {
      assert WellPlaced(code, P, k);
      assert k in P ==> k in ts || k in fs;
    }
    forall k | 0 <= k < start ensures code'[k] == code[k] {
      assert k in ts ==> k in P;
      assert k + 1 in ts ==> k + 1 in P;
    }
    forall j | j in ts ensures j < |code| && code'[j] == Jump(|code1| - (j + 1)) && !CopiesBefore(code', j) {
      if j > 0 {
        assert code'[j - 1] == PatchedAt(code1, ts, |code1|, NO_REGISTER, |code1|, j - 1);
      }
    }
  }

  /** What the bare jump makes of an outcome. */
  function Bared(n: nat, ts: seq<nat>, out: Outcome): Outcome {
    match out
    case Fell(s) => Exited(n, s)
    case Exited(j, s) => if j in ts then Fell(s) else out
    case _ => out
  }

  lemma BareExitRun(w: World, code: seq<Instr>, start: nat, ts: seq<nat>, fs: seq<nat>, code1: seq<Instr>, s: State)
    requires WellFormed(code, start, Members(ts) + Members(fs)) && Members(ts) !! Members(fs) && !CopiesBefore(code, start)
    requires |code1| == |code| + 1 && forall k :: 0 <= k < |code| ==> code1[k] == code[k]
    requires |s.regs| <= MAX_REGISTERS
    ensures var out := Run(w, code, Members(ts) + Members(fs), start, s);
            var code' := Patched(code1, ts, |code1|, NO_REGISTER, |code1|);
            out.Stuck? || Run(w, code', Members([|code|] + fs), start, s) == Bared(|code|, ts, out)
  {
    var code' := Patched(code1, ts, |code1|, NO_REGISTER, |code1|);
    var P, X := Members(ts) + Members(fs), Members([|code|] + fs);
    BareExitRefines(code, start, ts, fs, code1);
    Simulate(w, code, P, code', X, start, start, s);
    var out := Run(w, code, P, start, s);
    if out.Exited? && out.pc in ts {
      assert out.pc in Members(ts);
      assert Run(w, code', X, |code1|, out.state) == Fell(out.state);
    }
  }

  lemma BareExitAt(w: World, code: seq<Instr>, mark: nat, kind: Kind, ts: seq<nat>, fs: seq<nat>, reply: Reply, s: State,
                   out: Outcome, out': Outcome)
    requires Shape(code, Yields(kind)) && kind.Literal? && !Truth(kind.value)
    requires Describes(w, code, mark, NO_REGISTER, Yields(kind), Members(ts), Members(fs), reply, s, out)
    requires out' == Bared(|code|, ts, out)
    ensures ChoosesAt(mark, Members([|code|] + fs), reply, s, out')
  {
    assert |code| in [|code|] + fs;
    if out.Exited? {
      assert out.pc in ts <==> out.pc in Members(ts);
      assert out.pc in Members(fs) ==> out.pc in [|code|] + fs;
    }
  }
}
