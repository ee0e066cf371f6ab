/** Concatenation of a range of registers: runs of strings and numbers collapse in one step, and each metamethod
    call suspends the instruction until its result is there. */
module PairwiseConcat {
  import opened Wrappers

  /** Longest string that can be made. */
  const MAX_LENGTH: nat := 0x7fff_ffff_ffff_ffff

  datatype Value = Text(text: string) | Number(bits: nat) | Object(id: nat)

  /** A state of the metatables. */
  type World = nat

  /** How numbers are written, and which metamethod a pair of operands has. */
  datatype Rules = Rules(format: nat -> string, binaryMetamethod: (World, Value, Value) -> Option<Value>)

  datatype Call = Call(callable: Value, left: Value, right: Value)

  /** What a metamethod call came back with, and the metatables then. */
  datatype Answer = Answer(result: Value, world: World, registers: seq<Value>)

  datatype End = Result(value: Value) | Waiting | TypeError(position: nat) | Overflow

  datatype Reduction = Reduction(calls: seq<Call>, end: End)

  predicate IsDirect(v: Value) {
    v.Text? || v.Number?
  }

  function TextOf(rules: Rules, v: Value): string
    requires IsDirect(v)
  {
    if v.Text? then v.text else rules.format(v.bits)
  }

  /** One pair at a time from the right, as section 2.5.4 and the `..` event of section 2.8 of the Lua 5.1 Reference
      Manual have it. The answers are what the metamethods called along the way return. */
  function Pairwise(rules: Rules, values: seq<Value>, world: World, answers: seq<Answer>): Reduction
    requires values != []
    decreases |values|
  {
    var n := |values|;
    if n == 1 then
      Reduction([], Result(values[0]))
    else
      var left, right := values[n - 2], values[n - 1];
      if IsDirect(left) && IsDirect(right) then
        var joined := TextOf(rules, left) + TextOf(rules, right);
        if |joined| > MAX_LENGTH then Reduction([], Overflow)
        else Pairwise(rules, values[..n - 2] + [Text(joined)], world, answers)
      else
        var found := rules.binaryMetamethod(world, left, right);
        if found.None? then
          Reduction([], TypeError(if IsDirect(left) then n - 1 else n - 2))
        else
          var call := Call(found.value, left, right);
          if answers == [] then Reduction([call], Waiting)
          else
            var rest := Pairwise(rules, values[..n - 2] + [answers[0].result], answers[0].world, answers[1..]);
            Reduction([call] + rest.calls, rest.end)
  }

  /** Two operands: texts are joined from left to right; a metamethod is called with both in order; or else the error
      is about the left one, unless that is a string or a number. */
  lemma TwoOperands(rules: Rules, left: Value, right: Value, world: World)
    ensures left.Text? && right.Text? && |left.text| + |right.text| <= MAX_LENGTH ==>
      Pairwise(rules, [left, right], world, []) == Reduction([], Result(Text(left.text + right.text)))
    ensures left.Text? && right.Number? && |left.text| + |rules.format(right.bits)| <= MAX_LENGTH ==>
      Pairwise(rules, [left, right], world, []) == Reduction([], Result(Text(left.text + rules.format(right.bits))))
    ensures left.Number? && right.Number? && |rules.format(left.bits)| + |rules.format(right.bits)| <= MAX_LENGTH ==>
      Pairwise(rules, [left, right], world, []) == Reduction([], Result(Text(rules.format(left.bits) + rules.format(right.bits))))
    ensures (left.Object? || right.Object?) && rules.binaryMetamethod(world, left, right).Some? ==>
      Pairwise(rules, [left, right], world, []) == Reduction([Call(rules.binaryMetamethod(world, left, right).value, left, right)], Waiting)
    ensures (left.Object? || right.Object?) && rules.binaryMetamethod(world, left, right).None? ==>
      Pairwise(rules, [left, right], world, []) == Reduction([], TypeError(if left.Object? then 0 else 1))
  {
    assert [left, right][..0] == [];
    assert forall v: Value :: [] + [v] == [v];
  }

  // ----- runs of strings and numbers -----

  function Texts(rules: Rules, run: seq<Value>): string
    requires forall i :: 0 <= i < |run| ==> IsDirect(run[i])
  {
    if run == [] then "" else TextOf(rules, run[0]) + Texts(rules, run[1..])
  }

  predicate AllDirect(run: seq<Value>) {
    forall i :: 0 <= i < |run| ==> IsDirect(run[i])
  }

  /** Strings that exist are not too long, and numbers are written with a few characters. */
  predicate Fits(rules: Rules, v: Value) {
    IsDirect(v) ==> |TextOf(rules, v)| <= MAX_LENGTH
  }

  lemma {:induction false} TextsAppend(rules: Rules, run: seq<Value>, more: seq<Value>)
    requires AllDirect(run) && AllDirect(more)
    ensures AllDirect(run + more) && Texts(rules, run + more) == Texts(rules, run) + Texts(rules, more)
  {
    if run == [] {
      assert run + more == more;
    } else {
      TextsAppend(rules, run[1..], more);
      assert (run + more)[1..] == run[1..] + more;
      assert AllDirect(run + more);
    }
  }

  function Joined(rules: Rules, run: seq<Value>): string
    requires AllDirect(run) && |run| > 1
  {
    TextOf(rules, run[|run| - 2]) + TextOf(rules, run[|run| - 1])
  }

  lemma PairStep(rules: Rules, values: seq<Value>, world: World, answers: seq<Answer>)
    requires |values| > 1 && IsDirect(values[|values| - 2]) && IsDirect(values[|values| - 1])
    ensures var joined := TextOf(rules, values[|values| - 2]) + TextOf(rules, values[|values| - 1]);
      Pairwise(rules, values, world, answers) ==
      if |joined| > MAX_LENGTH then Reduction([], Overflow)
      else Pairwise(rules, values[..|values| - 2] + [Text(joined)], world, answers)
  {
  }

  lemma LastPair(rules: Rules, before: seq<Value>, run: seq<Value>, world: World, answers: seq<Answer>)
    requires AllDirect(run) && |run| > 1
    ensures Pairwise(rules, before + run, world, answers) ==
      if |Joined(rules, run)| > MAX_LENGTH then Reduction([], Overflow)
      else Pairwise(rules, before + (run[..|run| - 2] + [Text(Joined(rules, run))]), world, answers)
  {
    var n, values := |run|, before + run;
    assert values[|values| - 2] == run[n - 2] && values[|values| - 1] == run[n - 1];
    PairStep(rules, values, world, answers);
    assert values[..|values| - 2] + [Text(Joined(rules, run))] == before + (run[..n - 2] + [Text(Joined(rules, run))]);
  }

  lemma JoinedTexts(rules: Rules, run: seq<Value>)
    requires AllDirect(run) && |run| > 1
    ensures Texts(rules, run) == Texts(rules, run[..|run| - 2]) + Joined(rules, run)
    ensures AllDirect(run[..|run| - 2] + [Text(Joined(rules, run))])
    ensures Texts(rules, run[..|run| - 2] + [Text(Joined(rules, run))]) == Texts(rules, run)
  {
    var n := |run|;
    assert run == run[..n - 2] + ([run[n - 2]] + [run[n - 1]]);
    Single(rules, run[n - 2]);
    Single(rules, run[n - 1]);
    Single(rules, Text(Joined(rules, run)));
    TextsAppend(rules, [run[n - 2]], [run[n - 1]]);
    TextsAppend(rules, run[..n - 2], [run[n - 2]] + [run[n - 1]]);
    TextsAppend(rules, run[..n - 2], [Text(Joined(rules, run))]);
  }

  lemma Single(rules: Rules, v: Value)
    requires IsDirect(v)
    ensures Texts(rules, [v]) == TextOf(rules, v)
  {
    assert [v][1..] == [];
  }

  /** Collapsing a run of two or more at once is what the pairs come to, whatever follows. */
  lemma {:induction false} Collapse(rules: Rules, before: seq<Value>, run: seq<Value>, world: World, answers: seq<Answer>)
    requires AllDirect(run) && |run| > 1
    ensures |Texts(rules, run)| <= MAX_LENGTH ==>
      Pairwise(rules, before + run, world, answers) == Pairwise(rules, before + [Text(Texts(rules, run))], world, answers)
    ensures |Texts(rules, run)| > MAX_LENGTH ==> Pairwise(rules, before + run, world, answers) == Reduction([], Overflow)
    decreases |run|
  {
    LastPair(rules, before, run, world, answers);
    JoinedTexts(rules, run);
    var shorter := run[..|run| - 2] + [Text(Joined(rules, run))];
    if |run| > 2 {
      Collapse(rules, before, shorter, world, answers);
    } else {
      assert run[..0] == [] && Texts(rules, []) == "";
      assert "" + Joined(rules, run) == Joined(rules, run);
      assert shorter == [Text(Texts(rules, run))];
    }
  }

  lemma TextsPrefix(rules: Rules, run: seq<Value>, i: nat)
    requires AllDirect(run) && i < |run|
    ensures Texts(rules, run[..i + 1]) == Texts(rules, run[..i]) + TextOf(rules, run[i])
    ensures |Texts(rules, run[..i + 1])| <= |Texts(rules, run)|
  {
    assert run[..i + 1] == run[..i] + [run[i]] && run == run[..i + 1] + run[i + 1..];
    Single(rules, run[i]);
    TextsAppend(rules, run[..i], [run[i]]);
    TextsAppend(rules, run[..i + 1], run[i + 1..]);
  }

  /** When no number takes part and one string at most has any text, that string is the result. */
  method OnlyText(rules: Rules, run: seq<Value>) returns (found: bool, r: Value)
    requires AllDirect(run) && run != []
    ensures found ==> r.Text? && r.text == Texts(rules, run) && r in run
  {
    var only := -1;
    var index := 0;
    while index < |run|
      invariant 0 <= index <= |run| && -1 <= only < index
      invariant forall i :: 0 <= i < index ==> run[i].Text?
      invariant Texts(rules, run[..index]) == if only < 0 then "" else run[only].text
    {
      TextsPrefix(rules, run, index);
      if !run[index].Text? {
        return false, run[0];
      }
      if |run[index].text| != 0 {
        if only >= 0 {
          return false, run[0];
        }
        only := index;
      }
      index := index + 1;
    }
    assert run[..|run|] == run;
    if only >= 0 {
      return true, run[only];
    }
    TextsPrefix(rules, run, 0);
    return true, run[0];
  }

  /** The texts of a run in one string, unless that is too long. */
  method ConcatDirectValues(rules: Rules, run: seq<Value>) returns (r: Value, overflow: bool)
    requires AllDirect(run) && run != [] && forall i :: 0 <= i < |run| ==> Fits(rules, run[i])
    ensures overflow <==> |Texts(rules, run)| > MAX_LENGTH
    ensures !overflow ==> r == Text(Texts(rules, run))
  {
    var found;
    found, r := OnlyText(rules, run);
    if found {
      return r, false;
    }
    var total, index := 0, 0;
    while index < |run|
      invariant 0 <= index <= |run| && total == |Texts(rules, run[..index])| <= MAX_LENGTH
    {
      TextsPrefix(rules, run, index);
      var length := |TextOf(rules, run[index])|;
      if length > MAX_LENGTH - total {
        return run[0], true;
      }
      total := total + length;
      index := index + 1;
    }
    var builder := "";
    index := 0;
    while index < |run|
      invariant 0 <= index <= |run| && builder == Texts(rules, run[..index])
    {
      TextsPrefix(rules, run, index);
      builder := builder + TextOf(rules, run[index]);
      index := index + 1;
    }
    assert run[..|run|] == run;
    return Text(builder), false;
  }

  // ----- the instruction -----

  /** Registers of CONCAT: the result goes to `destination`, the operands still to do are first..last. After a
      metamethod call its result takes the place of the last operand. */
  datatype Code = Code(destination: nat, first: nat, last: nat)

  datatype Step = Finished | Suspended(call: Call) | Failed(end: End)

  predicate SameAt(rules: Rules, values: seq<Value>, values': seq<Value>, world: World, answers: seq<Answer>)
    requires values != [] && values' != []
  {
    Pairwise(rules, values, world, answers) == Pairwise(rules, values', world, answers)
  }

  /** Two lists of operands come to the same, whatever the metamethods return. */
  ghost predicate SameReduction(rules: Rules, values: seq<Value>, values': seq<Value>, world: World) {
    values != [] && values' != [] &&
    forall answers {:trigger SameAt(rules, values, values', world, answers)} :: SameAt(rules, values, values', world, answers)
  }

  predicate SuspendsAt(rules: Rules, values: seq<Value>, world: World, call: Call, before: seq<Value>, answers: seq<Answer>)
    requires values != []
  {
    if answers == [] then Pairwise(rules, values, world, []) == Reduction([call], Waiting)
    else
      var rest := Pairwise(rules, before + [answers[0].result], answers[0].world, answers[1..]);
      Pairwise(rules, values, world, answers) == Reduction([call] + rest.calls, rest.end)
  }

  /** The reduction calls a metamethod and goes on with its result in place of the last pair. */
  ghost predicate Suspends(rules: Rules, values: seq<Value>, world: World, call: Call, before: seq<Value>) {
    values != [] && forall answers {:trigger SuspendsAt(rules, values, world, call, before, answers)} ::
      SuspendsAt(rules, values, world, call, before, answers)
  }

  predicate EndsAt(rules: Rules, values: seq<Value>, world: World, end: End, answers: seq<Answer>)
    requires values != []
  {
    Pairwise(rules, values, world, answers) == Reduction([], end)
  }

  /** The reduction ends without a call. */
  ghost predicate Ends(rules: Rules, values: seq<Value>, world: World, end: End) {
    values != [] && forall answers {:trigger EndsAt(rules, values, world, end, answers)} :: EndsAt(rules, values, world, end, answers)
  }

  /** What the first step of a reduction tells about the rest. */
  ghost predicate StepMeans(rules: Rules, values: seq<Value>, world: World, step: Step, before: seq<Value>, result: Value) {
    if step.Finished? then Ends(rules, values, world, Result(result))
    else if step.Failed? then (step.end.TypeError? || step.end.Overflow?) && Ends(rules, values, world, step.end)
    else Suspends(rules, values, world, step.call, before)
  }

  lemma SameStep(rules: Rules, values: seq<Value>, values': seq<Value>, world: World, step: Step, before: seq<Value>, result: Value)
    requires SameReduction(rules, values, values', world) && StepMeans(rules, values', world, step, before, result)
    ensures StepMeans(rules, values, world, step, before, result)
  {
    forall answers: seq<Answer>
      ensures step.Finished? ==> EndsAt(rules, values, world, Result(result), answers)
      ensures step.Failed? ==> EndsAt(rules, values, world, step.end, answers)
      ensures step.Suspended? ==> SuspendsAt(rules, values, world, step.call, before, answers)
    {
      assert SameAt(rules, values, values', world, answers);
      assert step.Finished? ==> EndsAt(rules, values', world, Result(result), answers);
      assert step.Failed? ==> EndsAt(rules, values', world, step.end, answers);
      assert step.Suspended? ==> SuspendsAt(rules, values', world, step.call, before, answers);
    }
  }

  lemma CollapsedSame(rules: Rules, before: seq<Value>, run: seq<Value>, world: World)
    requires AllDirect(run) && |run| > 1
    ensures |Texts(rules, run)| <= MAX_LENGTH ==> SameReduction(rules, before + run, before + [Text(Texts(rules, run))], world)
    ensures |Texts(rules, run)| > MAX_LENGTH ==> Ends(rules, before + run, world, Overflow)
  {
    forall answers: seq<Answer>
      ensures |Texts(rules, run)| <= MAX_LENGTH ==> SameAt(rules, before + run, before + [Text(Texts(rules, run))], world, answers)
      ensures |Texts(rules, run)| > MAX_LENGTH ==> EndsAt(rules, before + run, world, Overflow, answers)
    {
      Collapse(rules, before, run, world, answers);
    }
  }
}
