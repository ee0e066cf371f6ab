/** The resumable CONCAT instruction on a thread's registers. */
module ConcatInstruction {
  import opened Wrappers
  import opened PairwiseConcat

  lemma EndsNow(rules: Rules, values: seq<Value>, world: World)
    requires |values| == 1
    ensures Ends(rules, values, world, Result(values[0]))
  {
  }

  lemma NoMethod(rules: Rules, values: seq<Value>, world: World)
    requires |values| > 1 && !(IsDirect(values[|values| - 2]) && IsDirect(values[|values| - 1]))
    requires rules.binaryMetamethod(world, values[|values| - 2], values[|values| - 1]).None?
    ensures Ends(rules, values, world, TypeError(if IsDirect(values[|values| - 2]) then |values| - 1 else |values| - 2))
  {
  }

  lemma CallsMethod(rules: Rules, values: seq<Value>, world: World)
    requires |values| > 1 && !(IsDirect(values[|values| - 2]) && IsDirect(values[|values| - 1]))
    requires rules.binaryMetamethod(world, values[|values| - 2], values[|values| - 1]).Some?
    ensures var left, right := values[|values| - 2], values[|values| - 1];
      Suspends(rules, values, world, Call(rules.binaryMetamethod(world, left, right).value, left, right), values[..|values| - 2])
  {
  }

  lemma SameTransitive(rules: Rules, values: seq<Value>, values': seq<Value>, values'': seq<Value>, world: World)
    requires SameReduction(rules, values, values', world) && SameReduction(rules, values', values'', world)
    ensures SameReduction(rules, values, values'', world)
  {
    forall answers: seq<Answer> ensures SameAt(rules, values, values'', world, answers) {
      assert SameAt(rules, values, values', world, answers) && SameAt(rules, values', values'', world, answers);
    }
  }

  predicate AllFit(rules: Rules, values: seq<Value>) {
    forall i :: 0 <= i < |values| ==> Fits(rules, values[i])
  }

  class ConcatThread {
    const rules: Rules
    const base: nat
    const values: array<Value>
    var world: World
    var continuations: seq<Code>

    constructor (rules: Rules, base: nat, values: array<Value>, world: World)
      ensures this.rules == rules && this.base == base && this.values == values && this.world == world && continuations == []
    {
      this.rules, this.base, this.values, this.world, continuations := rules, base, values, world, [];
    }

    predicate InFrame(code: Code)
    {
      code.first <= code.last && base + code.last < values.Length && base + code.destination < values.Length
    }

    /** The registers first..last. */
    ghost function Operands(first: nat, last: nat): (r: seq<Value>)
      requires first <= last && base + last < values.Length
      reads values
      ensures |r| == last - first + 1
    {
      values[base + first..base + last + 1]
    }

    /** Where the run of strings and numbers that ends at `last` starts. */
    method RunStart(first: nat, last: nat) returns (start: nat)
      requires first < last && base + last < values.Length
      requires IsDirect(values[base + last - 1]) && IsDirect(values[base + last])
      ensures first <= start < last && AllDirect(values[base + start..base + last + 1])
      ensures start == first || !IsDirect(values[base + start - 1])
    {
      start := last - 1;
      while start > first && IsDirect(values[base + start - 1])
        invariant first <= start < last
        invariant forall i :: base + start <= i <= base + last ==> IsDirect(values[i])
      {
        start := start - 1;
      }
    }

    /** One run of operands becomes one. */
    method CollapseRun(first: nat, last: nat) returns (overflow: bool, start: nat)
      requires first < last && base + last < values.Length && AllFit(rules, Operands(first, last))
      requires IsDirect(values[base + last - 1]) && IsDirect(values[base + last])
      modifies values
      ensures first <= start < last
      ensures overflow ==> Ends(rules, old(Operands(first, last)), world, Overflow)
      ensures !overflow ==> SameReduction(rules, old(Operands(first, last)), Operands(first, start), world)
      ensures !overflow ==> AllFit(rules, Operands(first, start))
      ensures forall i :: 0 <= i < values.Length && i != base + start ==> values[i] == old(values[i])
    {
      start := RunStart(first, last);
      ghost var operands, before := Operands(first, last), values[base + first..base + start];
      var run := values[base + start..base + last + 1];
      assert operands == before + run;
      CollapsedSame(rules, before, run, world);
      forall i | 0 <= i < |run| ensures Fits(rules, run[i]) { assert run[i] == operands[start - first + i]; }
      var r;
      r, overflow := ConcatDirectValues(rules, run);
      if !overflow {
        values[base + start] := r;
        assert Operands(first, start) == before + [r];
        forall i | 0 <= i < |before| ensures Fits(rules, before[i]) { assert before[i] == operands[i]; }
      }
    }

    /** Reduces the operands from the right until one is left, a metamethod has to be called or the operands do not
        fit. What it does first is what the pairs from the right come to first. */
    method SlowConcat(code: Code) returns (step: Step)
      requires InFrame(code) && AllFit(rules, Operands(code.first, code.last))
      modifies values, this`continuations
      ensures !step.Suspended? ==> continuations == old(continuations)
      ensures !step.Suspended? ==> StepMeans(rules, old(Operands(code.first, code.last)), world, step, [],
        values[base + code.destination])
      ensures step.Suspended? ==> |continuations| == |old(continuations)| + 1 && continuations[..|old(continuations)|] == old(continuations)
      ensures step.Suspended? ==> Awaiting(old(Operands(code.first, code.last)), step, code.destination, code.first)
      ensures forall i :: 0 <= i < values.Length && !(base + code.first <= i <= base + code.last) && i != base + code.destination ==>
        values[i] == old(values[i])
    {
      var first, last := code.first, code.last;
      ghost var operands := Operands(first, last);
      while last > first
        invariant first <= last <= code.last
        invariant SameReduction(rules, operands, Operands(first, last), world) && AllFit(rules, Operands(first, last))
        invariant forall i :: 0 <= i < values.Length && !(base + code.first <= i <= base + code.last) ==> values[i] == old(values[i])
        invariant continuations == old(continuations)
      {
        ghost var current := Operands(first, last);
        if IsDirect(values[base + last - 1]) && IsDirect(values[base + last]) {
          var overflow, start := CollapseRun(first, last);
          if overflow {
            step := Failed(Overflow);
            SameStep(rules, operands, current, world, step, [], values[base + code.destination]);
            return;
          }
          SameTransitive(rules, operands, current, Operands(first, start), world);
          last := start;
          continue;
        }
        step := StartMetamethod(code.destination, first, last);
        ghost var before := values[base + first..base + last - 1];
        SameStep(rules, operands, current, world, step, before, values[base + code.destination]);
        return;
      }
      EndsNow(rules, Operands(first, last), world);
      assert Operands(first, last) == [values[base + first]];
      values[base + code.destination] := values[base + first];
      step := Finished;
      SameStep(rules, operands, [values[base + code.destination]], world, step, [], values[base + code.destination]);
    }

    /** The last pair has a metamethod, whose result is to be put where the pair's left operand is, or fails. */
    method StartMetamethod(destination: nat, first: nat, last: nat) returns (step: Step)
      requires first < last && base + last < values.Length && base + destination < values.Length && AllFit(rules, Operands(first, last))
      requires !(IsDirect(values[base + last - 1]) && IsDirect(values[base + last]))
      modifies this`continuations
      ensures step.Failed? ==> step.end.TypeError? && Ends(rules, Operands(first, last), world, step.end) && continuations == old(continuations)
      ensures step.Suspended? ==> continuations == old(continuations) + [Code(destination, first, last - 1)]
      ensures step.Suspended? ==> Suspends(rules, Operands(first, last), world, step.call, values[base + first..base + last - 1])
      ensures !step.Finished? && AllFit(rules, values[base + first..base + last - 1])
    {
      var left, right := values[base + last - 1], values[base + last];
      ghost var current, before := Operands(first, last), values[base + first..base + last - 1];
      assert current[|current| - 2] == left && current[|current| - 1] == right && before == current[..|current| - 2];
      var found := rules.binaryMetamethod(world, left, right);
      if found.None? {
        NoMethod(rules, current, world);
        return Failed(TypeError((if IsDirect(left) then last else last - 1) - first));
      }
      CallsMethod(rules, current, world);
      continuations := continuations + [Code(destination, first, last - 1)];
      return Suspended(Call(found.value, left, right));
    }

    /** The continuation on top says where the result of the call goes: after the operands that are left. */
    ghost predicate Awaiting(operands: seq<Value>, step: Step, destination: nat, first: nat)
      reads this, values
    {
      continuations != [] && step.Suspended? &&
      var resume := continuations[|continuations| - 1];
      InFrame(resume) && resume.destination == destination && resume.first == first &&
      Suspends(rules, operands, world, step.call, values[base + resume.first..base + resume.last]) &&
      AllFit(rules, values[base + resume.first..base + resume.last])
    }

    /** Puts the result of a metamethod call in its place and goes on with the instruction. */
    method ResumeConcat(result: Value) returns (step: Step, ghost operands: seq<Value>)
      requires continuations != [] && Fits(rules, result) && var resume := continuations[|continuations| - 1];
        InFrame(resume) && AllFit(rules, values[base + resume.first..base + resume.last])
      modifies values, this`continuations
      ensures var resume := old(continuations[|continuations| - 1]);
        operands == old(values[base + resume.first..base + resume.last]) + [result]
      ensures var stack, resume := old(continuations[..|continuations| - 1]), old(continuations[|continuations| - 1]);
        if step.Suspended? then
          |continuations| == |stack| + 1 && continuations[..|stack|] == stack && Awaiting(operands, step, resume.destination, resume.first)
        else
          continuations == stack && StepMeans(rules, operands, world, step, [], values[base + resume.destination])
      ensures var resume := old(continuations[|continuations| - 1]);
        forall i :: 0 <= i < values.Length && !(base + resume.first <= i <= base + resume.last) && i != base + resume.destination ==>
          values[i] == old(values[i])
    {
      var resume := continuations[|continuations| - 1];
      continuations := continuations[..|continuations| - 1];
      operands := values[base + resume.first..base + resume.last] + [result];
      forall i | 0 <= i < |operands| ensures Fits(rules, operands[i]) {
        if i < resume.last - resume.first { assert operands[i] == values[base + resume.first..base + resume.last][i]; }
      }
      values[base + resume.last] := result;
      assert Operands(resume.first, resume.last) == operands;
      step := SlowConcat(resume);
    }

    /** What a called metamethod may do to the frame: it can reach any register but the operands below the pair. */
    method Disturb(registers: seq<Value>, from: nat, to: nat)
      requires from <= to <= values.Length
      modifies values
      ensures values[from..to] == old(values[from..to])
    {
      var i := 0;
      while i < values.Length && i < |registers|
        invariant 0 <= i <= values.Length
        invariant values[from..to] == old(values[from..to])
      {
        if !(from <= i < to) {
          values[i] := registers[i];
        }
        i := i + 1;
      }
    }

    lemma AnswerTaken(first: seq<Value>, w0: World, answers: seq<Answer>, calls: seq<Call>, current: seq<Value>, w: World, left: seq<Answer>,
                      call: Call, before: seq<Value>)
      requires first != [] && current != [] && left != []
      requires Pairwise(rules, first, w0, answers) ==
        Reduction(calls + Pairwise(rules, current, w, left).calls, Pairwise(rules, current, w, left).end)
      requires Suspends(rules, current, w, call, before)
      ensures Pairwise(rules, first, w0, answers) ==
        Reduction(calls + [call] + Pairwise(rules, before + [left[0].result], left[0].world, left[1..]).calls,
                  Pairwise(rules, before + [left[0].result], left[0].world, left[1..]).end)
    {
      assert SuspendsAt(rules, current, w, call, before, left);
    }

    lemma StepEnds(current: seq<Value>, w: World, left: seq<Answer>, step: Step, result: Value)
      requires current != []
      requires !step.Suspended? ==> StepMeans(rules, current, w, step, [], result)
      requires step.Suspended? ==> left == [] && exists before :: Suspends(rules, current, w, step.call, before)
      ensures Pairwise(rules, current, w, left) ==
        if step.Suspended? then Reduction([step.call], Waiting)
        else Reduction([], if step.Finished? then Result(result) else step.end)
    {
      if step.Suspended? {
        var before :| Suspends(rules, current, w, step.call, before);
        assert SuspendsAt(rules, current, w, step.call, before, left);
      } else {
        assert step.Finished? ==> EndsAt(rules, current, w, Result(result), left);
        assert step.Failed? ==> EndsAt(rules, current, w, step.end, left);
      }
    }

    /** How things stand after a step: the continuations are those from before the instruction, under one more while it
        is suspended. */
    ghost predicate Stands(stack: seq<Code>, operands: seq<Value>, step: Step, destination: nat, first: nat)
      reads this, values
    {
      base + destination < values.Length && operands != [] &&
      if step.Suspended? then
        |continuations| == |stack| + 1 && continuations[..|stack|] == stack && Awaiting(operands, step, destination, first)
      else
        continuations == stack && StepMeans(rules, operands, world, step, [], values[base + destination])
    }

    /** The called metamethod returns. */
    method TakeAnswer(answer: Answer, ghost stack: seq<Code>, ghost operands: seq<Value>, step0: Step, ghost destination: nat, ghost first: nat)
      returns (step: Step, ghost operands': seq<Value>, ghost before: seq<Value>)
      requires step0.Suspended? && Stands(stack, operands, step0, destination, first) && Fits(rules, answer.result)
      modifies values, this`world, this`continuations
      ensures world == answer.world && Stands(stack, operands', step, destination, first)
      ensures Suspends(rules, operands, old(world), step0.call, before) && operands' == before + [answer.result]
    {
      var resume := continuations[|continuations| - 1];
      before := values[base + resume.first..base + resume.last];
      Disturb(answer.registers, base + resume.first, base + resume.last);
      world := answer.world;
      step, operands' := ResumeConcat(answer.result);
    }

    /** The instruction with all its suspensions: it makes the calls that the pairs from the right make, in that
        order, and comes to the same end, whatever the calls return and change. */
    method RunConcat(code: Code, answers: seq<Answer>) returns (calls: seq<Call>, end: End)
      requires InFrame(code) && AllFit(rules, Operands(code.first, code.last))
      requires forall i :: 0 <= i < |answers| ==> Fits(rules, answers[i].result)
      modifies values, this`world, this`continuations
      ensures Reduction(calls, end) == Pairwise(rules, old(Operands(code.first, code.last)), old(world), answers)
      ensures end.Result? ==> values[base + code.destination] == end.value
      ensures !end.Waiting? ==> continuations == old(continuations)
    {
      ghost var first, w0 := Operands(code.first, code.last), world;
      ghost var current := first;
      var left := answers;
      calls := [];
      var step := SlowConcat(code);
      while step.Suspended? && left != []
        invariant Stands(old(continuations), current, step, code.destination, code.first)
        invariant forall i :: 0 <= i < |left| ==> Fits(rules, left[i].result)
        invariant Pairwise(rules, first, w0, answers) ==
          Reduction(calls + Pairwise(rules, current, world, left).calls, Pairwise(rules, current, world, left).end)
        decreases |left|
      {
        ghost var call, w, operands, before := step.call, world, current, [];
        calls := calls + [step.call];
        step, current, before := TakeAnswer(left[0], old(continuations), operands, step, code.destination, code.first);
        AnswerTaken(first, w0, answers, calls[..|calls| - 1], operands, w, left, call, before);
        left := left[1..];
      }
      StepEnds(current, world, left, step, values[base + code.destination]);
      if step.Suspended? {
        return calls + [step.call], Waiting;
      }
      end := if step.Finished? then Result(values[base + code.destination]) else step.end;
    }
  }
}
