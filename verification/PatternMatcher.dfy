/** The backtracking matcher: captures are written in place and undone when a branch fails, and
    genuine recursion is bounded. */
module PatternMatcher {
  import opened PatternSpec
  import opened PatternOrder
  import PatternLaws

  const NO_MATCH: int := -1
  const FAILED: int := -2
  const TOO_COMPLEX := "pattern too complex"

  lemma {:induction false} LongestShifts(src: Bytes, pat: Bytes, s: nat, next: nat, caps: seq<Capture>, k: nat)
    requires s + k <= |src| && k >= 1 && next <= |pat| && CapturesWithin(caps, s)
    ensures Longest(src, pat, s, next, caps, k, 1) == Longest(src, pat, s + 1, next, Weakened(caps, s, s + 1), k - 1, 0)
  {
    if k > 1 {
      LongestShifts(src, pat, s, next, caps, k - 1);
    }
  }

  /** What an item with each quantifier leaves to match, in order. */
  lemma OnceOutcomes(src: Bytes, pat: Bytes, s: nat, p: nat, caps: seq<Capture>, classEnd: nat)
    requires s <= |src| && p <= |pat| && CapturesWithin(caps, s) && ItemAt(pat, p) == Single(p, classEnd, Once, classEnd)
    ensures Outcomes(src, pat, s, p, caps) ==
      if s < |src| && SingleMatch(pat, p, classEnd, src[s]) then Outcomes(src, pat, s + 1, classEnd, Weakened(caps, s, s + 1)) else []
  {
  }

  lemma OptionalOutcomes(src: Bytes, pat: Bytes, s: nat, p: nat, caps: seq<Capture>, classEnd: nat)
    requires s <= |src| && p <= |pat| && CapturesWithin(caps, s) && ItemAt(pat, p) == Single(p, classEnd, Optional, classEnd + 1)
    ensures Outcomes(src, pat, s, p, caps) ==
      (if s < |src| && SingleMatch(pat, p, classEnd, src[s]) then Outcomes(src, pat, s + 1, classEnd + 1, Weakened(caps, s, s + 1)) else []) +
      Outcomes(src, pat, s, classEnd + 1, caps)
  {
    assert Longest(src, pat, s, classEnd + 1, caps, 0, 0) == Outcomes(src, pat, s, classEnd + 1, caps) by {
      assert Weakened(caps, s, s) == caps;
    }
    var longest := LongestRun(src, pat, s, p, classEnd);
    assert Outcomes(src, pat, s, p, caps) == Longest(src, pat, s, classEnd + 1, caps, if longest >= 1 then 1 else 0, 0);
  }

  lemma PlusOutcomes(src: Bytes, pat: Bytes, s: nat, p: nat, caps: seq<Capture>, classEnd: nat)
    requires s <= |src| && p <= |pat| && CapturesWithin(caps, s) && ItemAt(pat, p) == Single(p, classEnd, Greedy(1), classEnd + 1)
    ensures Outcomes(src, pat, s, p, caps) ==
      if s < |src| && SingleMatch(pat, p, classEnd, src[s]) then
        Longest(src, pat, s + 1, classEnd + 1, Weakened(caps, s, s + 1), LongestRun(src, pat, s + 1, p, classEnd), 0)
      else []
  {
    assert Outcomes(src, pat, s, p, caps) == Repetitions(src, pat, s, caps, p, classEnd, Greedy(1), classEnd + 1);
    PlusRepetitions(src, pat, s, caps, p, classEnd, classEnd + 1);
  }

  lemma PlusRepetitions(src: Bytes, pat: Bytes, s: nat, caps: seq<Capture>, start: nat, end: nat, next: nat)
    requires s <= |src| && next <= |pat| && CapturesWithin(caps, s) && end > 0
    ensures Repetitions(src, pat, s, caps, start, end, Greedy(1), next) ==
      if s < |src| && SingleMatch(pat, start, end, src[s]) then
        Longest(src, pat, s + 1, next, Weakened(caps, s, s + 1), LongestRun(src, pat, s + 1, start, end), 0)
      else []
  {
    var longest := LongestRun(src, pat, s, start, end);
    if longest >= 1 {
      assert longest - 1 == LongestRun(src, pat, s + 1, start, end);
      LongestShifts(src, pat, s, next, caps, longest);
    }
  }

  lemma LongestSplits(src: Bytes, pat: Bytes, s: nat, next: nat, caps: seq<Capture>, k: nat)
    requires s + k <= |src| && next <= |pat| && CapturesWithin(caps, s)
    ensures Longest(src, pat, s, next, caps, k, 0) ==
      Outcomes(src, pat, s + k, next, Weakened(caps, s, s + k)) + LongestBelow(src, pat, s, next, caps, k)
  {
  }

  /** What is left to try after `k` repetitions failed. */
  function LongestBelow(src: Bytes, pat: Bytes, s: nat, next: nat, caps: seq<Capture>, k: nat): seq<Outcome>
    requires s <= |src| && s + k <= |src| + 1 && next <= |pat| && CapturesWithin(caps, s)
  {
    if k == 0 then [] else Longest(src, pat, s, next, caps, k - 1, 0)
  }

  // ----- what a search decides -----

  /** `r` is the first matching in backtracking order from `s`, with nothing that fails before it. */
  predicate FirstMatch(src: Bytes, pat: Bytes, s: nat, r: Matching)
    requires s <= |src|
  {
    var all := Outcomes(src, pat, s, 0, []);
    all != [] && all[0] == Outcome.Match(r)
  }

  predicate NoOutcome(src: Bytes, pat: Bytes, s: nat) {
    s <= |src| && Outcomes(src, pat, s, 0, []) == []
  }

  /** No matching can be derived from `s`. */
  ghost predicate NoneFrom(src: Bytes, pat: Bytes, s: nat)
    requires s <= |src|
  {
    forall r :: !Derives(src, pat, s, 0, [], r)
  }

  /** What the search reports is what the relation says: a reported match is derivable, and over a
      well-formed pattern "no match" means that none is. */
  lemma SearchDecides(src: Bytes, pat: Bytes, s: nat)
    requires s <= |src|
    ensures forall r :: FirstMatch(src, pat, s, r) ==> Derives(src, pat, s, 0, [], r)
    ensures NoOutcome(src, pat, s) ==> NoneFrom(src, pat, s)
    ensures WellFormed(pat, 0, []) ==>
      (NoOutcome(src, pat, s) <==> NoneFrom(src, pat, s)) &&
      ((exists r :: Derives(src, pat, s, 0, [], r)) <==> exists r :: FirstMatch(src, pat, s, r))
  {
    var all := Outcomes(src, pat, s, 0, []);
    forall r ensures Outcome.Match(r) in all <==> Derives(src, pat, s, 0, [], r) {
      Complete(src, pat, s, 0, [], r);
    }
    if WellFormed(pat, 0, []) && all != [] {
      assert Pending([]) == [];
      WellFormedNeverFails(src, pat, s, 0, []);
      assert FirstMatch(src, pat, s, all[0].matching);
    }
  }

  lemma FailureMeansMalformed(src: Bytes, pat: Bytes, s: nat)
    requires s <= |src|
    ensures WellFormed(pat, 0, []) ==> NoFailure(Outcomes(src, pat, s, 0, []))
  {
    if WellFormed(pat, 0, []) {
      assert Pending([]) == [];
      WellFormedNeverFails(src, pat, s, 0, []);
    }
  }

  class MatchState {
    const source: Bytes
    const pattern: Bytes
    const captures: array<Capture>
    var level: nat
    var depth: nat
    var failure: string

    ghost predicate Valid()
      reads this
    {
      captures.Length == MAX_CAPTURES && level <= MAX_CAPTURES
    }

    /** The captures begun so far. */
    ghost function Captured(): seq<Capture>
      reads this, captures
      requires Valid()
    {
      captures[..level]
    }

    /** A search may go on from here: nothing failed, and nesting does not exceed the pattern consumed. */
    ghost predicate Ready(s: nat, p: nat)
      reads this, captures
    {
      Valid() && failure == "" && s <= |source| && p <= |pattern| && CapturesWithin(Captured(), s)
    }

    /** `result` reports the first of the outcomes, or that there is none.  The depth limit can only be
        hit by a pattern of at least MAX_DEPTH bytes. */
    ghost predicate Reports(outcomes: seq<Outcome>, result: int)
      reads this, captures
    {
      Valid() &&
      if result >= 0 then failure == "" && outcomes != [] && outcomes[0] == Outcome.Match(Matching(result, Captured()))
      else if result == NO_MATCH then failure == "" && outcomes == []
      else result == FAILED &&
           failure != "" && ((outcomes != [] && outcomes[0] == Failure(failure)) || (failure == TOO_COMPLEX && |pattern| >= MAX_DEPTH))
    }

    /** Branches tried in order: the first to report anything decides. */
    lemma ReportsFirst(first: seq<Outcome>, rest: seq<Outcome>, result: int)
      requires Reports(first, result)
      ensures result != NO_MATCH ==> Reports(first + rest, result)
      ensures result == NO_MATCH ==> first + rest == rest
    {
    }

    lemma OptionalReports(caps: seq<Capture>, s: nat, p: nat, classEnd: nat, result: int)
      requires s <= |source| && p <= |pattern| && CapturesWithin(caps, s) && ItemAt(pattern, p) == Single(p, classEnd, Optional, classEnd + 1)
      requires if s < |source| && SingleMatch(pattern, p, classEnd, source[s])
               then Reports(Outcomes(source, pattern, s + 1, classEnd + 1, Weakened(caps, s, s + 1)), result)
               else result == NO_MATCH
      ensures result != NO_MATCH ==> Reports(Outcomes(source, pattern, s, p, caps), result)
      ensures result == NO_MATCH ==> Outcomes(source, pattern, s, p, caps) == Outcomes(source, pattern, s, classEnd + 1, caps)
    {
      OptionalOutcomes(source, pattern, s, p, caps, classEnd);
      var rest := Outcomes(source, pattern, s, classEnd + 1, caps);
      if s < |source| && SingleMatch(pattern, p, classEnd, source[s]) {
        ReportsFirst(Outcomes(source, pattern, s + 1, classEnd + 1, Weakened(caps, s, s + 1)), rest, result);
      } else {
        assert [] + rest == rest;
      }
    }

    constructor (source: Bytes, pattern: Bytes)
      ensures Valid() && this.source == source && this.pattern == pattern && fresh(captures)
      ensures level == depth == 0 && failure == ""
    {
      this.source, this.pattern := source, pattern;
      captures := new Capture[MAX_CAPTURES](_ => Capture(0, 0));
      level, depth, failure := 0, 0, "";
    }

    method Fail(message: string) returns (result: int)
      requires failure == ""
      modifies this`failure
      ensures result == FAILED && failure == message
    {
      if failure == "" {
        failure := message;
      }
      result := FAILED;
    }

    method ClassEndAt(start: nat) returns (result: int)
      requires start < |pattern| && failure == ""
      modifies this`failure
      ensures match ClassEnd(pattern, start)
        case Found(pos) => result == pos && failure == ""
        case Bad(message) => result == FAILED && failure == message
    {
      var character := pattern[start];
      var p := start + 1;
      if character == ESCAPE {
        if At(pattern, p) == 0 {
          result := Fail("malformed pattern (ends with '%')");
          return;
        }
        return p + 1;
      }
      if character == 91 {
        if At(pattern, p) == 94 {
          p := p + 1;
        }
        while true
          invariant start < p && failure == "" && SetEnd(pattern, p) == ClassEnd(pattern, start)
          decreases |pattern| - p
        {
          if At(pattern, p) == 0 {
            result := Fail("malformed pattern (missing ']')");
            return;
          }
          var current := At(pattern, p);
          p := p + 1;
          if current == ESCAPE && At(pattern, p) != 0 {
            p := p + 1;
          }
          if At(pattern, p) == 93 {
            return p + 1;
          }
        }
      }
      result := p;
    }

    method MatchBracketClass(c: Byte, start: nat, classEnd: nat) returns (matched: bool)
      ensures matched == BracketMatch(pattern, start, classEnd, c)
    {
      var sign := true;
      var p := start;
      if At(pattern, p + 1) == 94 {
        sign := false;
        p := p + 1;
      }
      p := p + 1;
      while p < classEnd
        invariant BracketMatch(pattern, start, classEnd, c) == (sign == SetHas(pattern, p, classEnd, c))
        decreases classEnd - p
      {
        if At(pattern, p) == ESCAPE {
          p := p + 1;
          if MatchClass(c, At(pattern, p)) {
            return sign;
          }
        } else if At(pattern, p + 1) == 45 && p + 2 < classEnd {
          p := p + 2;
          if At(pattern, p - 2) <= c <= At(pattern, p) {
            return sign;
          }
        } else if At(pattern, p) == c {
          return sign;
        }
        p := p + 1;
      }
      matched := !sign;
    }

    method MatchSingle(c: Byte, p: nat, classEnd: nat) returns (matched: bool)
      requires classEnd > 0
      ensures matched == SingleMatch(pattern, p, classEnd, c)
    {
      if At(pattern, p) == 46 {
        matched := true;
      } else if At(pattern, p) == ESCAPE {
        matched := MatchClass(c, At(pattern, p + 1));
      } else if At(pattern, p) == 91 {
        matched := MatchBracketClass(c, p, classEnd - 1);
      } else {
        matched := At(pattern, p) == c;
      }
    }

    method MatchBalance(start: nat, p: nat) returns (result: int)
      requires start <= |source| && failure == ""
      modifies this`failure
      ensures if At(pattern, p) == 0 || At(pattern, p + 1) == 0 then result == FAILED && failure == "unbalanced pattern"
              else result == Balanced(source, start, At(pattern, p), At(pattern, p + 1)) && failure == ""
    {
      var open, closing := At(pattern, p), At(pattern, p + 1);
      if open == 0 || closing == 0 {
        result := Fail("unbalanced pattern");
        return;
      }
      if At(source, start) != open {
        return NO_MATCH;
      }
      var balance := 1;
      var s := start + 1;
      while s < |source|
        invariant start < s <= |source| && balance > 0
        invariant Balanced(source, start, open, closing) == BalanceEnd(source, s, open, closing, balance)
      {
        if source[s] == closing {
          balance := balance - 1;
          if balance == 0 {
            return s + 1;
          }
        } else if source[s] == open {
          balance := balance + 1;
        }
        s := s + 1;
      }
      result := NO_MATCH;
    }

    method CaptureToClose() returns (result: int)
      requires Valid() && failure == ""
      modifies this`failure
      ensures LastOpen(Captured()) >= 0 ==> result == LastOpen(Captured()) && failure == ""
      ensures LastOpen(Captured()) < 0 ==> result < 0 && failure == "invalid pattern capture"
    {
      var i: int := level - 1;
      while i >= 0
        invariant -1 <= i < level && failure == ""
        invariant forall k :: i < k < level ==> captures[k].length != CAPTURE_UNFINISHED
      {
        if captures[i].length == CAPTURE_UNFINISHED {
          assert Captured()[i].length == CAPTURE_UNFINISHED;
          return i;
        }
        i := i - 1;
      }
      result := Fail("invalid pattern capture");
    }

    method MatchCapture(s: nat, digit: Byte) returns (result: int)
      requires Ready(s, 0)
      modifies this`failure
      ensures if !BackValid(digit, Captured()) then result == FAILED && failure == "invalid capture index"
              else failure == "" &&
                   var c := Captured()[BackLevel(digit)];
                   result == if BackMatches(source, s, c) then s + c.length else NO_MATCH
    {
      var index: int := digit - 49;
      if index < 0 || index >= level || captures[index].length == CAPTURE_UNFINISHED {
        result := Fail("invalid capture index");
        return;
      }
      assert captures[index] == Captured()[index];
      var length := captures[index].length;
      if length < 0 {
        return NO_MATCH;
      }
      var init := captures[index].init;
      if |source| - s >= length && source[init..init + length] == source[s..s + length] {
        return s + length;
      }
      result := NO_MATCH;
    }

    /** One level of genuine recursion. */
    method Match(s: nat, p: nat) returns (result: int)
      requires Ready(s, p) && depth <= p
      modifies this, captures
      ensures depth == old(depth) && Reports(Outcomes(source, pattern, s, p, old(Captured())), result)
      ensures result == NO_MATCH ==> Captured() == old(Captured())
      ensures result >= 0 ==> PatternLaws.Preferred(source, pattern, s, p, old(Captured()), Matching(result, Captured()))
      decreases |pattern| - p, 4
    {
      ghost var caps := Captured();
      depth := depth + 1;
      if depth > MAX_DEPTH {
        depth := depth - 1;
        result := Fail(TOO_COMPLEX);
        return;
      }
      result := MatchFrom(s, p);
      depth := depth - 1;
      if result >= 0 { PatternLaws.HeadIsPreferred(source, pattern, s, p, caps, Matching(result, Captured())); }
    }

    method StartCapture(s: nat, p: nat, what: int) returns (result: int)
      requires Ready(s, p) && depth <= p && (what == CAPTURE_POSITION || what == CAPTURE_UNFINISHED)
      modifies this, captures
      ensures depth == old(depth)
      ensures var caps := old(Captured());
              Reports(if |caps| >= MAX_CAPTURES then [Failure("too many captures")]
                      else Outcomes(source, pattern, s, p, caps + [Capture(s, what)]), result)
      ensures result == NO_MATCH ==> Captured() == old(Captured())
      decreases |pattern| - p, 5
    {
      if level >= MAX_CAPTURES {
        result := Fail("too many captures");
        return;
      }
      captures[level] := Capture(s, what);
      level := level + 1;
      assert Captured() == old(Captured()) + [Capture(s, what)];
      result := Match(s, p);
      if result == NO_MATCH {
        assert Captured()[..level - 1] == old(Captured());
        level := level - 1;
      }
    }

    method EndCapture(s: nat, p: nat) returns (result: int)
      requires Ready(s, p) && depth <= p
      modifies this, captures
      ensures depth == old(depth)
      ensures var caps := old(Captured());
              var l := LastOpen(caps);
              Reports(if l < 0 then [Failure("invalid pattern capture")]
                      else Outcomes(source, pattern, s, p, caps[l := Capture(caps[l].init, s - caps[l].init)]), result)
      ensures result == NO_MATCH ==> Captured() == old(Captured())
      decreases |pattern| - p, 5
    {
      ghost var caps := Captured();
      var l := CaptureToClose();
      if l < 0 {
        return FAILED;
      }
      var init := captures[l].init;
      captures[l] := Capture(init, s - init);
      assert Captured() == caps[l := Capture(caps[l].init, s - caps[l].init)];
      result := Match(s, p);
      if result == NO_MATCH {
        assert captures[l] == Captured()[l];
        captures[l] := Capture(captures[l].init, CAPTURE_UNFINISHED);
        assert Captured() == caps[l := Capture(caps[l].init, s - caps[l].init)][l := caps[l]] == caps;
      }
    }

    /** How far the single item extends from `s`. */
    method CountRun(s: nat, p: nat, classEnd: nat) returns (count: nat)
      requires s <= |source| && classEnd > 0
      ensures count == LongestRun(source, pattern, s, p, classEnd)
    {
      count := 0;
      while s + count < |source|
        invariant s + count <= |source|
        invariant LongestRun(source, pattern, s, p, classEnd) == count + LongestRun(source, pattern, s + count, p, classEnd)
      {
        var matched := MatchSingle(source[s + count], p, classEnd);
        if !matched {
          break;
        }
        count := count + 1;
      }
    }

    /** The longest run first, then one repetition less at a time. */
    method MaxExpand(s: nat, p: nat, classEnd: nat) returns (result: int)
      requires Ready(s, p) && depth <= p + 1 && p < classEnd < |pattern|
      modifies this, captures
      ensures depth == old(depth)
      ensures Reports(Longest(source, pattern, s, classEnd + 1, old(Captured()), LongestRun(source, pattern, s, p, classEnd), 0), result)
      ensures result == NO_MATCH ==> Captured() == old(Captured())
      decreases |pattern| - p, 1, 0
    {
      ghost var caps := Captured();
      var longest := CountRun(s, p, classEnd);
      ghost var all := Longest(source, pattern, s, classEnd + 1, caps, longest, 0);
      var count: int := longest;
      while count >= 0
        invariant -1 <= count <= longest && Ready(s, p) && Captured() == caps && depth == old(depth)
        invariant all == LongestBelow(source, pattern, s, classEnd + 1, caps, count + 1)
      {
        assert Weakened(caps, s, s + count) == caps;
        LongestSplits(source, pattern, s, classEnd + 1, caps, count);
        result := Match(s + count, classEnd + 1);
        ReportsFirst(Outcomes(source, pattern, s + count, classEnd + 1, caps),
                     LongestBelow(source, pattern, s, classEnd + 1, caps, count), result);
        if result != NO_MATCH {
          return;
        }
        count := count - 1;
      }
      result := NO_MATCH;
    }

    /** The shortest run first, then one repetition more at a time. */
    method MinExpand(start: nat, p: nat, classEnd: nat) returns (result: int)
      requires Ready(start, p) && depth <= p + 1 && p < classEnd < |pattern|
      modifies this, captures
      ensures depth == old(depth)
      ensures Reports(Shortest(source, pattern, start, classEnd + 1, old(Captured()), 0, LongestRun(source, pattern, start, p, classEnd)), result)
      ensures result == NO_MATCH ==> Captured() == old(Captured())
      decreases |pattern| - p, 1, 0
    {
      ghost var caps := Captured();
      ghost var longest := LongestRun(source, pattern, start, p, classEnd);
      var s := start;
      while true
        invariant start <= s <= |source| && Ready(start, p) && Captured() == caps && depth == old(depth)
        invariant longest == s - start + LongestRun(source, pattern, s, p, classEnd)
        invariant Shortest(source, pattern, start, classEnd + 1, caps, 0, longest) ==
                  Shortest(source, pattern, start, classEnd + 1, caps, s - start, longest)
        decreases |source| - s
      {
        assert Weakened(caps, start, s) == caps;
        result := Match(s, classEnd + 1);
        ReportsFirst(Outcomes(source, pattern, s, classEnd + 1, caps),
                     if s - start == longest then [] else Shortest(source, pattern, start, classEnd + 1, caps, s - start + 1, longest), result);
        if result != NO_MATCH {
          return;
        }
        var matched := false;
        if s < |source| {
          matched := MatchSingle(source[s], p, classEnd);
        }
        if !matched {
          return NO_MATCH;
        }
        s := s + 1;
      }
    }

    /** The items of the pattern in turn; only captures and quantifiers recur. */
    method MatchFrom(start: nat, first: nat) returns (result: int)
      requires Ready(start, first) && depth <= first + 1
      modifies this, captures
      ensures depth == old(depth) && Reports(Outcomes(source, pattern, start, first, old(Captured())), result)
      ensures result == NO_MATCH ==> Captured() == old(Captured())
      decreases |pattern| - first, 3
    {
      ghost var caps := Captured();
      ghost var all := Outcomes(source, pattern, start, first, caps);
      var s: nat, p: nat := start, first;
      while true
        invariant first <= p && Ready(s, p) && depth == old(depth) && Captured() == caps
        invariant all == Outcomes(source, pattern, s, p, caps)
        decreases |pattern| - p
      {
        if EndsSegment(p) {
          result := MatchSegmentEnd(s, p);
          return;
        }
        var continues, s', p';
        if IsEscapeItem(p) {
          result, continues, s', p' := MatchEscape(s, p);
        } else {
          result, continues, s', p' := MatchItem(s, p);
        }
        if !continues {
          return;
        }
        s, p := s', p';
      }
    }

    /** Captures, the end of the pattern and a final $: the rest is matched by a nested call or not at all. */
    predicate EndsSegment(p: nat) {
      var c := At(pattern, p);
      c == 40 || c == 41 || c == 0 || (c == 36 && At(pattern, p + 1) == 0)
    }

    method MatchSegmentEnd(s: nat, p: nat) returns (result: int)
      requires Ready(s, p) && depth <= p + 1 && EndsSegment(p)
      modifies this, captures
      ensures depth == old(depth) && Reports(Outcomes(source, pattern, s, p, old(Captured())), result)
      ensures result == NO_MATCH ==> Captured() == old(Captured())
      decreases |pattern| - p, 2
    {
      var c := At(pattern, p);
      if c == 40 {
        if At(pattern, p + 1) == 41 {
          result := StartCapture(s, p + 2, CAPTURE_POSITION);
        } else {
          result := StartCapture(s, p + 1, CAPTURE_UNFINISHED);
        }
      } else if c == 41 {
        result := EndCapture(s, p + 1);
      } else if c == 0 {
        result := s;
      } else {
        result := if s == |source| then s else NO_MATCH;
      }
    }

    /** %b, %f and back references. */
    predicate IsEscapeItem(p: nat) {
      At(pattern, p) == ESCAPE &&
      (At(pattern, p + 1) == 98 || At(pattern, p + 1) == 102 || IsDigit(At(pattern, p + 1)))
    }

    /** Where matching goes on after an item that leaves no choice. */
    ghost predicate GoesOn(caps: seq<Capture>, s: nat, p: nat, s': nat, p': nat)
      reads this, captures
    {
      Ready(s, p) && s <= s' && p < p' && Ready(s', p') && Captured() == caps &&
      Outcomes(source, pattern, s, p, caps) == Outcomes(source, pattern, s', p', caps)
    }

    method MatchEscape(s: nat, p: nat) returns (result: int, continues: bool, s': nat, p': nat)
      requires Ready(s, p) && p < |pattern| && IsEscapeItem(p)
      modifies this`failure
      ensures !continues ==> Reports(Outcomes(source, pattern, s, p, Captured()), result)
      ensures continues ==> GoesOn(Captured(), s, p, s', p')
    {
      ghost var caps := Captured();
      var next := At(pattern, p + 1);
      if next == 98 {
        var end := MatchBalance(s, p + 2);
        if end < 0 {
          return end, false, s, p;
        }
        assert Weakened(caps, s, end) == caps;
        return end, true, end, p + 4;
      } else if next == 102 {
        var classEnd, holds := MatchFrontier(s, p + 2);
        if classEnd < 0 || !holds {
          return if classEnd < 0 then classEnd else NO_MATCH, false, s, p;
        }
        return classEnd, true, s, classEnd;
      } else {
        var end := MatchCapture(s, next);
        if end < 0 {
          return end, false, s, p;
        }
        assert Weakened(caps, s, end) == caps;
        return end, true, end, p + 2;
      }
    }

    /** The end of the set at `p`, and whether the frontier lies at `s`. */
    method MatchFrontier(s: nat, p: nat) returns (result: int, holds: bool)
      requires Ready(s, p)
      modifies this`failure
      ensures if At(pattern, p) != 91 then result == FAILED && failure == "missing '[' after '%f' in pattern"
              else match ClassEnd(pattern, p)
                case Found(pos) => result == pos && failure == "" && holds == FrontierHolds(source, pattern, s, p, pos)
                case Bad(message) => result == FAILED && failure == message
    {
      holds := false;
      if At(pattern, p) != 91 {
        result := Fail("missing '[' after '%f' in pattern");
        return;
      }
      result := ClassEndAt(p);
      if result < 0 {
        return;
      }
      var before := MatchBracketClass(At(source, s - 1), p, result - 1);
      if !before {
        holds := MatchBracketClass(At(source, s), p, result - 1);
      }
    }

    /** A single item with its quantifier: either the answer, or where matching goes on. */
    method MatchItem(s: nat, p: nat) returns (result: int, continues: bool, s': nat, p': nat)
      requires Ready(s, p) && p < |pattern| && depth <= p + 1
      requires !EndsSegment(p) && !IsEscapeItem(p)
      modifies this, captures
      ensures depth == old(depth)
      ensures !continues ==> Reports(Outcomes(source, pattern, s, p, old(Captured())), result)
      ensures !continues && result == NO_MATCH ==> Captured() == old(Captured())
      ensures continues ==> GoesOn(old(Captured()), s, p, s', p')
      decreases |pattern| - p, 2
    {
      ghost var caps := Captured();
      continues, s', p' := false, s, p;
      var classEnd := ClassEndAt(p);
      if classEnd < 0 {
        return classEnd, false, s, p;
      }
      var matched := false;
      if s < |source| {
        matched := MatchSingle(source[s], p, classEnd);
      }
      var quantifier := At(pattern, classEnd);
      if quantifier == 63 {
        result := MatchOptional(s, p, classEnd, matched);
        continues, p' := result == NO_MATCH, classEnd + 1;
      } else if quantifier == 42 || quantifier == 43 || quantifier == 45 {
        result := MatchRepeated(s, p, classEnd, matched);
      } else {
        OnceOutcomes(source, pattern, s, p, caps, classEnd);
        result := NO_MATCH;
        if matched {
          assert Weakened(caps, s, s + 1) == caps;
          continues, s', p' := true, s + 1, classEnd;
        }
      }
    }

    /** The quantifier ?, with the item present. */
    method MatchOptional(s: nat, p: nat, classEnd: nat, matched: bool) returns (result: int)
      requires Ready(s, p) && p < |pattern| && depth <= p + 1 && ItemAt(pattern, p) == Single(p, classEnd, Optional, classEnd + 1)
      requires matched <==> s < |source| && SingleMatch(pattern, p, classEnd, source[s])
      modifies this, captures
      ensures depth == old(depth)
      ensures result != NO_MATCH ==> Reports(Outcomes(source, pattern, s, p, old(Captured())), result)
      ensures result == NO_MATCH ==> GoesOn(old(Captured()), s, p, s, classEnd + 1)
      decreases |pattern| - p, 1
    {
      ghost var caps := Captured();
      result := NO_MATCH;
      if matched {
        assert Weakened(caps, s, s + 1) == caps;
        result := Match(s + 1, classEnd + 1);
      }
      OptionalReports(caps, s, p, classEnd, result);
    }

    /** The quantifiers *, + and -. */
    method MatchRepeated(s: nat, p: nat, classEnd: nat, matched: bool) returns (result: int)
      requires Ready(s, p) && p < |pattern| && depth <= p + 1 && ClassEnd(pattern, p) == Found(classEnd)
      requires ItemAt(pattern, p).Single? && At(pattern, classEnd) in {42, 43, 45}
      requires matched <==> s < |source| && SingleMatch(pattern, p, classEnd, source[s])
      modifies this, captures
      ensures depth == old(depth)
      ensures Reports(Outcomes(source, pattern, s, p, old(Captured())), result)
      ensures result == NO_MATCH ==> Captured() == old(Captured())
      decreases |pattern| - p, 1, 1
    {
      ghost var caps := Captured();
      if At(pattern, classEnd) == 42 {
        result := MaxExpand(s, p, classEnd);
      } else if At(pattern, classEnd) == 43 {
        PlusOutcomes(source, pattern, s, p, caps, classEnd);
        result := NO_MATCH;
        if matched {
          assert Weakened(caps, s, s + 1) == caps;
          result := MaxExpand(s + 1, p, classEnd);
        }
      } else {
        result := MinExpand(s, p, classEnd);
      }
    }

    /** The first match at or after `init`; an anchored search only tries `init`. */
    method SearchFrom(init: nat, anchored: bool) returns (start: nat, end: nat, found: bool)
      requires Valid() && failure == "" && init <= |source|
      modifies this, captures
      ensures Valid() && (failure == "" <== found)
      ensures found ==> init <= start <= |source| && (anchored ==> start == init) && FirstMatch(source, pattern, start, Matching(end, Captured()))
      ensures found ==> Derives(source, pattern, start, 0, [], Matching(end, Captured()))
      ensures found ==> PatternLaws.Preferred(source, pattern, start, 0, [], Matching(end, Captured()))
      ensures found ==> forall t :: init <= t < start ==> NoneFrom(source, pattern, t)
      ensures !found && failure == "" ==> NoneFrom(source, pattern, init)
      ensures !found && failure == "" && !anchored ==> forall t :: init <= t <= |source| ==> NoneFrom(source, pattern, t)
      ensures !found && failure != "" ==> (failure == TOO_COMPLEX && |pattern| >= MAX_DEPTH) || !WellFormed(pattern, 0, [])
    {
      var s := init;
      while true
        invariant init <= s <= |source| && Valid() && failure == "" && (anchored ==> s == init)
        invariant forall t :: init <= t < s ==> NoneFrom(source, pattern, t)
        decreases |source| - s
      {
        level, depth := 0, 0;
        assert Captured() == [];
        var result := Match(s, 0);
        SearchDecides(source, pattern, s);
        if result >= 0 {
          return s, result, true;
        }
        if result == FAILED {
          FailureMeansMalformed(source, pattern, s);
          return 0, 0, false;
        }
        assert NoOutcome(source, pattern, s);
        if anchored || s >= |source| {
          return 0, 0, false;
        }
        s := s + 1;
      }
    }
  }
}
