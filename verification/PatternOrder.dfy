/** Backtracking order: all matchings of a pattern as a list, in the order Lua visits them. */
module PatternOrder {
  import opened Wrappers
  import opened PatternSpec

  /** A matching, or an error the matcher raises when its search gets there. */
  datatype Outcome = Match(matching: Matching) | Failure(message: string)

  /** How far a run of the item can be extended from `s`. */
  function LongestRun(src: Bytes, pat: Bytes, s: nat, start: nat, end: nat): (k: nat)
    requires s <= |src| && end > 0
    ensures Repeats(src, pat, s, k, start, end)
    ensures s + k == |src| || !SingleMatch(pat, start, end, src[s + k])
    decreases |src| - s
  {
    if s < |src| && SingleMatch(pat, start, end, src[s]) then 1 + LongestRun(src, pat, s + 1, start, end) else 0
  }

  function Outcomes(src: Bytes, pat: Bytes, s: nat, p: nat, caps: seq<Capture>): seq<Outcome>
    requires s <= |src| && p <= |pat| && CapturesWithin(caps, s)
    decreases |pat| - p, 0, 0
  {
    match ItemAt(pat, p)
    case Finish => [Match(Matching(s, caps))]
    case AtEnd => if s == |src| then [Match(Matching(s, caps))] else []
    case Open(what, next) =>
      if |caps| >= MAX_CAPTURES then [Failure("too many captures")]
      else Outcomes(src, pat, s, next, caps + [Capture(s, what)])
    case Close(next) =>
      var l := LastOpen(caps);
      if l < 0 then [Failure("invalid pattern capture")]
      else Outcomes(src, pat, s, next, caps[l := Capture(caps[l].init, s - caps[l].init)])
    case Balance(x, y, next) =>
      var e := Balanced(src, s, x, y);
      if e < 0 then [] else Outcomes(src, pat, e, next, Weakened(caps, s, e))
    case Frontier(bracket, next) =>
      if FrontierHolds(src, pat, s, bracket, next) then Outcomes(src, pat, s, next, caps) else []
    case Back(digit, next) =>
      if !BackValid(digit, caps) then [Failure("invalid capture index")]
      else
        var c := caps[BackLevel(digit)];
        if BackMatches(src, s, c) then Outcomes(src, pat, s + c.length, next, Weakened(caps, s, s + c.length)) else []
    case Single(start, end, repeat, next) => Repetitions(src, pat, s, caps, start, end, repeat, next)
    case Malformed(message) => [Failure(message)]
  }

  /** The repetitions of a single item: the most first when greedy, the fewest first when lazy. */
  function Repetitions(src: Bytes, pat: Bytes, s: nat, caps: seq<Capture>, start: nat, end: nat, repeat: Repeat, next: nat): seq<Outcome>
    requires s <= |src| && next <= |pat| && CapturesWithin(caps, s) && end > 0
    decreases |pat| - next, 2, 0
  {
    var longest := LongestRun(src, pat, s, start, end);
    match repeat
    case Once => if longest >= 1 then Outcomes(src, pat, s + 1, next, Weakened(caps, s, s + 1)) else []
    case Optional => Longest(src, pat, s, next, caps, if longest >= 1 then 1 else 0, 0)
    case Greedy(least) => if longest < least then [] else Longest(src, pat, s, next, caps, longest, least)
    case Lazy => Shortest(src, pat, s, next, caps, 0, longest)
  }

  /** The rest of the pattern after k, k - 1, ..., least repetitions. */
  function Longest(src: Bytes, pat: Bytes, s: nat, next: nat, caps: seq<Capture>, k: nat, least: nat): seq<Outcome>
    requires s + k <= |src| && next <= |pat| && CapturesWithin(caps, s) && least <= k
    decreases |pat| - next, 1, k
  {
    Outcomes(src, pat, s + k, next, Weakened(caps, s, s + k)) +
    (if k == least then [] else Longest(src, pat, s, next, caps, k - 1, least))
  }

  /** The rest of the pattern after k, k + 1, ..., most repetitions. */
  function Shortest(src: Bytes, pat: Bytes, s: nat, next: nat, caps: seq<Capture>, k: nat, most: nat): seq<Outcome>
    requires s + most <= |src| && next <= |pat| && CapturesWithin(caps, s) && k <= most
    decreases |pat| - next, 1, most - k
  {
    Outcomes(src, pat, s + k, next, Weakened(caps, s, s + k)) +
    (if k == most then [] else Shortest(src, pat, s, next, caps, k + 1, most))
  }

  // ----- the list holds exactly the derivable matchings -----

  lemma {:induction false} Complete(src: Bytes, pat: Bytes, s: nat, p: nat, caps: seq<Capture>, r: Matching)
    requires s <= |src| && p <= |pat| && CapturesWithin(caps, s)
    ensures Match(r) in Outcomes(src, pat, s, p, caps) <==> Derives(src, pat, s, p, caps, r)
    decreases |pat| - p, 0, 1
  {
    match ItemAt(pat, p)
    case Finish =>
    case AtEnd =>
    case Open(what, next) => CompleteOpen(src, pat, s, p, caps, r);
    case Close(next) => CompleteClose(src, pat, s, p, caps, r);
    case Balance(x, y, next) =>
      var e := Balanced(src, s, x, y);
      if e >= 0 { Complete(src, pat, e, next, Weakened(caps, s, e), r); }
    case Frontier(bracket, next) => Complete(src, pat, s, next, caps, r);
    case Back(digit, next) => CompleteBack(src, pat, s, p, caps, r);
    case Single(start, end, repeat, next) => CompleteSingle(src, pat, s, caps, r, start, end, repeat, next);
    case Malformed(_) =>
  }

  lemma {:induction false} CompleteOpen(src: Bytes, pat: Bytes, s: nat, p: nat, caps: seq<Capture>, r: Matching)
    requires s <= |src| && p <= |pat| && CapturesWithin(caps, s) && ItemAt(pat, p).Open?
    ensures Match(r) in Outcomes(src, pat, s, p, caps) <==> Derives(src, pat, s, p, caps, r)
    decreases |pat| - p, 0, 0
  {
    var item := ItemAt(pat, p);
    if |caps| < MAX_CAPTURES { Complete(src, pat, s, item.next, caps + [Capture(s, item.what)], r); }
  }

  lemma {:induction false} CompleteClose(src: Bytes, pat: Bytes, s: nat, p: nat, caps: seq<Capture>, r: Matching)
    requires s <= |src| && p <= |pat| && CapturesWithin(caps, s) && ItemAt(pat, p).Close?
    ensures Match(r) in Outcomes(src, pat, s, p, caps) <==> Derives(src, pat, s, p, caps, r)
    decreases |pat| - p, 0, 0
  {
    var l := LastOpen(caps);
    if l >= 0 { Complete(src, pat, s, ItemAt(pat, p).next, caps[l := Capture(caps[l].init, s - caps[l].init)], r); }
  }

  lemma {:induction false} CompleteBack(src: Bytes, pat: Bytes, s: nat, p: nat, caps: seq<Capture>, r: Matching)
    requires s <= |src| && p <= |pat| && CapturesWithin(caps, s) && ItemAt(pat, p).Back?
    ensures Match(r) in Outcomes(src, pat, s, p, caps) <==> Derives(src, pat, s, p, caps, r)
    decreases |pat| - p, 0, 0
  {
    var item := ItemAt(pat, p);
    if BackValid(item.digit, caps) && BackMatches(src, s, caps[BackLevel(item.digit)]) {
      var e := s + caps[BackLevel(item.digit)].length;
      Complete(src, pat, e, item.next, Weakened(caps, s, e), r);
    }
  }

  /** Some repetition count between `low` and `high` leads to `r`. */
  ghost predicate After(src: Bytes, pat: Bytes, s: nat, next: nat, caps: seq<Capture>, low: nat, high: nat, r: Matching)
    requires s + high <= |src| && next <= |pat| && CapturesWithin(caps, s)
  {
    exists k: nat :: low <= k <= high && AfterExactly(src, pat, s, next, caps, k, r)
  }

  ghost predicate AfterExactly(src: Bytes, pat: Bytes, s: nat, next: nat, caps: seq<Capture>, k: nat, r: Matching)
    requires s + k <= |src| && next <= |pat| && CapturesWithin(caps, s)
  {
    Derives(src, pat, s + k, next, Weakened(caps, s, s + k), r)
  }

  lemma {:induction false} CompleteSingle(src: Bytes, pat: Bytes, s: nat, caps: seq<Capture>, r: Matching,
                                          start: nat, end: nat, repeat: Repeat, next: nat)
    requires s <= |src| && next <= |pat| && CapturesWithin(caps, s) && end > 0
    ensures Match(r) in Repetitions(src, pat, s, caps, start, end, repeat, next) <==>
      exists k: nat :: Allows(repeat, k) && Repeats(src, pat, s, k, start, end) &&
        Derives(src, pat, s + k, next, Weakened(caps, s, s + k), r)
    decreases |pat| - next, 2, 0
  {
    var longest := LongestRun(src, pat, s, start, end);
    var low, high := 0, longest;
    match repeat {
      case Once =>
        low, high := 1, if longest >= 1 then 1 else 0;
        if longest >= 1 {
          Complete(src, pat, s + 1, next, Weakened(caps, s, s + 1), r);
          assert AfterExactly(src, pat, s, next, caps, 1, r) <==> Match(r) in Repetitions(src, pat, s, caps, start, end, repeat, next);
        }
      case Optional =>
        high := if longest >= 1 then 1 else 0;
        CompleteLongest(src, pat, s, next, caps, high, 0, r);
      case Greedy(least) =>
        low := least;
        if longest >= least { CompleteLongest(src, pat, s, next, caps, longest, least, r); }
      case Lazy =>
        CompleteShortest(src, pat, s, next, caps, 0, longest, r);
    }
    assert Match(r) in Repetitions(src, pat, s, caps, start, end, repeat, next) <==> After(src, pat, s, next, caps, low, high, r);
    RunsAreShort(src, pat, s, start, end);
    forall k: nat
      ensures (Allows(repeat, k) && Repeats(src, pat, s, k, start, end)) <==> low <= k <= high
    {
    }
    if exists k: nat :: Allows(repeat, k) && Repeats(src, pat, s, k, start, end) &&
        Derives(src, pat, s + k, next, Weakened(caps, s, s + k), r) {
      var k: nat :| Allows(repeat, k) && Repeats(src, pat, s, k, start, end) &&
                    Derives(src, pat, s + k, next, Weakened(caps, s, s + k), r);
      assert AfterExactly(src, pat, s, next, caps, k, r);
    }
    if After(src, pat, s, next, caps, low, high, r) {
      var k: nat :| low <= k <= high && AfterExactly(src, pat, s, next, caps, k, r);
      assert Allows(repeat, k) && Repeats(src, pat, s, k, start, end);
    }
  }

  /** A prefix of a run is a run. */
  lemma RunsAreShort(src: Bytes, pat: Bytes, s: nat, start: nat, end: nat)
    requires s <= |src| && end > 0
    ensures forall k: nat :: Repeats(src, pat, s, k, start, end) <==> k <= LongestRun(src, pat, s, start, end)
  {
  }

  lemma AfterSplits(src: Bytes, pat: Bytes, s: nat, next: nat, caps: seq<Capture>, low: nat, high: nat, r: Matching)
    requires s + high <= |src| && next <= |pat| && CapturesWithin(caps, s) && low <= high
    ensures After(src, pat, s, next, caps, low, high, r) <==>
      AfterExactly(src, pat, s, next, caps, high, r) || (low < high && After(src, pat, s, next, caps, low, high - 1, r))
    ensures After(src, pat, s, next, caps, low, high, r) <==>
      AfterExactly(src, pat, s, next, caps, low, r) || (low < high && After(src, pat, s, next, caps, low + 1, high, r))
  {
  }

  lemma {:induction false} CompleteLongest(src: Bytes, pat: Bytes, s: nat, next: nat, caps: seq<Capture>, k: nat, least: nat, r: Matching)
    requires s + k <= |src| && next <= |pat| && CapturesWithin(caps, s) && least <= k
    ensures Match(r) in Longest(src, pat, s, next, caps, k, least) <==> After(src, pat, s, next, caps, least, k, r)
    decreases |pat| - next, 1, k
  {
    AfterSplits(src, pat, s, next, caps, least, k, r);
    CompleteAfter(src, pat, s, next, caps, k, r);
    if k > least {
      CompleteLongest(src, pat, s, next, caps, k - 1, least, r);
    }
  }

  lemma {:induction false} CompleteShortest(src: Bytes, pat: Bytes, s: nat, next: nat, caps: seq<Capture>, k: nat, most: nat, r: Matching)
    requires s + most <= |src| && next <= |pat| && CapturesWithin(caps, s) && k <= most
    ensures Match(r) in Shortest(src, pat, s, next, caps, k, most) <==> After(src, pat, s, next, caps, k, most, r)
    decreases |pat| - next, 1, most - k
  {
    AfterSplits(src, pat, s, next, caps, k, most, r);
    CompleteAfter(src, pat, s, next, caps, k, r);
    if k < most {
      CompleteShortest(src, pat, s, next, caps, k + 1, most, r);
    }
  }

  lemma {:induction false} CompleteAfter(src: Bytes, pat: Bytes, s: nat, next: nat, caps: seq<Capture>, k: nat, r: Matching)
    requires s + k <= |src| && next <= |pat| && CapturesWithin(caps, s)
    ensures AfterExactly(src, pat, s, next, caps, k, r) <==> Match(r) in Outcomes(src, pat, s + k, next, Weakened(caps, s, s + k))
    decreases |pat| - next, 0, 2
  {
    Complete(src, pat, s + k, next, Weakened(caps, s, s + k), r);
  }

  // ----- patterns that cannot fail -----

  function Pending(caps: seq<Capture>): (r: seq<bool>)
    ensures |r| == |caps|
  {
    seq(|caps|, i requires 0 <= i < |caps| => caps[i].length == CAPTURE_UNFINISHED)
  }

  function LastPending(open: seq<bool>): (r: int)
    ensures -1 <= r < |open|
    ensures r >= 0 ==> open[r]
    ensures forall i :: r < i < |open| ==> !open[i]
  {
    if |open| == 0 then -1 else if open[|open| - 1] then |open| - 1 else LastPending(open[..|open| - 1])
  }

  /** A check of the pattern text alone: every item is well formed, every close has an open capture,
      every back reference a closed one, and there are at most 32 captures. */
  predicate WellFormed(pat: Bytes, p: nat, open: seq<bool>)
    requires p <= |pat|
    decreases |pat| - p
  {
    match ItemAt(pat, p)
    case Finish => true
    case AtEnd => true
    case Open(what, next) => |open| < MAX_CAPTURES && WellFormed(pat, next, open + [what == CAPTURE_UNFINISHED])
    case Close(next) => LastPending(open) >= 0 && WellFormed(pat, next, open[LastPending(open) := false])
    case Balance(_, _, next) => WellFormed(pat, next, open)
    case Frontier(_, next) => WellFormed(pat, next, open)
    case Back(digit, next) =>
      0 <= BackLevel(digit) < |open| && !open[BackLevel(digit)] && WellFormed(pat, next, open)
    case Single(_, _, _, next) => WellFormed(pat, next, open)
    case Malformed(_) => false
  }

  predicate NoFailure(outcomes: seq<Outcome>) {
    forall i :: 0 <= i < |outcomes| ==> outcomes[i].Match?
  }

  lemma PendingOpened(caps: seq<Capture>, c: Capture)
    ensures Pending(caps + [c]) == Pending(caps) + [c.length == CAPTURE_UNFINISHED]
  {
  }

  lemma PendingClosed(caps: seq<Capture>, s: nat)
    requires CapturesWithin(caps, s) && LastPending(Pending(caps)) >= 0
    ensures var l := LastOpen(caps);
            l >= 0 && Pending(caps[l := Capture(caps[l].init, s - caps[l].init)]) == Pending(caps)[LastPending(Pending(caps)) := false]
  {
    assert Pending(caps)[LastPending(Pending(caps))];
    if LastOpen(caps) >= 0 { assert Pending(caps)[LastOpen(caps)]; }
  }

  lemma {:induction false} WellFormedNeverFails(src: Bytes, pat: Bytes, s: nat, p: nat, caps: seq<Capture>)
    requires s <= |src| && p <= |pat| && CapturesWithin(caps, s) && WellFormed(pat, p, Pending(caps))
    ensures NoFailure(Outcomes(src, pat, s, p, caps))
    decreases |pat| - p, 0, 1
  {
    match ItemAt(pat, p)
    case Finish =>
    case AtEnd =>
    case Open(what, next) => OpenNeverFails(src, pat, s, p, caps);
    case Close(next) => CloseNeverFails(src, pat, s, p, caps);
    case Balance(x, y, next) =>
      var e := Balanced(src, s, x, y);
      if e >= 0 { WellFormedNeverFails(src, pat, e, next, Weakened(caps, s, e)); }
    case Frontier(bracket, next) => WellFormedNeverFails(src, pat, s, next, caps);
    case Back(digit, next) => BackNeverFails(src, pat, s, p, caps);
    case Single(start, end, repeat, next) => SingleNeverFails(src, pat, s, caps, start, end, repeat, next);
    case Malformed(_) =>
  }

  lemma {:induction false} OpenNeverFails(src: Bytes, pat: Bytes, s: nat, p: nat, caps: seq<Capture>)
    requires s <= |src| && p <= |pat| && CapturesWithin(caps, s) && WellFormed(pat, p, Pending(caps)) && ItemAt(pat, p).Open?
    ensures NoFailure(Outcomes(src, pat, s, p, caps))
    decreases |pat| - p, 0, 0
  {
    var item := ItemAt(pat, p);
    PendingOpened(caps, Capture(s, item.what));
    WellFormedNeverFails(src, pat, s, item.next, caps + [Capture(s, item.what)]);
  }

  lemma {:induction false} CloseNeverFails(src: Bytes, pat: Bytes, s: nat, p: nat, caps: seq<Capture>)
    requires s <= |src| && p <= |pat| && CapturesWithin(caps, s) && WellFormed(pat, p, Pending(caps)) && ItemAt(pat, p).Close?
    ensures NoFailure(Outcomes(src, pat, s, p, caps))
    decreases |pat| - p, 0, 0
  {
    var l := LastOpen(caps);
    PendingClosed(caps, s);
    WellFormedNeverFails(src, pat, s, ItemAt(pat, p).next, caps[l := Capture(caps[l].init, s - caps[l].init)]);
  }

  lemma {:induction false} BackNeverFails(src: Bytes, pat: Bytes, s: nat, p: nat, caps: seq<Capture>)
    requires s <= |src| && p <= |pat| && CapturesWithin(caps, s) && WellFormed(pat, p, Pending(caps)) && ItemAt(pat, p).Back?
    ensures NoFailure(Outcomes(src, pat, s, p, caps))
    decreases |pat| - p, 0, 0
  {
    var item := ItemAt(pat, p);
    if BackMatches(src, s, caps[BackLevel(item.digit)]) {
      var e := s + caps[BackLevel(item.digit)].length;
      WellFormedNeverFails(src, pat, e, item.next, Weakened(caps, s, e));
    }
  }

  lemma {:induction false} SingleNeverFails(src: Bytes, pat: Bytes, s: nat, caps: seq<Capture>,
                                            start: nat, end: nat, repeat: Repeat, next: nat)
    requires s <= |src| && next <= |pat| && CapturesWithin(caps, s) && end > 0 && WellFormed(pat, next, Pending(caps))
    ensures NoFailure(Repetitions(src, pat, s, caps, start, end, repeat, next))
    decreases |pat| - next, 2, 0
  {
    var longest := LongestRun(src, pat, s, start, end);
    match repeat {
      case Once => if longest >= 1 { WellFormedNeverFails(src, pat, s + 1, next, Weakened(caps, s, s + 1)); }
      case Optional => LongestNeverFails(src, pat, s, next, caps, if longest >= 1 then 1 else 0, 0);
      case Greedy(least) => if longest >= least { LongestNeverFails(src, pat, s, next, caps, longest, least); }
      case Lazy => ShortestNeverFails(src, pat, s, next, caps, 0, longest);
    }
  }

  lemma {:induction false} LongestNeverFails(src: Bytes, pat: Bytes, s: nat, next: nat, caps: seq<Capture>, k: nat, least: nat)
    requires s + k <= |src| && next <= |pat| && CapturesWithin(caps, s) && least <= k && WellFormed(pat, next, Pending(caps))
    ensures NoFailure(Longest(src, pat, s, next, caps, k, least))
    decreases |pat| - next, 1, k
  {
    WellFormedNeverFails(src, pat, s + k, next, Weakened(caps, s, s + k));
    if k > least { LongestNeverFails(src, pat, s, next, caps, k - 1, least); }
  }

  lemma {:induction false} ShortestNeverFails(src: Bytes, pat: Bytes, s: nat, next: nat, caps: seq<Capture>, k: nat, most: nat)
    requires s + most <= |src| && next <= |pat| && CapturesWithin(caps, s) && k <= most && WellFormed(pat, next, Pending(caps))
    ensures NoFailure(Shortest(src, pat, s, next, caps, k, most))
    decreases |pat| - next, 1, most - k
  {
    WellFormedNeverFails(src, pat, s + k, next, Weakened(caps, s, s + k));
    if k < most { ShortestNeverFails(src, pat, s, next, caps, k + 1, most); }
  }
}
