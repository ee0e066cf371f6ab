/** What the bytes of a pattern mean: which repetition count wins, what class letters and sets contain, what captures
    hold and what the items without repetition ask for. */
module PatternLaws {
  import opened Wrappers
  import opened PatternSpec
  import opened PatternOrder

  const QUESTION: Byte := 63
  const STAR: Byte := 42
  const PLUS: Byte := 43
  const MINUS: Byte := 45

  // ----- which matching is preferred -----

  /** Some matching starts here. */
  ghost predicate Leads(src: Bytes, pat: Bytes, s: nat, p: nat, caps: seq<Capture>)
    requires s <= |src| && p <= |pat| && CapturesWithin(caps, s)
  {
    exists r :: Derives(src, pat, s, p, caps, r)
  }

  /** Some matching goes on after k repetitions of the single item. */
  ghost predicate GoesOn(src: Bytes, pat: Bytes, s: nat, caps: seq<Capture>, start: nat, end: nat, next: nat, k: nat)
    requires s <= |src| && next <= |pat| && CapturesWithin(caps, s) && end > 0
  {
    Repeats(src, pat, s, k, start, end) && Leads(src, pat, s + k, next, Weakened(caps, s, s + k))
  }

  /** The byte behind a single item says which count wins among those after which the pattern goes on: with * and + the
      largest, with - the smallest, with ? one before none. */
  ghost predicate Wins(src: Bytes, pat: Bytes, s: nat, caps: seq<Capture>, start: nat, end: nat, next: nat, k: nat)
    requires s <= |src| && next == end + 1 <= |pat| && CapturesWithin(caps, s) && end > 0
  {
    var q := pat[end];
    if q == STAR then forall j: nat :: GoesOn(src, pat, s, caps, start, end, next, j) ==> j <= k
    else if q == PLUS then k >= 1 && forall j: nat :: GoesOn(src, pat, s, caps, start, end, next, j) ==> j <= k
    else if q == MINUS then forall j: nat :: GoesOn(src, pat, s, caps, start, end, next, j) ==> j >= k
    else k <= 1 && (k == 0 ==> !GoesOn(src, pat, s, caps, start, end, next, 1))
  }

  predicate IsQuantifier(b: Byte) {
    b == STAR || b == PLUS || b == MINUS || b == QUESTION
  }

  predicate Repeated(pat: Bytes, p: nat, end: nat) {
    p < end < |pat| && IsQuantifier(pat[end]) && var item := ItemAt(pat, p); item.Single? && item.start == p && item.end == end
  }

  datatype Step = Ends(result: Matching) | Goes(s: nat, p: nat, caps: seq<Capture>) | Fails

  /** Where an item leads that is not repeated: it leaves no choice. */
  function StepOf(src: Bytes, pat: Bytes, s: nat, p: nat, caps: seq<Capture>): (step: Step)
    requires s <= |src| && p <= |pat| && CapturesWithin(caps, s)
    ensures step.Goes? ==> s <= step.s <= |src| && p < step.p <= |pat| && CapturesWithin(step.caps, step.s)
  {
    match ItemAt(pat, p)
    case Finish => Ends(Matching(s, caps))
    case AtEnd => if s == |src| then Ends(Matching(s, caps)) else Fails
    case Open(what, next) => if |caps| < MAX_CAPTURES then Goes(s, next, caps + [Capture(s, what)]) else Fails
    case Close(next) =>
      var l := LastOpen(caps);
      if l >= 0 then Goes(s, next, caps[l := Capture(caps[l].init, s - caps[l].init)]) else Fails
    case Balance(x, y, next) => var e := Balanced(src, s, x, y); if e >= 0 then Goes(e, next, Weakened(caps, s, e)) else Fails
    case Frontier(bracket, next) => if FrontierHolds(src, pat, s, bracket, next) then Goes(s, next, caps) else Fails
    case Back(digit, next) =>
      if BackValid(digit, caps) && BackMatches(src, s, caps[BackLevel(digit)])
      then Goes(s + caps[BackLevel(digit)].length, next, Weakened(caps, s, s + caps[BackLevel(digit)].length)) else Fails
    case Single(_, end, _, _) => if s < |src| && SingleMatch(pat, p, end, src[s]) then Goes(s + 1, end, Weakened(caps, s, s + 1)) else Fails
    case Malformed(_) => Fails
  }

  /** The single item at p is followed by a byte that repeats it. */
  predicate IsRepeated(pat: Bytes, p: nat) {
    var item := ItemAt(pat, p);
    item.Single? && item.end < |pat| && IsQuantifier(pat[item.end])
  }

  /** The matching that takes the winning count at every item. Nothing else is left open. */
  ghost predicate Preferred(src: Bytes, pat: Bytes, s: nat, p: nat, caps: seq<Capture>, r: Matching)
    requires s <= |src| && p <= |pat| && CapturesWithin(caps, s)
    decreases |pat| - p, 1
  {
    if IsRepeated(pat, p) then
      var end := ItemAt(pat, p).end;
      exists k: nat {:trigger Repeats(src, pat, s, k, p, end)} :: Repeats(src, pat, s, k, p, end) && Taken(src, pat, s, p, caps, r, end, k)
    else
      var step := StepOf(src, pat, s, p, caps);
      match step
      case Ends(result) => r == result
      case Goes(s', p', caps') => Preferred(src, pat, s', p', caps', r)
      case Fails => false
  }

  /** The repeated item at p takes its winning count, and what follows does too. */
  ghost predicate Taken(src: Bytes, pat: Bytes, s: nat, p: nat, caps: seq<Capture>, r: Matching, end: nat, k: nat)
    requires s <= |src| && p <= |pat| && CapturesWithin(caps, s)
    decreases |pat| - p, 0
  {
    p < end < |pat| && s + k <= |src| && Wins(src, pat, s, caps, p, end, end + 1, k) &&
    Preferred(src, pat, s + k, end + 1, Weakened(caps, s, s + k), r)
  }

  // ----- the first outcome -----

  /** The first outcome; to be taken apart only where HeadIs is named. */
  ghost predicate Heads(src: Bytes, pat: Bytes, s: nat, p: nat, caps: seq<Capture>, o: Outcome) {
    s <= |src| && p <= |pat| && CapturesWithin(caps, s) && forall x {:trigger HeadIs(src, pat, s, p, caps, x)} :: x == o ==> HeadIs(src, pat, s, p, caps, x)
  }

  ghost predicate HeadIs(src: Bytes, pat: Bytes, s: nat, p: nat, caps: seq<Capture>, o: Outcome)
    requires s <= |src| && p <= |pat| && CapturesWithin(caps, s)
  {
    Outcomes(src, pat, s, p, caps) != [] && Outcomes(src, pat, s, p, caps)[0] == o
  }

  /** The first of the outcomes of a run of counts, down from the most or up from the fewest. */
  ghost predicate RunHeads(src: Bytes, pat: Bytes, s: nat, next: nat, caps: seq<Capture>, from: nat, to: nat, o: Outcome) {
    s + from <= |src| && s + to <= |src| && next <= |pat| && CapturesWithin(caps, s) &&
    forall x {:trigger RunHeadIs(src, pat, s, next, caps, from, to, x)} :: x == o ==> RunHeadIs(src, pat, s, next, caps, from, to, x)
  }

  ghost predicate RunHeadIs(src: Bytes, pat: Bytes, s: nat, next: nat, caps: seq<Capture>, from: nat, to: nat, o: Outcome)
    requires s + from <= |src| && s + to <= |src| && next <= |pat| && CapturesWithin(caps, s)
  {
    var all := if to <= from then Longest(src, pat, s, next, caps, from, to) else Shortest(src, pat, s, next, caps, from, to);
    all != [] && all[0] == o
  }

  /** The pattern does not go on after this count. */
  ghost predicate Stops(src: Bytes, pat: Bytes, s: nat, next: nat, caps: seq<Capture>, k: nat) {
    s + k <= |src| && next <= |pat| && CapturesWithin(caps, s) && !Leads(src, pat, s + k, next, Weakened(caps, s, s + k))
  }

  /** Without an outcome nothing can be derived. */
  lemma NothingLeads(src: Bytes, pat: Bytes, s: nat, p: nat, caps: seq<Capture>)
    requires s <= |src| && p <= |pat| && CapturesWithin(caps, s) && !Listed(src, pat, s, p, caps)
    ensures !Leads(src, pat, s, p, caps)
  {
    if r :| Derives(src, pat, s, p, caps, r) { Complete(src, pat, s, p, caps, r); }
  }

  /** The first count of a run either has the first outcome or stops. */
  lemma RunTries(src: Bytes, pat: Bytes, s: nat, next: nat, caps: seq<Capture>, from: nat, to: nat, o: Outcome) returns (here: bool)
    requires RunHeads(src, pat, s, next, caps, from, to, o)
    ensures here ==> Heads(src, pat, s + from, next, caps, o)
    ensures !here ==> from != to && Stops(src, pat, s, next, caps, from)
    ensures !here ==> RunHeads(src, pat, s, next, caps, if to < from then from - 1 else from + 1, to, o)
  {
    assert RunHeadIs(src, pat, s, next, caps, from, to, o);
    here := Listed(src, pat, s + from, next, Weakened(caps, s, s + from));
    if here {
      RunStarts(src, pat, s, next, caps, from, to, o);
    } else {
      NothingLeads(src, pat, s + from, next, Weakened(caps, s, s + from));
      RunGoesOn(src, pat, s, next, caps, from, to, o);
    }
  }

  ghost predicate Listed(src: Bytes, pat: Bytes, s: nat, p: nat, caps: seq<Capture>)
    requires s <= |src| && p <= |pat| && CapturesWithin(caps, s)
  {
    Outcomes(src, pat, s, p, caps) != []
  }

  /** A run whose first count has an outcome starts with it. */
  lemma RunStarts(src: Bytes, pat: Bytes, s: nat, next: nat, caps: seq<Capture>, from: nat, to: nat, o: Outcome)
    requires s + from <= |src| && s + to <= |src| && next <= |pat| && CapturesWithin(caps, s)
    requires RunHeadIs(src, pat, s, next, caps, from, to, o) && Listed(src, pat, s + from, next, Weakened(caps, s, s + from))
    ensures HeadIs(src, pat, s + from, next, Weakened(caps, s, s + from), o)
  {
  }

  /** A run whose first count has no outcome has the outcomes of the rest. */
  lemma RunGoesOn(src: Bytes, pat: Bytes, s: nat, next: nat, caps: seq<Capture>, from: nat, to: nat, o: Outcome)
    requires s + from <= |src| && s + to <= |src| && next <= |pat| && CapturesWithin(caps, s)
    requires RunHeadIs(src, pat, s, next, caps, from, to, o) && !Listed(src, pat, s + from, next, Weakened(caps, s, s + from))
    ensures from != to && RunHeadIs(src, pat, s, next, caps, if to < from then from - 1 else from + 1, to, o)
  {
    var out := Outcomes(src, pat, s + from, next, Weakened(caps, s, s + from));
    if to < from {
      assert Longest(src, pat, s, next, caps, from, to) == out + Longest(src, pat, s, next, caps, from - 1, to);
    } else if from < to {
      assert Shortest(src, pat, s, next, caps, from, to) == out + Shortest(src, pat, s, next, caps, from + 1, to);
      if from + 1 == to { SameAtOne(src, pat, s, next, caps, to); }
    }
  }

  lemma SameAtOne(src: Bytes, pat: Bytes, s: nat, next: nat, caps: seq<Capture>, k: nat)
    requires s + k <= |src| && next <= |pat| && CapturesWithin(caps, s)
    ensures Longest(src, pat, s, next, caps, k, k) == Shortest(src, pat, s, next, caps, k, k)
  {
  }

  lemma GoingOn(src: Bytes, pat: Bytes, s: nat, caps: seq<Capture>, start: nat, end: nat, next: nat, k: nat)
    requires s <= |src| && next <= |pat| && CapturesWithin(caps, s) && end > 0 && GoesOn(src, pat, s, caps, start, end, next, k)
    ensures !Stops(src, pat, s, next, caps, k)
  {
  }

  /** Down to the count that has the first outcome everything stops. */
  lemma {:induction false} LongestFirst(src: Bytes, pat: Bytes, s: nat, next: nat, caps: seq<Capture>, k: nat, least: nat, o: Outcome) returns (j: nat)
    requires least <= k && RunHeads(src, pat, s, next, caps, k, least, o)
    ensures least <= j <= k && Heads(src, pat, s + j, next, caps, o)
    ensures forall i: nat :: j < i <= k ==> Stops(src, pat, s, next, caps, i)
    decreases k
  {
    var here := RunTries(src, pat, s, next, caps, k, least, o);
    j := k;
    if !here { j := LongestFirst(src, pat, s, next, caps, k - 1, least, o); }
  }

  lemma {:induction false} ShortestFirst(src: Bytes, pat: Bytes, s: nat, next: nat, caps: seq<Capture>, k: nat, most: nat, o: Outcome) returns (j: nat)
    requires k <= most && RunHeads(src, pat, s, next, caps, k, most, o)
    ensures k <= j <= most && Heads(src, pat, s + j, next, caps, o)
    ensures forall i: nat :: k <= i < j ==> Stops(src, pat, s, next, caps, i)
    decreases most - k
  {
    var here := RunTries(src, pat, s, next, caps, k, most, o);
    j := k;
    if !here { j := ShortestFirst(src, pat, s, next, caps, k + 1, most, o); }
  }

  /** From which count to which a quantifier lists its outcomes. */
  lemma RunOf(src: Bytes, pat: Bytes, s: nat, p: nat, caps: seq<Capture>, end: nat, o: Outcome) returns (from: nat, to: nat)
    requires Repeated(pat, p, end) && Heads(src, pat, s, p, caps, o)
    ensures RunHeads(src, pat, s, end + 1, caps, from, to, o)
    ensures var longest := LongestRun(src, pat, s, p, end);
      if pat[end] == STAR then from == longest && to == 0
      else if pat[end] == PLUS then from == longest >= to == 1
      else if pat[end] == MINUS then from == 0 && to == longest
      else from == (if longest >= 1 then 1 else 0) && to == 0
  {
    assert HeadIs(src, pat, s, p, caps, o);
    var longest := LongestRun(src, pat, s, p, end);
    var item := ItemAt(pat, p);
    assert Outcomes(src, pat, s, p, caps) == Repetitions(src, pat, s, caps, p, end, item.repeat, item.next);
    if pat[end] == STAR {
      from, to := longest, 0;
    } else if pat[end] == PLUS {
      from, to := longest, 1;
    } else if pat[end] == MINUS {
      from, to := 0, longest;
      if longest == 0 { SameAtOne(src, pat, s, end + 1, caps, 0); }
    } else {
      from, to := if longest >= 1 then 1 else 0, 0;
    }
  }

  /** What the first outcome of a repeated item takes. */
  lemma FirstCount(src: Bytes, pat: Bytes, s: nat, p: nat, caps: seq<Capture>, end: nat, o: Outcome) returns (k: nat)
    requires Repeated(pat, p, end) && Heads(src, pat, s, p, caps, o)
    ensures Repeats(src, pat, s, k, p, end) && Wins(src, pat, s, caps, p, end, end + 1, k) && Heads(src, pat, s + k, end + 1, caps, o)
  {
    var from, to := RunOf(src, pat, s, p, caps, end, o);
    if pat[end] == MINUS {
      k := LeastCount(src, pat, s, caps, p, end, end + 1, to, o);
    } else {
      k := MostCount(src, pat, s, caps, p, end, end + 1, from, to, o);
    }
  }

  lemma LeastCount(src: Bytes, pat: Bytes, s: nat, caps: seq<Capture>, start: nat, end: nat, next: nat, to: nat, o: Outcome) returns (k: nat)
    requires s <= |src| && next == end + 1 <= |pat| && CapturesWithin(caps, s) && end > 0 && pat[end] == MINUS
    requires RunHeads(src, pat, s, next, caps, 0, to, o) && to == LongestRun(src, pat, s, start, end)
    ensures Repeats(src, pat, s, k, start, end) && Wins(src, pat, s, caps, start, end, next, k) && Heads(src, pat, s + k, next, caps, o)
  {
    k := ShortestFirst(src, pat, s, next, caps, 0, to, o);
    LeastWins(src, pat, s, caps, start, end, next, k);
    ShortRepeats(src, pat, s, start, end, k);
  }

  lemma MostCount(src: Bytes, pat: Bytes, s: nat, caps: seq<Capture>, start: nat, end: nat, next: nat, from: nat, to: nat, o: Outcome) returns (k: nat)
    requires s <= |src| && next == end + 1 <= |pat| && CapturesWithin(caps, s) && end > 0 && pat[end] != MINUS
    requires RunHeads(src, pat, s, next, caps, from, to, o) && to <= from && (pat[end] == PLUS ==> to == 1)
    requires var longest := LongestRun(src, pat, s, start, end);
      if pat[end] == STAR || pat[end] == PLUS then from == longest else from == if longest >= 1 then 1 else 0
    ensures Repeats(src, pat, s, k, start, end) && Wins(src, pat, s, caps, start, end, next, k) && Heads(src, pat, s + k, next, caps, o)
  {
    k := LongestFirst(src, pat, s, next, caps, from, to, o);
    MostWins(src, pat, s, caps, start, end, next, k, from);
    ShortRepeats(src, pat, s, start, end, k);
  }

  lemma ShortRepeats(src: Bytes, pat: Bytes, s: nat, start: nat, end: nat, k: nat)
    requires s <= |src| && end > 0 && k <= LongestRun(src, pat, s, start, end)
    ensures Repeats(src, pat, s, k, start, end)
  {
    RunsAreShort(src, pat, s, start, end);
  }

  lemma LeastWins(src: Bytes, pat: Bytes, s: nat, caps: seq<Capture>, start: nat, end: nat, next: nat, k: nat)
    requires s <= |src| && next == end + 1 <= |pat| && CapturesWithin(caps, s) && end > 0 && pat[end] == MINUS
    requires forall i: nat :: 0 <= i < k ==> Stops(src, pat, s, next, caps, i)
    ensures Wins(src, pat, s, caps, start, end, next, k)
  {
    forall j: nat | GoesOn(src, pat, s, caps, start, end, next, j) ensures j >= k {
      GoingOn(src, pat, s, caps, start, end, next, j);
    }
  }

  lemma MostWins(src: Bytes, pat: Bytes, s: nat, caps: seq<Capture>, start: nat, end: nat, next: nat, k: nat, from: nat)
    requires s <= |src| && next == end + 1 <= |pat| && CapturesWithin(caps, s) && end > 0 && k <= from
    requires forall i: nat :: k < i <= from ==> Stops(src, pat, s, next, caps, i)
    requires pat[end] == PLUS ==> k >= 1
    requires var longest := LongestRun(src, pat, s, start, end);
      if pat[end] == STAR || pat[end] == PLUS then from == longest else pat[end] != MINUS && from == if longest >= 1 then 1 else 0
    ensures Wins(src, pat, s, caps, start, end, next, k)
  {
    RunsAreShort(src, pat, s, start, end);
    forall j: nat | GoesOn(src, pat, s, caps, start, end, next, j) && j <= from ensures j <= k {
      GoingOn(src, pat, s, caps, start, end, next, j);
    }
  }

  /** The first outcome at p is that of the place where the item there leads. */
  ghost predicate StepHeads(src: Bytes, pat: Bytes, s: nat, p: nat, caps: seq<Capture>, o: Outcome)
    requires s <= |src| && p <= |pat| && CapturesWithin(caps, s)
  {
    var step := StepOf(src, pat, s, p, caps);
    (step.Ends? && o == Match(step.result)) || (step.Goes? && HeadIs(src, pat, step.s, step.p, step.caps, o))
  }

  /** An item that is not repeated has the outcomes of the place where it leads. */
  lemma StepOutcomes(src: Bytes, pat: Bytes, s: nat, p: nat, caps: seq<Capture>, o: Outcome)
    requires s <= |src| && p <= |pat| && CapturesWithin(caps, s) && !IsRepeated(pat, p) && o.Match?
    requires HeadIs(src, pat, s, p, caps, o)
    ensures StepHeads(src, pat, s, p, caps, o)
  {
    var item := ItemAt(pat, p);
    if item.Single? {
      OnceHeads(src, pat, s, p, caps, o, item.end);
    } else if item.Balance? || item.Back? {
      LeapHeads(src, pat, s, p, caps, o);
    }
  }

  lemma LeapHeads(src: Bytes, pat: Bytes, s: nat, p: nat, caps: seq<Capture>, o: Outcome)
    requires s <= |src| && p <= |pat| && CapturesWithin(caps, s) && (ItemAt(pat, p).Balance? || ItemAt(pat, p).Back?) && o.Match?
    requires HeadIs(src, pat, s, p, caps, o)
    ensures StepHeads(src, pat, s, p, caps, o)
  {
  }

  lemma OnceHeads(src: Bytes, pat: Bytes, s: nat, p: nat, caps: seq<Capture>, o: Outcome, end: nat)
    requires s <= |src| && CapturesWithin(caps, s) && p < end <= |pat| && ItemAt(pat, p) == Single(p, end, Once, end) && o.Match?
    requires HeadIs(src, pat, s, p, caps, o)
    ensures StepHeads(src, pat, s, p, caps, o)
  {
    assert Outcomes(src, pat, s, p, caps) == Repetitions(src, pat, s, caps, p, end, Once, end);
  }

  /** An item that is not repeated derives what the place derives where it leads. */
  lemma StepDerives(src: Bytes, pat: Bytes, s: nat, p: nat, caps: seq<Capture>, r: Matching)
    requires s <= |src| && p <= |pat| && CapturesWithin(caps, s) && !IsRepeated(pat, p)
    requires StepGives(src, pat, s, p, caps, r)
    ensures Derives(src, pat, s, p, caps, r)
  {
    var item := ItemAt(pat, p);
    if item.Single? {
      OnceDerives(src, pat, s, p, caps, r, item.end);
    } else if item.Balance? || item.Back? {
      LeapDerives(src, pat, s, p, caps, r);
    }
  }

  /** And it derives nothing else. */
  lemma DerivesStep(src: Bytes, pat: Bytes, s: nat, p: nat, caps: seq<Capture>, r: Matching)
    requires s <= |src| && p <= |pat| && CapturesWithin(caps, s) && !IsRepeated(pat, p) && Derives(src, pat, s, p, caps, r)
    ensures StepGives(src, pat, s, p, caps, r)
  {
    var item := ItemAt(pat, p);
    if item.Single? {
      OnceOnly(src, pat, s, p, caps, r, item.end);
    } else if item.Balance? || item.Back? {
      LeapOnly(src, pat, s, p, caps, r);
    }
  }

  ghost predicate StepGives(src: Bytes, pat: Bytes, s: nat, p: nat, caps: seq<Capture>, r: Matching)
    requires s <= |src| && p <= |pat| && CapturesWithin(caps, s)
  {
    var step := StepOf(src, pat, s, p, caps);
    (step.Ends? && r == step.result) || (step.Goes? && Derives(src, pat, step.s, step.p, step.caps, r))
  }

  lemma LeapOnly(src: Bytes, pat: Bytes, s: nat, p: nat, caps: seq<Capture>, r: Matching)
    requires s <= |src| && p <= |pat| && CapturesWithin(caps, s) && (ItemAt(pat, p).Balance? || ItemAt(pat, p).Back?)
    requires Derives(src, pat, s, p, caps, r)
    ensures StepGives(src, pat, s, p, caps, r)
  {
  }

  lemma OnceOnly(src: Bytes, pat: Bytes, s: nat, p: nat, caps: seq<Capture>, r: Matching, end: nat)
    requires s <= |src| && CapturesWithin(caps, s) && p < end <= |pat| && ItemAt(pat, p) == Single(p, end, Once, end)
    requires Derives(src, pat, s, p, caps, r)
    ensures StepGives(src, pat, s, p, caps, r)
  {
    var k: nat :| Allows(Once, k) && Repeats(src, pat, s, k, p, end) && Derives(src, pat, s + k, end, Weakened(caps, s, s + k), r);
  }

  lemma LeapDerives(src: Bytes, pat: Bytes, s: nat, p: nat, caps: seq<Capture>, r: Matching)
    requires s <= |src| && p <= |pat| && CapturesWithin(caps, s) && (ItemAt(pat, p).Balance? || ItemAt(pat, p).Back?)
    requires var step := StepOf(src, pat, s, p, caps); step.Goes? && Derives(src, pat, step.s, step.p, step.caps, r)
    ensures Derives(src, pat, s, p, caps, r)
  {
  }

  lemma OnceDerives(src: Bytes, pat: Bytes, s: nat, p: nat, caps: seq<Capture>, r: Matching, end: nat)
    requires s < |src| && CapturesWithin(caps, s) && p < end <= |pat| && ItemAt(pat, p) == Single(p, end, Once, end)
    requires SingleMatch(pat, p, end, src[s]) && Derives(src, pat, s + 1, end, Weakened(caps, s, s + 1), r)
    ensures Derives(src, pat, s, p, caps, r)
  {
    assert Allows(Once, 1) && Repeats(src, pat, s, 1, p, end);
  }

  /** The first outcome in backtracking order is the preferred matching. */
  lemma {:induction false} FirstIsPreferred(src: Bytes, pat: Bytes, s: nat, p: nat, caps: seq<Capture>, r: Matching)
    requires Heads(src, pat, s, p, caps, Match(r))
    ensures Preferred(src, pat, s, p, caps, r)
    decreases |pat| - p
  {
    if IsRepeated(pat, p) {
      var end := ItemAt(pat, p).end;
      var k := FirstCount(src, pat, s, p, caps, end, Match(r));
      FirstIsPreferred(src, pat, s + k, end + 1, caps, r);
      assert Taken(src, pat, s, p, caps, r, end, k);
    } else {
      assert HeadIs(src, pat, s, p, caps, Match(r));
      StepOutcomes(src, pat, s, p, caps, Match(r));
      var step := StepOf(src, pat, s, p, caps);
      if step.Goes? { FirstIsPreferred(src, pat, step.s, step.p, step.caps, r); }
    }
  }

  lemma HeadIsPreferred(src: Bytes, pat: Bytes, s: nat, p: nat, caps: seq<Capture>, r: Matching)
    requires s <= |src| && p <= |pat| && CapturesWithin(caps, s)
    requires Outcomes(src, pat, s, p, caps) != [] && Outcomes(src, pat, s, p, caps)[0] == Match(r)
    ensures Preferred(src, pat, s, p, caps, r)
  {
    assert HeadIs(src, pat, s, p, caps, Match(r));
    FirstIsPreferred(src, pat, s, p, caps, r);
  }

  lemma SingleDerives(src: Bytes, pat: Bytes, s: nat, p: nat, caps: seq<Capture>, r: Matching, end: nat, k: nat)
    requires s <= |src| && p <= |pat| && CapturesWithin(caps, s) && Repeated(pat, p, end)
    requires Repeats(src, pat, s, k, p, end) && Wins(src, pat, s, caps, p, end, end + 1, k)
    requires Derives(src, pat, s + k, end + 1, Weakened(caps, s, s + k), r)
    ensures Derives(src, pat, s, p, caps, r)
  {
    var item := ItemAt(pat, p);
    assert Allows(item.repeat, k) && item.next == end + 1;
  }

  /** What is preferred is derived. */
  lemma {:induction false} PreferredDerives(src: Bytes, pat: Bytes, s: nat, p: nat, caps: seq<Capture>, r: Matching)
    requires s <= |src| && p <= |pat| && CapturesWithin(caps, s) && Preferred(src, pat, s, p, caps, r)
    ensures Derives(src, pat, s, p, caps, r)
    decreases |pat| - p
  {
    if IsRepeated(pat, p) {
      var end := ItemAt(pat, p).end;
      var k: nat :| Repeats(src, pat, s, k, p, end) && Taken(src, pat, s, p, caps, r, end, k);
      PreferredDerives(src, pat, s + k, end + 1, caps, r);
      SingleDerives(src, pat, s, p, caps, r, end, k);
    } else {
      var step := StepOf(src, pat, s, p, caps);
      if step.Goes? { PreferredDerives(src, pat, step.s, step.p, step.caps, r); }
      StepDerives(src, pat, s, p, caps, r);
    }
  }

  /** Two counts that win and go on are the same. */
  lemma OneWins(src: Bytes, pat: Bytes, s: nat, caps: seq<Capture>, start: nat, end: nat, next: nat, k: nat, j: nat)
    requires s <= |src| && next == end + 1 <= |pat| && CapturesWithin(caps, s) && end > 0 && IsQuantifier(pat[end])
    requires Wins(src, pat, s, caps, start, end, next, k) && GoesOn(src, pat, s, caps, start, end, next, k)
    requires Wins(src, pat, s, caps, start, end, next, j) && GoesOn(src, pat, s, caps, start, end, next, j)
    ensures k == j
  {
  }

  lemma TakenGoesOn(src: Bytes, pat: Bytes, s: nat, p: nat, caps: seq<Capture>, r: Matching, end: nat, k: nat)
    requires s <= |src| && p <= |pat| && CapturesWithin(caps, s) && end > 0 && Repeats(src, pat, s, k, p, end) && Taken(src, pat, s, p, caps, r, end, k)
    ensures Wins(src, pat, s, caps, p, end, end + 1, k) && GoesOn(src, pat, s, caps, p, end, end + 1, k)
  {
    PreferredDerives(src, pat, s + k, end + 1, caps, r);
    assert Leads(src, pat, s + k, end + 1, Weakened(caps, s, s + k));
  }

  /** The counts of two preferred matchings are the same. */
  lemma OneTaken(src: Bytes, pat: Bytes, s: nat, p: nat, caps: seq<Capture>, r: Matching, r': Matching, end: nat, k: nat, j: nat)
    requires s <= |src| && p <= |pat| && CapturesWithin(caps, s) && Repeated(pat, p, end)
    requires Repeats(src, pat, s, k, p, end) && Taken(src, pat, s, p, caps, r, end, k)
    requires Repeats(src, pat, s, j, p, end) && Taken(src, pat, s, p, caps, r', end, j)
    ensures k == j
  {
    TakenGoesOn(src, pat, s, p, caps, r, end, k);
    TakenGoesOn(src, pat, s, p, caps, r', end, j);
    OneWins(src, pat, s, caps, p, end, end + 1, k, j);
  }

  /** There is one preferred matching at most: nothing else needs to be said about the answer. */
  lemma {:induction false} PreferredUnique(src: Bytes, pat: Bytes, s: nat, p: nat, caps: seq<Capture>, r: Matching, r': Matching)
    requires s <= |src| && p <= |pat| && CapturesWithin(caps, s)
    requires Preferred(src, pat, s, p, caps, r) && Preferred(src, pat, s, p, caps, r')
    ensures r == r'
    decreases |pat| - p
  {
    if IsRepeated(pat, p) {
      var end := ItemAt(pat, p).end;
      var k: nat :| Repeats(src, pat, s, k, p, end) && Taken(src, pat, s, p, caps, r, end, k);
      var j: nat :| Repeats(src, pat, s, j, p, end) && Taken(src, pat, s, p, caps, r', end, j);
      OneTaken(src, pat, s, p, caps, r, r', end, k, j);
      PreferredUnique(src, pat, s + k, end + 1, caps, r, r');
    } else {
      var step := StepOf(src, pat, s, p, caps);
      if step.Goes? { PreferredUnique(src, pat, step.s, step.p, step.caps, r, r'); }
    }
  }

  // ----- class letters and sets -----

  /** The bytes that a lowercase class letter stands for, by ranges of ASCII. */
  predicate InClass(letter: char, c: Byte)
    requires letter in "acdlpsuwxz"
  {
    match letter
    case 'a' => 65 <= c <= 90 || 97 <= c <= 122
    case 'c' => c <= 31 || c == 127
    case 'd' => 48 <= c <= 57
    case 'l' => 97 <= c <= 122
    case 'p' => 33 <= c <= 47 || 58 <= c <= 64 || 91 <= c <= 96 || 123 <= c <= 126
    case 's' => 9 <= c <= 13 || c == 32
    case 'u' => 65 <= c <= 90
    case 'w' => 48 <= c <= 57 || 65 <= c <= 90 || 97 <= c <= 122
    case 'x' => 48 <= c <= 57 || 65 <= c <= 70 || 97 <= c <= 102
    case 'z' => c == 0
  }

  lemma LetterMeaning(letter: char, c: Byte)
    requires letter in "acdlpsuwxz"
    ensures MatchClass(c, letter as int) <==> InClass(letter, c)
  {
  }

  lemma LetterComplement(letter: char, c: Byte)
    requires letter in "acdlpsuwxz"
    ensures MatchClass(c, letter as int - 32) <==> !MatchClass(c, letter as int)
  {
    assert Lowered(letter as int - 32) == letter as int == Lowered(letter as int);
  }

  /** A class letter behind % stands for its bytes, in uppercase for all others; any byte that is no letter for itself. */
  lemma ClassMeaning(letter: char, b: Byte, c: Byte)
    requires letter in "acdlpsuwxz"
    ensures MatchClass(c, letter as int) <==> InClass(letter, c)
    ensures MatchClass(c, letter as int - 32) <==> !InClass(letter, c)
    ensures !(65 <= b <= 90) && !(97 <= b <= 122) ==> (MatchClass(c, b) <==> c == b)
  {
    LetterMeaning(letter, c);
    LetterComplement(letter, c);
  }
}
