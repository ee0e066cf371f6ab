/** Lua patterns as a relation: which ends and captures a pattern admits from a subject position,
    and in which order backtracking visits them (Lua 5.1 Reference Manual, section 5.4.1). */
module PatternSpec {

  type Byte = b: int | 0 <= b < 256
  type Bytes = seq<Byte>

  const ESCAPE: Byte := 37      // %
  const MAX_CAPTURES: nat := 32
  const MAX_DEPTH: nat := 8192

  const CAPTURE_POSITION: int := -2
  const CAPTURE_UNFINISHED: int := -1

  /** Reading past either end yields 0, the terminator of a C string. */
  function At(text: Bytes, i: int): Byte {
    if 0 <= i < |text| then text[i] else 0
  }

  // ----- single items -----

  predicate IsLower(c: Byte) { 97 <= c <= 122 }
  predicate IsUpper(c: Byte) { 65 <= c <= 90 }
  predicate IsDigit(c: Byte) { 48 <= c <= 57 }

  /** The byte with bit 5 set, which lowers an ASCII letter. */
  function Lowered(c: Byte): Byte {
    if c / 32 % 2 == 1 then c else c + 32
  }

  predicate IsAlpha(c: Byte) { IsLower(Lowered(c)) }
  predicate IsControl(c: Byte) { c < 32 || c == 127 }
  predicate IsPunct(c: Byte) { 32 < c < 127 && !IsAlpha(c) && !IsDigit(c) }
  predicate IsSpace(c: Byte) { c == 32 || 9 <= c <= 13 }
  predicate IsHexDigit(c: Byte) { IsDigit(c) || 97 <= Lowered(c) <= 102 }

  /** A class letter selects a set of bytes; its uppercase form selects the complement. */
  predicate MatchClass(c: Byte, charClass: Byte) {
    var l := Lowered(charClass);
    if l in [97, 99, 100, 108, 112, 115, 117, 119, 120, 122] then
      var member :=
        if l == 97 then IsAlpha(c)
        else if l == 99 then IsControl(c)
        else if l == 100 then IsDigit(c)
        else if l == 108 then IsLower(c)
        else if l == 112 then IsPunct(c)
        else if l == 115 then IsSpace(c)
        else if l == 117 then IsUpper(c)
        else if l == 119 then IsAlpha(c) || IsDigit(c)
        else if l == 120 then IsHexDigit(c)
        else c == 0;
      member == IsLower(charClass)
    else charClass == c
  }

  datatype Scan = Found(pos: nat) | Bad(message: string)

  /** The end of a bracketed set whose next member starts at `p`. */
  function SetEnd(pat: Bytes, p: nat): (r: Scan)
    ensures if r.Found? then p + 1 < r.pos <= |pat| else r.message != ""
    decreases |pat| - p
  {
    if At(pat, p) == 0 then Bad("malformed pattern (missing ']')")
    else
      var q := if pat[p] == ESCAPE && At(pat, p + 1) != 0 then p + 2 else p + 1;
      if At(pat, q) == 93 then Found(q + 1) else SetEnd(pat, q)
  }

  /** The offset just past the single item at `p`. */
  function ClassEnd(pat: Bytes, p: nat): (r: Scan)
    requires p < |pat|
    ensures if r.Found? then p < r.pos <= |pat| else r.message != ""
  {
    if pat[p] == ESCAPE then
      if At(pat, p + 1) == 0 then Bad("malformed pattern (ends with '%')") else Found(p + 2)
    else if pat[p] == 91 then
      SetEnd(pat, if At(pat, p + 1) == 94 then p + 2 else p + 1)
    else Found(p + 1)
  }

  /** Whether a member of the set in pat[p..end) matches `c`: an escaped class, a range or a byte. */
  predicate SetHas(pat: Bytes, p: nat, end: nat, c: Byte)
    decreases end - p
  {
    p < end &&
    if At(pat, p) == ESCAPE then MatchClass(c, At(pat, p + 1)) || SetHas(pat, p + 2, end, c)
    else if At(pat, p + 1) == 45 && p + 2 < end then
      At(pat, p) <= c <= At(pat, p + 2) || SetHas(pat, p + 3, end, c)
    else At(pat, p) == c || SetHas(pat, p + 1, end, c)
  }

  /** `p` is the opening bracket and `end` the closing one. */
  predicate BracketMatch(pat: Bytes, p: nat, end: nat, c: Byte) {
    if At(pat, p + 1) == 94 then !SetHas(pat, p + 2, end, c) else SetHas(pat, p + 1, end, c)
  }

  predicate SingleMatch(pat: Bytes, p: nat, end: nat, c: Byte)
    requires end > 0
  {
    if At(pat, p) == 46 then true
    else if At(pat, p) == ESCAPE then MatchClass(c, At(pat, p + 1))
    else if At(pat, p) == 91 then BracketMatch(pat, p, end - 1, c)
    else At(pat, p) == c
  }

  // ----- the items of a pattern -----

  datatype Repeat = Once | Optional | Greedy(least: nat) | Lazy

  datatype Item =
    | Finish
    | AtEnd
    | Open(what: int, next: nat)
    | Close(next: nat)
    | Balance(opening: Byte, closing: Byte, next: nat)
    | Frontier(bracket: nat, next: nat)
    | Back(digit: Byte, next: nat)
    | Single(start: nat, end: nat, repeat: Repeat, next: nat)
    | Malformed(message: string)

  function ItemAt(pat: Bytes, p: nat): (item: Item)
    ensures item.Open? || item.Close? || item.Balance? || item.Frontier? || item.Back? || item.Single? ==>
      p < item.next <= |pat|
    ensures item.Single? ==> item.start == p < item.end <= item.next
    ensures item.Frontier? ==> p < item.bracket < item.next
  {
    var c := At(pat, p);
    if c == 0 then Finish
    else if c == 40 then
      if At(pat, p + 1) == 41 then Open(CAPTURE_POSITION, p + 2) else Open(CAPTURE_UNFINISHED, p + 1)
    else if c == 41 then Close(p + 1)
    else if c == 36 && At(pat, p + 1) == 0 then AtEnd
    else if c == ESCAPE && At(pat, p + 1) == 98 then
      if At(pat, p + 2) == 0 || At(pat, p + 3) == 0 then Malformed("unbalanced pattern")
      else Balance(pat[p + 2], pat[p + 3], p + 4)
    else if c == ESCAPE && At(pat, p + 1) == 102 then
      if At(pat, p + 2) != 91 then Malformed("missing '[' after '%f' in pattern")
      else
        var end := ClassEnd(pat, p + 2);
        if end.Bad? then Malformed(end.message) else Frontier(p + 2, end.pos)
    else if c == ESCAPE && IsDigit(At(pat, p + 1)) then Back(pat[p + 1], p + 2)
    else
      var end := ClassEnd(pat, p);
      if end.Bad? then Malformed(end.message)
      else
        var q := At(pat, end.pos);
        if q == 63 then Single(p, end.pos, Optional, end.pos + 1)
        else if q == 42 then Single(p, end.pos, Greedy(0), end.pos + 1)
        else if q == 43 then Single(p, end.pos, Greedy(1), end.pos + 1)
        else if q == 45 then Single(p, end.pos, Lazy, end.pos + 1)
        else Single(p, end.pos, Once, end.pos)
  }

  // ----- captures -----

  datatype Capture = Capture(init: int, length: int)

  /** The innermost capture that is still open, or -1. */
  function LastOpen(caps: seq<Capture>): (r: int)
    ensures -1 <= r < |caps|
    ensures r >= 0 ==> caps[r].length == CAPTURE_UNFINISHED
    ensures forall i :: r < i < |caps| ==> caps[i].length != CAPTURE_UNFINISHED
  {
    if |caps| == 0 then -1
    else if caps[|caps| - 1].length == CAPTURE_UNFINISHED then |caps| - 1
    else LastOpen(caps[..|caps| - 1])
  }

  /** Captures lie in the part of the subject already consumed. */
  predicate CapturesWithin(caps: seq<Capture>, s: nat) {
    |caps| <= MAX_CAPTURES &&
    forall i :: 0 <= i < |caps| ==>
      0 <= caps[i].init <= s &&
      (caps[i].length == CAPTURE_POSITION || caps[i].length == CAPTURE_UNFINISHED ||
       (0 <= caps[i].length && caps[i].init + caps[i].length <= s))
  }

  function BackLevel(digit: Byte): int {
    digit - 49
  }

  predicate BackValid(digit: Byte, caps: seq<Capture>) {
    0 <= BackLevel(digit) < |caps| && caps[BackLevel(digit)].length != CAPTURE_UNFINISHED
  }

  /** The text of a closed capture occurs at `s`; a position capture has no text and never matches. */
  predicate BackMatches(src: Bytes, s: nat, capture: Capture)
    requires s <= |src| && 0 <= capture.init && capture.init + capture.length <= |src|
  {
    0 <= capture.length <= |src| - s &&
    src[capture.init..capture.init + capture.length] == src[s..s + capture.length]
  }

  // ----- balanced text -----

  /** The offset just past the byte that closes `depth` open brackets, scanning from `i`; -1 if none does. */
  function BalanceEnd(src: Bytes, i: nat, opening: Byte, closing: Byte, depth: nat): (r: int)
    requires depth > 0
    ensures r == -1 || i < r <= |src|
    decreases |src| - i
  {
    if i >= |src| then -1
    else if src[i] == closing then if depth == 1 then i + 1 else BalanceEnd(src, i + 1, opening, closing, depth - 1)
    else if src[i] == opening then BalanceEnd(src, i + 1, opening, closing, depth + 1)
    else BalanceEnd(src, i + 1, opening, closing, depth)
  }

  function Balanced(src: Bytes, s: nat, opening: Byte, closing: Byte): (r: int)
    ensures r == -1 || s < r <= |src|
  {
    if At(src, s) != opening || s >= |src| then -1 else BalanceEnd(src, s + 1, opening, closing, 1)
  }

  /** Openings minus closings in src[i..j), a byte that is both counting as a closing one. */
  function Excess(src: Bytes, i: nat, j: nat, opening: Byte, closing: Byte): int
    requires i <= j <= |src|
    decreases j - i
  {
    if i == j then 0
    else (if src[i] == closing then -1 else if src[i] == opening then 1 else 0) + Excess(src, i + 1, j, opening, closing)
  }

  predicate StillOpen(src: Bytes, i: nat, j: nat, opening: Byte, closing: Byte, depth: nat) {
    i <= j <= |src| && depth + Excess(src, i, j, opening, closing) > 0
  }

  ghost predicate OpenUntil(src: Bytes, i: nat, e: nat, opening: Byte, closing: Byte, depth: nat) {
    forall j :: i <= j < e ==> StillOpen(src, i, j, opening, closing, depth)
  }

  /** Balanced text ends at the first point where closings have caught up with openings. */
  lemma {:induction false} BalanceEndIsFirst(src: Bytes, i: nat, opening: Byte, closing: Byte, depth: nat, e: nat)
    requires depth > 0 && i < e <= |src|
    ensures BalanceEnd(src, i, opening, closing, depth) == e <==>
      depth + Excess(src, i, e, opening, closing) == 0 && OpenUntil(src, i, e, opening, closing, depth)
    decreases |src| - i
  {
    var d := depth + if src[i] == closing then -1 else if src[i] == opening then 1 else 0;
    forall j | i < j <= |src|
      ensures depth + Excess(src, i, j, opening, closing) == d + Excess(src, i + 1, j, opening, closing)
    {
    }
    if d == 0 {
      assert !StillOpen(src, i, i + 1, opening, closing, depth);
      assert e == i + 1 ==> OpenUntil(src, i, e, opening, closing, depth) by {
        assert StillOpen(src, i, i, opening, closing, depth);
      }
    } else if i + 1 < e {
      BalanceEndIsFirst(src, i + 1, opening, closing, d, e);
      if OpenUntil(src, i, e, opening, closing, depth) {
        var n := i + 1;
        forall j | n <= j < e ensures StillOpen(src, n, j, opening, closing, d) {
          assert StillOpen(src, i, j, opening, closing, depth);
        }
      }
      if OpenUntil(src, i + 1, e, opening, closing, d) {
        forall j | i <= j < e ensures StillOpen(src, i, j, opening, closing, depth) {
          assert j > i ==> StillOpen(src, i + 1, j, opening, closing, d);
        }
      }
    } else {
      assert depth + Excess(src, i, e, opening, closing) == d;
    }
  }

  // ----- the relation -----

  datatype Matching = Matching(end: nat, caps: seq<Capture>)

  /** `k` successive subject bytes from `s` match the single item. */
  predicate Repeats(src: Bytes, pat: Bytes, s: nat, k: nat, start: nat, end: nat)
    requires end > 0
  {
    s + k <= |src| && forall i :: s <= i < s + k ==> SingleMatch(pat, start, end, src[i])
  }

  predicate FrontierHolds(src: Bytes, pat: Bytes, s: nat, bracket: nat, next: nat)
    requires next > 0
  {
    !BracketMatch(pat, bracket, next - 1, At(src, s - 1)) && BracketMatch(pat, bracket, next - 1, At(src, s))
  }

  /** The pattern from `p` on can match the subject from `s` on with result `r`.  Order plays no part here. */
  ghost predicate Derives(src: Bytes, pat: Bytes, s: nat, p: nat, caps: seq<Capture>, r: Matching)
    requires s <= |src| && p <= |pat| && CapturesWithin(caps, s)
    decreases |pat| - p
  {
    match ItemAt(pat, p)
    case Finish => r == Matching(s, caps)
    case AtEnd => s == |src| && r == Matching(s, caps)
    case Open(what, next) => |caps| < MAX_CAPTURES && Derives(src, pat, s, next, caps + [Capture(s, what)], r)
    case Close(next) =>
      var l := LastOpen(caps);
      l >= 0 && Derives(src, pat, s, next, caps[l := Capture(caps[l].init, s - caps[l].init)], r)
    case Balance(x, y, next) =>
      var e := Balanced(src, s, x, y);
      e >= 0 && Derives(src, pat, e, next, Weakened(caps, s, e), r)
    case Frontier(bracket, next) => FrontierHolds(src, pat, s, bracket, next) && Derives(src, pat, s, next, caps, r)
    case Back(digit, next) =>
      BackValid(digit, caps) && BackMatches(src, s, caps[BackLevel(digit)]) &&
      var e := s + caps[BackLevel(digit)].length;
      Derives(src, pat, e, next, Weakened(caps, s, e), r)
    case Single(start, end, repeat, next) =>
      exists k: nat :: Allows(repeat, k) && Repeats(src, pat, s, k, start, end) &&
        Derives(src, pat, s + k, next, Weakened(caps, s, s + k), r)
    case Malformed(_) => false
  }

  /** Captures stay within a longer consumed part. */
  function Weakened(caps: seq<Capture>, s: nat, e: nat): (r: seq<Capture>)
    requires CapturesWithin(caps, s) && s <= e
    ensures r == caps && CapturesWithin(r, e)
  {
    caps
  }

  predicate Allows(repeat: Repeat, k: nat) {
    match repeat
    case Once => k == 1
    case Optional => k <= 1
    case Greedy(least) => k >= least
    case Lazy => true
  }
}
