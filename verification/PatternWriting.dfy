/** Patterns as they are meant and as they are written: what is meant is what is matched. */
module PatternWriting {
  import opened Wrappers
  import opened PatternSpec
  import opened PatternLaws

  // ----- what is meant -----

  /** A member of a set: a byte, a range, a byte behind %, or a class letter. */
  datatype Member = Just(b: Byte) | Range(low: Byte, high: Byte) | Marked(b: Byte) | OfClass(letter: char, capital: bool)

  datatype Unit = AnyByte | Plain(b: Byte) | Quoted(b: Byte) | Class(letter: char, capital: bool) | Set(members: seq<Member>, complement: bool)

  datatype Count = One | Maybe | Star | Plus | Lazily

  datatype Piece =
    | Item(unit: Unit, count: Count) | Opening | Position | Closing | Between(x: Byte, y: Byte) | Border(unit: Unit) | Again(n: nat) | End

  predicate MemberHas(m: Member, c: Byte)
    requires MemberFits(m)
  {
    match m
    case Just(b) => c == b
    case Range(low, high) => low <= c <= high
    case Marked(b) => c == b
    case OfClass(letter, capital) => InClass(letter, c) != capital
  }

  predicate AnyHas(members: seq<Member>, c: Byte)
    requires forall i :: 0 <= i < |members| ==> MemberFits(members[i])
  {
    exists i :: 0 <= i < |members| && MemberHas(members[i], c)
  }

  predicate UnitHas(u: Unit, c: Byte)
    requires UnitFits(u)
  {
    match u
    case AnyByte => true
    case Plain(b) => c == b
    case Quoted(b) => c == b
    case Class(letter, capital) => InClass(letter, c) != capital
    case Set(members, complement) => AnyHas(members, c) != complement
  }

  // ----- how it is written -----

  predicate IsAlnum(b: Byte) {
    48 <= b <= 57 || 65 <= b <= 90 || 97 <= b <= 122
  }

  predicate IsLetter(letter: char) {
    letter in "acdlpsuwxz"
  }

  function LetterByte(letter: char, capital: bool): Byte
    requires IsLetter(letter)
  {
    letter as int - if capital then 32 else 0
  }

  predicate MemberFits(m: Member) {
    match m
    case Just(b) => b !in [0, 37, 45, 93, 94]
    case Range(low, high) => low !in [0, 37, 45, 93, 94] && high !in [0, 37, 45, 93, 94]
    case Marked(b) => b != 0 && !IsAlnum(b)
    case OfClass(letter, _) => IsLetter(letter)
  }

  /** A byte that stands for itself has no other meaning: it is none of ^ $ ( ) % . [ ] * + - ? and not the zero byte. */
  predicate UnitFits(u: Unit) {
    match u
    case AnyByte => true
    case Plain(b) => b !in [0, 94, 36, 40, 41, 37, 46, 91, 93, 42, 43, 45, 63]
    case Quoted(b) => b != 0 && !IsAlnum(b)
    case Class(letter, _) => IsLetter(letter)
    case Set(members, _) => members != [] && forall i :: 0 <= i < |members| ==> MemberFits(members[i])
  }

  function MemberText(m: Member): (r: Bytes)
    requires MemberFits(m)
    ensures r != []
  {
    match m
    case Just(b) => [b]
    case Range(low, high) => [low, 45, high]
    case Marked(b) => [37, b]
    case OfClass(letter, capital) => [37, LetterByte(letter, capital)]
  }

  function MembersText(members: seq<Member>): Bytes
    requires forall i :: 0 <= i < |members| ==> MemberFits(members[i])
  {
    if members == [] then [] else MemberText(members[0]) + MembersText(members[1..])
  }

  function SetStart(complement: bool): Bytes {
    if complement then [91, 94] else [91]
  }

  function UnitText(u: Unit): (r: Bytes)
    requires UnitFits(u)
    ensures r != []
  {
    match u
    case AnyByte => [46]
    case Plain(b) => [b]
    case Quoted(b) => [37, b]
    case Class(letter, capital) => [37, LetterByte(letter, capital)]
    case Set(members, complement) => SetStart(complement) + (MembersText(members) + [93])
  }

  function CountText(count: Count): Bytes {
    match count
    case One => []
    case Maybe => [63]
    case Star => [42]
    case Plus => [43]
    case Lazily => [45]
  }

  predicate PieceFits(piece: Piece) {
    match piece
    case Item(unit, _) => UnitFits(unit)
    case Between(x, y) => x != 0 && y != 0
    case Border(unit) => unit.Set? && UnitFits(unit)
    case Again(n) => 1 <= n <= 9
    case _ => true
  }

  function PieceText(piece: Piece): (r: Bytes)
    requires PieceFits(piece)
    ensures r != []
  {
    match piece
    case Item(unit, count) => UnitText(unit) + CountText(count)
    case Opening => [40]
    case Position => [40, 41]
    case Closing => [41]
    case Between(x, y) => [37, 98, x, y]
    case Border(unit) => [37, 102] + UnitText(unit)
    case Again(n) => [37, 48 + n]
    case End => [36]
  }

  /** The end is only at the end, and () is a position. */
  predicate Fits(pieces: seq<Piece>) {
    pieces != [] ==>
      PieceFits(pieces[0]) && Fits(pieces[1..]) &&
      (pieces[0].End? ==> |pieces| == 1) && (pieces[0].Opening? && |pieces| > 1 ==> !pieces[1].Closing?)
  }

  function Text(pieces: seq<Piece>): Bytes
    requires Fits(pieces)
  {
    if pieces == [] then [] else PieceText(pieces[0]) + Text(pieces[1..])
  }

  // ----- reading what is written -----

  /** From p on the pattern is t; to be taken apart only where RestIs is named. */
  ghost predicate Rest(pat: Bytes, p: nat, t: Bytes) {
    forall x {:trigger RestIs(pat, p, x)} :: x == t ==> RestIs(pat, p, x)
  }

  predicate RestIs(pat: Bytes, p: nat, t: Bytes) {
    p <= |pat| && pat[p..] == t
  }

  lemma RestAt(pat: Bytes, p: nat, t: Bytes, i: nat)
    requires Rest(pat, p, t)
    ensures At(pat, p + i) == At(t, i)
  {
    assert RestIs(pat, p, t);
    if i < |t| { assert pat[p..][i] == pat[p + i]; }
  }

  lemma RestOn(pat: Bytes, p: nat, a: Bytes, b: Bytes)
    requires Rest(pat, p, a + b)
    ensures Rest(pat, p + |a|, b) && p + |a| <= |pat|
  {
    assert RestIs(pat, p, a + b);
    assert pat[p..][|a|..] == b && pat[p..][|a|..] == pat[p + |a|..];
  }

  /** The first bytes of what is left. */
  lemma RestStarts(pat: Bytes, p: nat, t: Bytes)
    requires Rest(pat, p, t)
    ensures |t| > 0 ==> At(pat, p) == t[0] && p < |pat|
    ensures |t| > 1 ==> At(pat, p + 1) == t[1] && p + 1 < |pat|
    ensures |t| > 2 ==> At(pat, p + 2) == t[2] && p + 2 < |pat|
    ensures |t| > 3 ==> At(pat, p + 3) == t[3] && p + 3 < |pat|
    ensures |t| == 0 ==> At(pat, p) == 0
    ensures |t| == 1 ==> At(pat, p + 1) == 0
    ensures p <= |pat|
  {
    assert RestIs(pat, p, t);
    RestAt(pat, p, t, 0);
    RestAt(pat, p, t, 1);
    RestAt(pat, p, t, 2);
    RestAt(pat, p, t, 3);
  }

  lemma ClassByte(letter: char, capital: bool, c: Byte)
    requires IsLetter(letter)
    ensures MatchClass(c, LetterByte(letter, capital)) <==> InClass(letter, c) != capital
    ensures LetterByte(letter, capital) !in [98, 102] && LetterByte(letter, capital) >= 65
  {
    ClassMeaning(letter, 0, c);
  }

  // ----- sets -----

  /** The members are passed one by one. */
  lemma {:induction false} SetEnds(pat: Bytes, q: nat, members: seq<Member>, after: Bytes)
    requires members != [] && forall i :: 0 <= i < |members| ==> MemberFits(members[i])
    requires Rest(pat, q, MembersText(members) + ([93] + after))
    ensures SetEnd(pat, q) == Found(q + |MembersText(members)| + 1)
    decreases |members|
  {
    var m, t := members[0], MemberText(members[0]);
    var rest := MembersText(members[1..]) + ([93] + after);
    assert MembersText(members) + ([93] + after) == t + rest;
    RestStarts(pat, q, t + rest);
    RestOn(pat, q, t, rest);
    RestStarts(pat, q + |t|, rest);
    MemberPassed(pat, q, m, rest);
    if |members| > 1 {
      assert rest[0] == MemberText(members[1])[0];
      SetEnds(pat, q + |t|, members[1..], after);
    }
  }

  lemma MemberPassed(pat: Bytes, q: nat, m: Member, rest: Bytes)
    requires MemberFits(m) && rest != [] && Rest(pat, q, MemberText(m) + rest)
    ensures var n := |MemberText(m)|; SetEnd(pat, q) == if rest[0] == 93 then Found(q + n + 1) else SetEnd(pat, q + n)
  {
    RestStarts(pat, q, MemberText(m) + rest);
    if m.Range? {
      assert SetEnd(pat, q) == SetEnd(pat, q + 1);
      assert SetEnd(pat, q + 1) == SetEnd(pat, q + 2);
    }
  }

  /** A set contains what one of its members has. */
  lemma {:induction false} SetContains(pat: Bytes, q: nat, end: nat, members: seq<Member>, after: Bytes, c: Byte)
    requires forall i :: 0 <= i < |members| ==> MemberFits(members[i])
    requires Rest(pat, q, MembersText(members) + ([93] + after)) && end == q + |MembersText(members)|
    ensures SetHas(pat, q, end, c) <==> AnyHas(members, c)
    decreases |members|
  {
    if members != [] {
      var m, t := members[0], MemberText(members[0]);
      var rest := MembersText(members[1..]) + ([93] + after);
      assert MembersText(members) + ([93] + after) == t + rest;
      RestOn(pat, q, t, rest);
      if |members| > 1 {
        assert rest[0] == MemberText(members[1])[0] != 45;
      } else {
        assert rest[0] == 93;
      }
      MemberTested(pat, q, end, m, rest, c);
      SetContains(pat, q + |t|, end, members[1..], after, c);
      AnyFirst(members, c);
    }
  }

  lemma AnyFirst(members: seq<Member>, c: Byte)
    requires members != [] && forall i :: 0 <= i < |members| ==> MemberFits(members[i])
    ensures AnyHas(members, c) <==> MemberHas(members[0], c) || AnyHas(members[1..], c)
  {
    if AnyHas(members, c) {
      var i :| 0 <= i < |members| && MemberHas(members[i], c);
      if i > 0 { assert MemberHas(members[1..][i - 1], c); }
    }
    if AnyHas(members[1..], c) {
      var i :| 0 <= i < |members| - 1 && MemberHas(members[1..][i], c);
      assert MemberHas(members[i + 1], c);
    }
  }

  lemma MemberTested(pat: Bytes, q: nat, end: nat, m: Member, rest: Bytes, c: Byte)
    requires MemberFits(m) && rest != [] && rest[0] != 45 && Rest(pat, q, MemberText(m) + rest) && q + |MemberText(m)| <= end
    ensures SetHas(pat, q, end, c) <==> MemberHas(m, c) || SetHas(pat, q + |MemberText(m)|, end, c)
  {
    RestStarts(pat, q, MemberText(m) + rest);
    match m
    case Just(b) =>
    case Range(low, high) =>
    case Marked(b) => ClassMeaning('a', b, c);
    case OfClass(letter, capital) => ClassByte(letter, capital, c);
  }

  // ----- single items -----

  function UnitEnd(p: nat, u: Unit): nat
    requires UnitFits(u)
  {
    p + |UnitText(u)|
  }

  lemma SetText(members: seq<Member>, complement: bool, after: Bytes, rest: Bytes)
    requires UnitFits(Set(members, complement)) && rest == MembersText(members) + ([93] + after)
    ensures UnitText(Set(members, complement)) + after == SetStart(complement) + rest
    ensures |UnitText(Set(members, complement))| == |SetStart(complement)| + |MembersText(members)| + 1
    ensures rest != [] && rest[0] != 94
  {
    RegroupSet(SetStart(complement), MembersText(members), [93], after);
    assert rest[0] == MemberText(members[0])[0];
  }

  lemma RegroupSet(a: Bytes, b: Bytes, c: Bytes, d: Bytes)
    ensures a + (b + c) + d == a + (b + (c + d))
  {
  }

  lemma SetOpens(pat: Bytes, p: nat, members: seq<Member>, complement: bool, after: Bytes)
    requires UnitFits(Set(members, complement)) && Rest(pat, p, UnitText(Set(members, complement)) + after)
    ensures At(pat, p) == 91 && p < |pat| && (At(pat, p + 1) == 94 <==> complement)
    ensures Rest(pat, p + |SetStart(complement)|, MembersText(members) + ([93] + after))
    ensures UnitEnd(p, Set(members, complement)) == p + |SetStart(complement)| + |MembersText(members)| + 1
  {
    var rest := MembersText(members) + ([93] + after);
    SetText(members, complement, after, rest);
    SetStarts(pat, p, complement, rest);
  }

  lemma SetStarts(pat: Bytes, p: nat, complement: bool, rest: Bytes)
    requires rest != [] && rest[0] != 94 && Rest(pat, p, SetStart(complement) + rest)
    ensures At(pat, p) == 91 && p < |pat| && (At(pat, p + 1) == 94 <==> complement) && Rest(pat, p + |SetStart(complement)|, rest)
  {
    RestStarts(pat, p, SetStart(complement) + rest);
    RestOn(pat, p, SetStart(complement), rest);
  }

  lemma SetRead(pat: Bytes, p: nat, members: seq<Member>, complement: bool, after: Bytes, c: Byte)
    requires UnitFits(Set(members, complement)) && Rest(pat, p, UnitText(Set(members, complement)) + after)
    ensures var end := UnitEnd(p, Set(members, complement));
      At(pat, p) == 91 && p < |pat| && ClassEnd(pat, p) == Found(end) && (BracketMatch(pat, p, end - 1, c) <==> UnitHas(Set(members, complement), c))
  {
    SetOpens(pat, p, members, complement, after);
    var q := p + |SetStart(complement)|;
    SetEnds(pat, q, members, after);
    SetContains(pat, q, q + |MembersText(members)|, members, after, c);
  }

  /** A single item ends where its text does and matches what it has. */
  lemma UnitRead(pat: Bytes, p: nat, u: Unit, after: Bytes, c: Byte)
    requires UnitFits(u) && Rest(pat, p, UnitText(u) + after)
    ensures p < |pat| && ClassEnd(pat, p) == Found(UnitEnd(p, u)) && UnitEnd(p, u) <= |pat|
    ensures SingleMatch(pat, p, UnitEnd(p, u), c) <==> UnitHas(u, c)
  {
    RestStarts(pat, p, UnitText(u) + after);
    match u
    case AnyByte =>
    case Plain(b) =>
    case Quoted(b) => ClassMeaning('a', b, c);
    case Class(letter, capital) => ClassByte(letter, capital, c);
    case Set(members, complement) => SetRead(pat, p, members, complement, after, c);
  }

  function RepeatOf(count: Count): Repeat {
    match count
    case One => Once
    case Maybe => Optional
    case Star => Greedy(0)
    case Plus => Greedy(1)
    case Lazily => Lazy
  }

  /** A single item and its count. */
  lemma ItemRead(pat: Bytes, p: nat, u: Unit, count: Count, rest: Bytes)
    requires UnitFits(u) && Rest(pat, p, UnitText(u) + CountText(count) + rest)
    requires rest == [] || rest[0] !in [42, 43, 45, 63]
    requires u.Plain? ==> u.b !in [40, 41, 36]
    ensures var end := UnitEnd(p, u); ItemAt(pat, p) == Single(p, end, RepeatOf(count), end + |CountText(count)|)
  {
    var after := CountText(count) + rest;
    Regroup(UnitText(u), CountText(count), rest);
    UnitRead(pat, p, u, after, 0);
    UnitStarts(pat, p, u, after);
    RestOn(pat, p, UnitText(u), after);
    CountStands(pat, UnitEnd(p, u), count, rest);
    CountIs(pat, p, UnitEnd(p, u), count);
  }

  lemma UnitStarts(pat: Bytes, p: nat, u: Unit, after: Bytes)
    requires UnitFits(u) && Rest(pat, p, UnitText(u) + after)
    ensures At(pat, p) !in [0, 40, 41, 36] && (At(pat, p) == 37 ==> At(pat, p + 1) !in [98, 102] && !(48 <= At(pat, p + 1) <= 57))
  {
    RestStarts(pat, p, UnitText(u) + after);
    SecondByte(u, after);
  }

  lemma CountStands(pat: Bytes, end: nat, count: Count, rest: Bytes)
    requires Rest(pat, end, CountText(count) + rest) && (rest == [] || rest[0] !in [42, 43, 45, 63])
    ensures if count == One then At(pat, end) !in [42, 43, 45, 63] else CountText(count) == [At(pat, end)]
  {
    RestStarts(pat, end, CountText(count) + rest);
  }

  lemma CountIs(pat: Bytes, p: nat, end: nat, count: Count)
    requires p < |pat| && p < end <= |pat| && ClassEnd(pat, p) == Found(end) && At(pat, p) !in [0, 40, 41, 36]
    requires At(pat, p) == 37 ==> At(pat, p + 1) !in [98, 102] && !(48 <= At(pat, p + 1) <= 57)
    requires if count == One then At(pat, end) !in [42, 43, 45, 63] else CountText(count) == [At(pat, end)]
    ensures ItemAt(pat, p) == Single(p, end, RepeatOf(count), end + |CountText(count)|)
  {
  }

  /** Behind a % of a single item there is no b, f or digit. */
  lemma SecondByte(u: Unit, after: Bytes)
    requires UnitFits(u)
    ensures var t := UnitText(u) + after; t[0] == 37 ==> |t| > 1 && t[1] !in [98, 102] && !(48 <= t[1] <= 57)
    ensures (UnitText(u) + after)[0] !in [0, 40, 41, 36]
  {
    match u
    case Class(letter, capital) => ClassByte(letter, capital, 0);
    case _ =>
  }

  // ----- what a pattern means -----

  predicate Run(src: Bytes, s: nat, u: Unit, k: nat)
    requires UnitFits(u)
  {
    s + k <= |src| && forall i :: s <= i < s + k ==> UnitHas(u, src[i])
  }

  /** The innermost capture that is open. */
  ghost predicate Innermost(caps: seq<Capture>, l: nat) {
    l < |caps| && caps[l].length == -1 && forall i :: l < i < |caps| ==> caps[i].length != -1
  }

  /** From s to e the closings catch up with the openings, and not before. A byte that is both counts as closing. */
  ghost predicate BalancedTo(src: Bytes, s: nat, x: Byte, y: Byte, e: nat) {
    s + 1 < e <= |src| && src[s] == x && 1 + Excess(src, s + 1, e, x, y) == 0 && OpenUntil(src, s + 1, e, x, y, 1)
  }

  /** The byte at i, or the zero byte outside of the subject. */
  function Around(src: Bytes, i: int): Byte {
    if 0 <= i < |src| then src[i] else 0
  }

  /** The text of the n-th capture, which is closed and no position, comes again at s. */
  predicate ComesAgain(src: Bytes, s: nat, caps: seq<Capture>, n: nat)
    requires s <= |src| && CapturesWithin(caps, s) && n > 0
  {
    n <= |caps| && caps[n - 1].length >= 0 && s + caps[n - 1].length <= |src| &&
    src[caps[n - 1].init..caps[n - 1].init + caps[n - 1].length] == src[s..s + caps[n - 1].length]
  }

  /** What the pieces match from s on. With `best` every count is the one that wins; without, any that is allowed. */
  ghost predicate Means(best: bool, src: Bytes, s: nat, pieces: seq<Piece>, caps: seq<Capture>, r: Matching)
    requires s <= |src| && CapturesWithin(caps, s) && Fits(pieces)
    decreases |pieces|, 2
  {
    if pieces == [] then r == Matching(s, caps)
    else
      var rest := pieces[1..];
      match pieces[0]
      case End => s == |src| && r == Matching(s, caps)
      case Opening => |caps| < 32 && Means(best, src, s, rest, caps + [Capture(s, -1)], r)
      case Position => |caps| < 32 && Means(best, src, s, rest, caps + [Capture(s, -2)], r)
      case Closing =>
        exists l: nat :: Innermost(caps, l) && Means(best, src, s, rest, caps[l := Capture(caps[l].init, s - caps[l].init)], r)
      case Between(x, y) => exists e: nat :: BalancedTo(src, s, x, y, e) && Means(best, src, e, rest, Weakened(caps, s, e), r)
      case Border(unit) => !UnitHas(unit, Around(src, s - 1)) && UnitHas(unit, Around(src, s)) && Means(best, src, s, rest, caps, r)
      case Again(n) =>
        ComesAgain(src, s, caps, n) &&
        var e := s + caps[n - 1].length;
        Means(best, src, e, rest, Weakened(caps, s, e), r)
      case Item(u, count) =>
        if count == One then s < |src| && UnitHas(u, src[s]) && Means(best, src, s + 1, rest, Weakened(caps, s, s + 1), r)
        else exists k: nat {:trigger Run(src, s, u, k)} :: Run(src, s, u, k) && Counted(best, src, s, u, count, rest, caps, r, k)
  }

  /** The item is matched k times, and then the rest. */
  ghost predicate Counted(best: bool, src: Bytes, s: nat, u: Unit, count: Count, rest: seq<Piece>, caps: seq<Capture>, r: Matching, k: nat)
    requires s <= |src| && CapturesWithin(caps, s) && Fits(rest) && UnitFits(u)
    decreases |rest| + 1, 1
  {
    s + k <= |src| && Means(best, src, s + k, rest, Weakened(caps, s, s + k), r) &&
    match count
    case One => k == 1
    case Maybe => k <= 1 && (best && k == 0 && Run(src, s, u, 1) ==> !Possible(src, s + 1, rest, Weakened(caps, s, s + 1)))
    case Star =>
      best ==> forall j: nat {:trigger Run(src, s, u, j)} :: Run(src, s, u, j) && Possible(src, s + j, rest, Weakened(caps, s, s + j)) ==> j <= k
    case Plus =>
      k >= 1 &&
      (best ==> forall j: nat {:trigger Run(src, s, u, j)} :: Run(src, s, u, j) && Possible(src, s + j, rest, Weakened(caps, s, s + j)) ==> j <= k)
    case Lazily =>
      best ==> forall j: nat {:trigger Run(src, s, u, j)} :: Run(src, s, u, j) && Possible(src, s + j, rest, Weakened(caps, s, s + j)) ==> j >= k
  }

  /** Some matching of the pieces starts here. */
  ghost predicate Possible(src: Bytes, s: nat, pieces: seq<Piece>, caps: seq<Capture>)
    requires s <= |src| && CapturesWithin(caps, s) && Fits(pieces)
    decreases |pieces|, 3
  {
    exists r :: Means(false, src, s, pieces, caps, r)
  }

  // ----- reading the pieces -----

  function ItemOf(piece: Piece, p: nat): PatternSpec.Item
    requires PieceFits(piece)
  {
    match piece
    case Item(u, count) => Single(p, UnitEnd(p, u), RepeatOf(count), UnitEnd(p, u) + |CountText(count)|)
    case Opening => Open(-1, p + 1)
    case Position => Open(-2, p + 2)
    case Closing => Close(p + 1)
    case Between(x, y) => Balance(x, y, p + 4)
    case Border(unit) => Frontier(p + 2, UnitEnd(p + 2, unit))
    case Again(n) => Back(48 + n, p + 2)
    case End => AtEnd
  }

  /** What is written for pieces starts with none of the bytes that are counts. */
  lemma NoCountFirst(pieces: seq<Piece>)
    requires Fits(pieces)
    ensures Text(pieces) != [] ==> Text(pieces)[0] !in [42, 43, 45, 63]
    ensures Text(pieces) == [] <==> pieces == []
    ensures pieces != [] && Text(pieces)[0] == 41 ==> pieces[0].Closing?
  {
    if pieces != [] {
      assert Text(pieces)[0] == PieceText(pieces[0])[0];
      if pieces[0].Item? { assert PieceText(pieces[0])[0] == UnitText(pieces[0].unit)[0]; }
    }
  }

  lemma BorderRead(pat: Bytes, p: nat, unit: Unit, rest: Bytes)
    requires PieceFits(Border(unit)) && Rest(pat, p, PieceText(Border(unit)) + rest)
    ensures p < |pat| && ItemAt(pat, p) == ItemOf(Border(unit), p)
  {
    var after := UnitText(unit) + rest;
    assert PieceText(Border(unit)) + rest == [37, 102] + after;
    RestStarts(pat, p, [37, 102] + after);
    RestOn(pat, p, [37, 102], after);
    assert after[0] == 91;
    UnitRead(pat, p + 2, unit, rest, 0);
  }

  lemma MarkRead(pat: Bytes, p: nat, piece: Piece, rest: Bytes)
    requires PieceFits(piece) && !piece.Item? && !piece.Border? && Rest(pat, p, PieceText(piece) + rest)
    requires (piece.Opening? && rest != [] ==> rest[0] != 41) && (piece.End? ==> rest == [])
    ensures p < |pat| && ItemAt(pat, p) == ItemOf(piece, p)
  {
    RestStarts(pat, p, PieceText(piece) + rest);
  }

  lemma ItemStands(pat: Bytes, p: nat, piece: Piece, rest: Bytes)
    requires PieceFits(piece) && piece.Item? && Rest(pat, p, PieceText(piece) + rest) && (rest == [] || rest[0] !in [42, 43, 45, 63])
    ensures p < |pat| && ItemAt(pat, p) == ItemOf(piece, p)
  {
    RestStarts(pat, p, PieceText(piece) + rest);
    ItemRead(pat, p, piece.unit, piece.count, rest);
  }

  /** What follows a piece does not change it. */
  lemma Follows(pieces: seq<Piece>)
    requires pieces != [] && Fits(pieces)
    ensures var rest := Text(pieces[1..]);
      Text(pieces) == PieceText(pieces[0]) + rest && (rest == [] || rest[0] !in [42, 43, 45, 63]) &&
      (pieces[0].Opening? && rest != [] ==> rest[0] != 41) && (pieces[0].End? ==> rest == [])
  {
    NoCountFirst(pieces[1..]);
  }

  /** A piece stands at p, and behind it the rest; to be taken apart only where ReadsAt is named. */
  ghost predicate Reads(pat: Bytes, p: nat, piece: Piece, rest: Bytes) {
    forall x {:trigger ReadsAt(pat, x, piece, rest)} :: x == p ==> ReadsAt(pat, x, piece, rest)
  }

  ghost predicate ReadsAt(pat: Bytes, p: nat, piece: Piece, rest: Bytes) {
    PieceFits(piece) && p < |pat| && ItemAt(pat, p) == ItemOf(piece, p) && Rest(pat, p, PieceText(piece) + rest) &&
    p + |PieceText(piece)| <= |pat| && Rest(pat, p + |PieceText(piece)|, rest) && (rest == [] || rest[0] !in [42, 43, 45, 63])
  }

  lemma PieceStands(pat: Bytes, p: nat, piece: Piece, rest: Bytes)
    requires PieceFits(piece) && Rest(pat, p, PieceText(piece) + rest) && (rest == [] || rest[0] !in [42, 43, 45, 63])
    requires (piece.Opening? && rest != [] ==> rest[0] != 41) && (piece.End? ==> rest == [])
    ensures p < |pat| && ItemAt(pat, p) == ItemOf(piece, p)
  {
    if piece.Item? {
      ItemStands(pat, p, piece, rest);
    } else if piece.Border? {
      BorderRead(pat, p, piece.unit, rest);
    } else {
      MarkRead(pat, p, piece, rest);
    }
  }

  lemma PieceRead(pat: Bytes, p: nat, piece: Piece, rest: Bytes)
    requires PieceFits(piece) && Rest(pat, p, PieceText(piece) + rest) && (rest == [] || rest[0] !in [42, 43, 45, 63])
    requires (piece.Opening? && rest != [] ==> rest[0] != 41) && (piece.End? ==> rest == [])
    ensures Reads(pat, p, piece, rest)
  {
    RestOn(pat, p, PieceText(piece), rest);
    PieceStands(pat, p, piece, rest);
  }

  lemma NothingLeft(pat: Bytes, p: nat)
    requires Rest(pat, p, [])
    ensures p == |pat| && ItemAt(pat, p) == Finish
  {
    assert RestIs(pat, p, []);
  }

  /** Whether the first piece leaves a choice. */
  predicate Chooses(piece: Piece) {
    piece.Item? && piece.count != One
  }

  /** What the first piece comes to, if it leaves no choice: the same for the pieces and for what is written. To be taken
      apart only where SameStep is named. */
  ghost predicate StepSame(best: bool, src: Bytes, pat: Bytes, s: nat, p: nat, pieces: seq<Piece>, caps: seq<Capture>, r: Matching)
    requires s <= |src| && p <= |pat| && CapturesWithin(caps, s) && Fits(pieces) && pieces != []
  {
    forall x {:trigger SameStep(best, src, pat, s, p, pieces, caps, x)} :: x == r ==> SameStep(best, src, pat, s, p, pieces, caps, x)
  }

  ghost predicate SameStep(best: bool, src: Bytes, pat: Bytes, s: nat, p: nat, pieces: seq<Piece>, caps: seq<Capture>, r: Matching)
    requires s <= |src| && p <= |pat| && CapturesWithin(caps, s) && Fits(pieces) && pieces != []
  {
    var step := StepOf(src, pat, s, p, caps);
    !IsRepeated(pat, p) && (step.Goes? ==> step.p == p + |PieceText(pieces[0])|) &&
    (Means(best, src, s, pieces, caps, r) <==>
      ((step.Ends? && r == step.result) || (step.Goes? && Means(best, src, step.s, pieces[1..], step.caps, r))))
  }

  lemma ClosingMeans(best: bool, src: Bytes, pat: Bytes, s: nat, p: nat, pieces: seq<Piece>, caps: seq<Capture>, r: Matching, rest: Bytes)
    requires s <= |src| && p <= |pat| && CapturesWithin(caps, s) && Fits(pieces) && pieces != [] && pieces[0].Closing? && Reads(pat, p, pieces[0], rest)
    ensures StepSame(best, src, pat, s, p, pieces, caps, r)
  {
    assert ReadsAt(pat, p, pieces[0], rest);
    var l := LastOpen(caps);
    assert l >= 0 ==> Innermost(caps, l);
    assert forall k: nat :: Innermost(caps, k) ==> l >= 0 && k == l;
  }

  lemma BalanceIs(src: Bytes, s: nat, x: Byte, y: Byte, e: nat)
    requires s <= |src|
    ensures BalancedTo(src, s, x, y, e) <==> Balanced(src, s, x, y) == e
  {
    if s + 1 < e <= |src| { BalanceEndIsFirst(src, s + 1, x, y, 1, e); }
  }

  lemma BetweenMeans(best: bool, src: Bytes, pat: Bytes, s: nat, p: nat, pieces: seq<Piece>, caps: seq<Capture>, r: Matching, rest: Bytes)
    requires s <= |src| && p <= |pat| && CapturesWithin(caps, s) && Fits(pieces) && pieces != [] && pieces[0].Between? && Reads(pat, p, pieces[0], rest)
    ensures StepSame(best, src, pat, s, p, pieces, caps, r)
  {
    assert ReadsAt(pat, p, pieces[0], rest);
    var x, y := pieces[0].x, pieces[0].y;
    forall e: nat ensures BalancedTo(src, s, x, y, e) <==> Balanced(src, s, x, y) == e {
      BalanceIs(src, s, x, y, e);
    }
  }

  lemma BorderHolds(src: Bytes, pat: Bytes, s: nat, p: nat, unit: Unit, rest: Bytes)
    requires Reads(pat, p, Border(unit), rest)
    ensures PieceFits(Border(unit))
    ensures FrontierHolds(src, pat, s, p + 2, UnitEnd(p + 2, unit)) <==> !UnitHas(unit, Around(src, s - 1)) && UnitHas(unit, Around(src, s))
  {
    assert ReadsAt(pat, p, Border(unit), rest);
    var after := UnitText(unit) + rest;
    Regroup([37, 102], UnitText(unit), rest);
    RestOn(pat, p, [37, 102], after);
    SetRead(pat, p + 2, unit.members, unit.complement, rest, At(src, s - 1));
    SetRead(pat, p + 2, unit.members, unit.complement, rest, At(src, s));
  }

  lemma BorderMeans(best: bool, src: Bytes, pat: Bytes, s: nat, p: nat, pieces: seq<Piece>, caps: seq<Capture>, r: Matching, rest: Bytes)
    requires s <= |src| && p <= |pat| && CapturesWithin(caps, s) && Fits(pieces) && pieces != [] && pieces[0].Border? && Reads(pat, p, pieces[0], rest)
    ensures StepSame(best, src, pat, s, p, pieces, caps, r)
  {
    assert ReadsAt(pat, p, pieces[0], rest);
    BorderHolds(src, pat, s, p, pieces[0].unit, rest);
  }

  /** A capture that opens, a position, and the end. */
  lemma MarkMeans(best: bool, src: Bytes, pat: Bytes, s: nat, p: nat, pieces: seq<Piece>, caps: seq<Capture>, r: Matching, rest: Bytes)
    requires s <= |src| && p <= |pat| && CapturesWithin(caps, s) && Fits(pieces) && pieces != [] && (pieces[0].Opening? || pieces[0].Position? || pieces[0].End?) && Reads(pat, p, pieces[0], rest)
    ensures StepSame(best, src, pat, s, p, pieces, caps, r)
  {
    assert ReadsAt(pat, p, pieces[0], rest);
  }

  lemma AgainMeans(best: bool, src: Bytes, pat: Bytes, s: nat, p: nat, pieces: seq<Piece>, caps: seq<Capture>, r: Matching, rest: Bytes)
    requires s <= |src| && p <= |pat| && CapturesWithin(caps, s) && Fits(pieces) && pieces != [] && pieces[0].Again? && Reads(pat, p, pieces[0], rest)
    ensures StepSame(best, src, pat, s, p, pieces, caps, r)
  {
    var n := pieces[0].n;
    AgainStep(src, pat, s, p, n, caps, rest);
    var step := StepOf(src, pat, s, p, caps);
    if step.Goes? {
      assert Weakened(caps, s, step.s) == step.caps;
      assert Means(best, src, s, pieces, caps, r) <==> Means(best, src, step.s, pieces[1..], step.caps, r);
    } else {
      assert !Means(best, src, s, pieces, caps, r);
    }
  }

  /** The text of a closed capture comes again. */
  lemma AgainStep(src: Bytes, pat: Bytes, s: nat, p: nat, n: nat, caps: seq<Capture>, rest: Bytes)
    requires s <= |src| && p <= |pat| && CapturesWithin(caps, s) && 1 <= n <= 9 && Reads(pat, p, Again(n), rest)
    ensures !IsRepeated(pat, p) && StepOf(src, pat, s, p, caps) ==
      if ComesAgain(src, s, caps, n) then Goes(s + caps[n - 1].length, p + 2, caps) else Fails
  {
    assert ReadsAt(pat, p, Again(n), rest);
    assert BackLevel(48 + n) == n - 1;
  }

  lemma NotRepeated(pat: Bytes, p: nat, u: Unit, rest: Bytes)
    requires Reads(pat, p, Item(u, One), rest)
    ensures UnitFits(u) && !IsRepeated(pat, p)
  {
    assert ReadsAt(pat, p, Item(u, One), rest);
    assert PieceText(Item(u, One)) == UnitText(u);
    RestStarts(pat, UnitEnd(p, u), rest);
  }

  lemma OnceMeans(best: bool, src: Bytes, pat: Bytes, s: nat, p: nat, pieces: seq<Piece>, caps: seq<Capture>, r: Matching, rest: Bytes)
    requires s <= |src| && p <= |pat| && CapturesWithin(caps, s) && Fits(pieces) && pieces != [] && pieces[0].Item? && pieces[0].count == One && Reads(pat, p, pieces[0], rest)
    ensures StepSame(best, src, pat, s, p, pieces, caps, r)
  {
    assert ReadsAt(pat, p, pieces[0], rest);
    NotRepeated(pat, p, pieces[0].unit, rest);
    assert PieceText(pieces[0]) == UnitText(pieces[0].unit);
    if s < |src| { UnitRead(pat, p, pieces[0].unit, rest, src[s]); }
  }

  lemma StepMeans(best: bool, src: Bytes, pat: Bytes, s: nat, p: nat, pieces: seq<Piece>, caps: seq<Capture>, r: Matching, rest: Bytes)
    requires s <= |src| && p <= |pat| && CapturesWithin(caps, s) && Fits(pieces) && pieces != [] && !Chooses(pieces[0])
    requires Reads(pat, p, pieces[0], rest)
    ensures StepSame(best, src, pat, s, p, pieces, caps, r)
  {
    match pieces[0]
    case Item(_, _) => OnceMeans(best, src, pat, s, p, pieces, caps, r, rest);
    case Border(_) => BorderMeans(best, src, pat, s, p, pieces, caps, r, rest);
    case Closing => ClosingMeans(best, src, pat, s, p, pieces, caps, r, rest);
    case Between(_, _) => BetweenMeans(best, src, pat, s, p, pieces, caps, r, rest);
    case Again(_) => AgainMeans(best, src, pat, s, p, pieces, caps, r, rest);
    case _ => MarkMeans(best, src, pat, s, p, pieces, caps, r, rest);
  }

  // ----- a piece that is repeated -----

  function CountByte(count: Count): Byte
    requires count != One
  {
    match count
    case Maybe => QUESTION
    case Star => STAR
    case Plus => PLUS
    case Lazily => MINUS
  }

  /** The pieces are written at p; to be taken apart only where SpelledAt is named. */
  ghost predicate Spelled(pat: Bytes, p: nat, pieces: seq<Piece>) {
    forall x {:trigger SpelledAt(pat, x, pieces)} :: x == p ==> SpelledAt(pat, x, pieces)
  }

  ghost predicate SpelledAt(pat: Bytes, p: nat, pieces: seq<Piece>) {
    Fits(pieces) && p <= |pat| && Rest(pat, p, Text(pieces))
  }

  /** A repeated item stands at p; to be taken apart only where RepeatingAt is named. */
  ghost predicate Repeating(pat: Bytes, p: nat, u: Unit, count: Count, end: nat, rest: seq<Piece>) {
    forall x {:trigger RepeatingAt(pat, x, u, count, end, rest)} :: x == p ==> RepeatingAt(pat, x, u, count, end, rest)
  }

  ghost predicate RepeatingAt(pat: Bytes, p: nat, u: Unit, count: Count, end: nat, rest: seq<Piece>) {
    UnitFits(u) && count != One && Fits(rest) && end == UnitEnd(p, u) &&
    Repeated(pat, p, end) && IsRepeated(pat, p) && pat[end] == CountByte(count) &&
    ItemAt(pat, p) == Single(p, end, RepeatOf(count), end + 1) && Rest(pat, p, UnitText(u) + (CountText(count) + Text(rest)))
  }

  lemma CountFollows(pat: Bytes, p: nat, u: Unit, count: Count, rest: seq<Piece>)
    requires UnitFits(u) && count != One && Fits(rest) && Rest(pat, p, UnitText(u) + (CountText(count) + Text(rest)))
    ensures UnitEnd(p, u) < |pat| && pat[UnitEnd(p, u)] == CountByte(count)
  {
    var after := CountText(count) + Text(rest);
    RestOn(pat, p, UnitText(u), after);
    RestStarts(pat, UnitEnd(p, u), after);
  }

  /** Where the text of a repeated item ends, and its byte. */
  lemma RepeatedRead(pat: Bytes, p: nat, pieces: seq<Piece>, u: Unit, count: Count) returns (end: nat)
    requires pieces != [] && Fits(pieces) && pieces[0] == Item(u, count) && count != One && Spelled(pat, p, pieces)
    ensures Repeating(pat, p, u, count, end, pieces[1..]) && p < end < |pat| && Spelled(pat, end + 1, pieces[1..])
  {
    assert SpelledAt(pat, p, pieces);
    Follows(pieces);
    end := UnitEnd(p, u);
    OneRepeated(pat, p, u, count, end, pieces[1..], Text(pieces[1..]));
  }

  lemma OneRepeated(pat: Bytes, p: nat, u: Unit, count: Count, end: nat, rest: seq<Piece>, text: Bytes)
    requires UnitFits(u) && count != One && end == UnitEnd(p, u) && Rest(pat, p, UnitText(u) + CountText(count) + text)
    requires Fits(rest) && text == Text(rest) && (text == [] || text[0] !in [42, 43, 45, 63])
    ensures RepeatingAt(pat, p, u, count, end, rest) && p < end < |pat| && Rest(pat, end + 1, text)
  {
    PieceRead(pat, p, Item(u, count), text);
    assert ReadsAt(pat, p, Item(u, count), text);
    Regroup(UnitText(u), CountText(count), text);
    CountFollows(pat, p, u, count, rest);
  }

  lemma Regroup(a: Bytes, b: Bytes, c: Bytes)
    ensures a + b + c == a + (b + c)
  {
  }

  lemma FirstRead(pat: Bytes, p: nat, pieces: seq<Piece>) returns (rest: Bytes)
    requires Fits(pieces) && pieces != [] && Spelled(pat, p, pieces)
    ensures Reads(pat, p, pieces[0], rest) && rest == Text(pieces[1..])
  {
    assert SpelledAt(pat, p, pieces);
    Follows(pieces);
    rest := Text(pieces[1..]);
    PieceRead(pat, p, pieces[0], rest);
  }

  lemma RestSpelled(pat: Bytes, next: nat, pieces: seq<Piece>, text: Bytes)
    requires Fits(pieces) && text == Text(pieces) && next <= |pat| && Rest(pat, next, text)
    ensures Spelled(pat, next, pieces)
  {
  }

  lemma RestLeft(pat: Bytes, p: nat, piece: Piece, rest: Bytes)
    requires Reads(pat, p, piece, rest)
    ensures PieceFits(piece) && p + |PieceText(piece)| <= |pat| && Rest(pat, p + |PieceText(piece)|, rest)
  {
    assert ReadsAt(pat, p, piece, rest);
  }

  /** What a piece without a choice leads to. */
  lemma StepRead(best: bool, src: Bytes, pat: Bytes, s: nat, p: nat, pieces: seq<Piece>, caps: seq<Capture>, r: Matching) returns (step: Step)
    requires s <= |src| && p <= |pat| && CapturesWithin(caps, s) && Fits(pieces) && pieces != [] && !Chooses(pieces[0]) && Spelled(pat, p, pieces)
    ensures step == StepOf(src, pat, s, p, caps) && StepSame(best, src, pat, s, p, pieces, caps, r)
    ensures step.Goes? ==> step.s <= |src| && step.p <= |pat| && CapturesWithin(step.caps, step.s) && Spelled(pat, step.p, pieces[1..])
  {
    var rest := FirstRead(pat, p, pieces);
    StepMeans(best, src, pat, s, p, pieces, caps, r, rest);
    step := StepOf(src, pat, s, p, caps);
    StepEnds(best, src, pat, s, p, pieces, caps, r, step);
    if step.Goes? {
      RestLeft(pat, p, pieces[0], rest);
      RestSpelled(pat, step.p, pieces[1..], rest);
    }
  }

  lemma StepEnds(best: bool, src: Bytes, pat: Bytes, s: nat, p: nat, pieces: seq<Piece>, caps: seq<Capture>, r: Matching, step: Step)
    requires s <= |src| && p <= |pat| && CapturesWithin(caps, s) && Fits(pieces) && pieces != []
    requires StepSame(best, src, pat, s, p, pieces, caps, r) && step == StepOf(src, pat, s, p, caps)
    ensures step.Goes? ==> step.s <= |src| && CapturesWithin(step.caps, step.s) && step.p == p + |PieceText(pieces[0])|
  {
    assert SameStep(best, src, pat, s, p, pieces, caps, r);
  }

  lemma RunsSame(src: Bytes, pat: Bytes, s: nat, p: nat, u: Unit, after: Bytes, k: nat)
    requires UnitFits(u) && Rest(pat, p, UnitText(u) + after)
    ensures Repeats(src, pat, s, k, p, UnitEnd(p, u)) <==> Run(src, s, u, k)
  {
    if s + k <= |src| {
      forall i | s <= i < s + k ensures SingleMatch(pat, p, UnitEnd(p, u), src[i]) <==> UnitHas(u, src[i]) {
        UnitRead(pat, p, u, after, src[i]);
      }
    }
  }

  /** The pieces mean what is written for them; to be taken apart only where AgreesOn is named. */
  ghost predicate Agrees(best: bool, src: Bytes, pat: Bytes, s: nat, p: nat, pieces: seq<Piece>, caps: seq<Capture>, r: Matching) {
    forall x {:trigger AgreesOn(best, src, pat, s, p, pieces, caps, x)} :: x == r ==> AgreesOn(best, src, pat, s, p, pieces, caps, x)
  }

  ghost predicate AgreesOn(best: bool, src: Bytes, pat: Bytes, s: nat, p: nat, pieces: seq<Piece>, caps: seq<Capture>, r: Matching) {
    s <= |src| && p <= |pat| && CapturesWithin(caps, s) && Fits(pieces) &&
    (Means(best, src, s, pieces, caps, r) <==> if best then Preferred(src, pat, s, p, caps, r) else Derives(src, pat, s, p, caps, r))
  }

  /** The same for the count k of a repeated item. */
  ghost predicate CountAgrees(best: bool, src: Bytes, pat: Bytes, s: nat, p: nat, u: Unit, count: Count, end: nat, rest: seq<Piece>, caps: seq<Capture>, r: Matching, k: nat) {
    forall x {:trigger CountAgreesOn(best, src, pat, s, p, u, count, end, rest, caps, r, x)} ::
      x == k ==> CountAgreesOn(best, src, pat, s, p, u, count, end, rest, caps, r, x)
  }

  ghost predicate CountAgreesOn(best: bool, src: Bytes, pat: Bytes, s: nat, p: nat, u: Unit, count: Count, end: nat, rest: seq<Piece>, caps: seq<Capture>, r: Matching, k: nat) {
    s <= |src| && p <= |pat| && CapturesWithin(caps, s) && Fits(rest) && UnitFits(u) && p < end < |pat| &&
    (Run(src, s, u, k) <==> Repeats(src, pat, s, k, p, end)) &&
    (Counted(best, src, s, u, count, rest, caps, r, k) <==>
      if best then Taken(src, pat, s, p, caps, r, end, k)
      else Derived(src, pat, s, p, end, end + 1, RepeatOf(count), caps, r, k))
  }

  /** k repetitions by the relation of the pattern. */
  ghost predicate Derived(src: Bytes, pat: Bytes, s: nat, start: nat, end: nat, next: nat, repeat: Repeat, caps: seq<Capture>, r: Matching, k: nat)
    requires s <= |src| && next <= |pat| && CapturesWithin(caps, s) && end > 0
  {
    Allows(repeat, k) && s + k <= |src| && Derives(src, pat, s + k, next, Weakened(caps, s, s + k), r)
  }

  lemma DerivedIs(src: Bytes, pat: Bytes, s: nat, p: nat, caps: seq<Capture>, r: Matching, end: nat, repeat: Repeat)
    requires s <= |src| && p <= |pat| && CapturesWithin(caps, s) && ItemAt(pat, p) == Single(p, end, repeat, end + 1)
    ensures p < end && end + 1 <= |pat|
    ensures Derives(src, pat, s, p, caps, r) <==> exists k: nat {:trigger Repeats(src, pat, s, k, p, end)} :: Repeats(src, pat, s, k, p, end) && Derived(src, pat, s, p, end, end + 1, repeat, caps, r, k)
  {
    if Derives(src, pat, s, p, caps, r) {
      var k: nat :| Allows(repeat, k) && Repeats(src, pat, s, k, p, end) && Derives(src, pat, s + k, end + 1, Weakened(caps, s, s + k), r);
      assert Derived(src, pat, s, p, end, end + 1, repeat, caps, r, k);
    }
  }

  lemma RunsHere(src: Bytes, pat: Bytes, s: nat, p: nat, u: Unit, count: Count, end: nat, rest: seq<Piece>, k: nat)
    requires Repeating(pat, p, u, count, end, rest)
    ensures UnitFits(u) && p < end < |pat| && (Run(src, s, u, k) <==> Repeats(src, pat, s, k, p, end))
  {
    assert RepeatingAt(pat, p, u, count, end, rest);
    RunsSame(src, pat, s, p, u, CountText(count) + Text(rest), k);
  }

  lemma CountedSame(src: Bytes, pat: Bytes, s: nat, p: nat, u: Unit, count: Count, end: nat, rest: seq<Piece>, caps: seq<Capture>, r: Matching, k: nat)
    requires s <= |src| && CapturesWithin(caps, s) && Fits(rest) && UnitFits(u) && count != One && p < end < |pat|
    requires Run(src, s, u, k) <==> Repeats(src, pat, s, k, p, end)
    requires s + k <= |src| ==> AgreesOn(false, src, pat, s + k, end + 1, rest, caps, r)
    ensures CountAgrees(false, src, pat, s, p, u, count, end, rest, caps, r, k)
  {
  }

  lemma CountedDerived(src: Bytes, pat: Bytes, s: nat, p: nat, u: Unit, count: Count, end: nat, rest: seq<Piece>, caps: seq<Capture>, r: Matching, k: nat)
    requires s <= |src| && CapturesWithin(caps, s) && Fits(rest) && UnitFits(u) && count != One && p < end < |pat|
    requires Repeating(pat, p, u, count, end, rest)
    requires s + k <= |src| ==> Agrees(false, src, pat, s + k, end + 1, rest, caps, r)
    ensures CountAgrees(false, src, pat, s, p, u, count, end, rest, caps, r, k)
  {
    RunsHere(src, pat, s, p, u, count, end, rest, k);
    if s + k <= |src| { assert AgreesOn(false, src, pat, s + k, end + 1, rest, caps, r); }
    CountedSame(src, pat, s, p, u, count, end, rest, caps, r, k);
  }

  lemma RepeatAgrees(best: bool, src: Bytes, pat: Bytes, s: nat, p: nat, pieces: seq<Piece>, u: Unit, count: Count, end: nat, caps: seq<Capture>, r: Matching)
    requires s <= |src| && CapturesWithin(caps, s) && Fits(pieces) && pieces != [] && pieces[0] == Item(u, count) && count != One && p <= |pat|
    requires Repeating(pat, p, u, count, end, pieces[1..])
    requires forall k: nat :: CountAgrees(best, src, pat, s, p, u, count, end, pieces[1..], caps, r, k)
    ensures Agrees(best, src, pat, s, p, pieces, caps, r)
  {
    forall k: nat ensures CountAgreesOn(best, src, pat, s, p, u, count, end, pieces[1..], caps, r, k) {
      assert CountAgrees(best, src, pat, s, p, u, count, end, pieces[1..], caps, r, k);
    }
    MeansCounted(best, src, s, pieces, u, count, caps, r);
    assert RepeatingAt(pat, p, u, count, end, pieces[1..]);
    var means := Means(best, src, s, pieces, caps, r);
    if best {
      PreferredTaken(src, pat, s, p, caps, r, end);
      BothTaken(src, pat, s, p, u, count, end, pieces[1..], caps, r, means, Preferred(src, pat, s, p, caps, r));
    } else {
      DerivedIs(src, pat, s, p, caps, r, end, RepeatOf(count));
      BothDerived(src, pat, s, p, u, count, end, pieces[1..], caps, r, means, Derives(src, pat, s, p, caps, r));
    }
  }

  lemma MeansCounted(best: bool, src: Bytes, s: nat, pieces: seq<Piece>, u: Unit, count: Count, caps: seq<Capture>, r: Matching)
    requires s <= |src| && CapturesWithin(caps, s) && Fits(pieces) && pieces != [] && pieces[0] == Item(u, count) && count != One
    ensures Means(best, src, s, pieces, caps, r) <==> exists k: nat {:trigger Run(src, s, u, k)} :: Run(src, s, u, k) && Counted(best, src, s, u, count, pieces[1..], caps, r, k)
  {
  }

  lemma PreferredTaken(src: Bytes, pat: Bytes, s: nat, p: nat, caps: seq<Capture>, r: Matching, end: nat)
    requires s <= |src| && p <= |pat| && CapturesWithin(caps, s) && IsRepeated(pat, p) && end == ItemAt(pat, p).end
    ensures Preferred(src, pat, s, p, caps, r) <==> exists k: nat {:trigger Repeats(src, pat, s, k, p, end)} :: Repeats(src, pat, s, k, p, end) && Taken(src, pat, s, p, caps, r, end, k)
  {
  }

  lemma BothDerived(src: Bytes, pat: Bytes, s: nat, p: nat, u: Unit, count: Count, end: nat, rest: seq<Piece>, caps: seq<Capture>, r: Matching, means: bool, derives: bool)
    requires s <= |src| && p <= |pat| && CapturesWithin(caps, s) && Fits(rest) && UnitFits(u) && p < end < |pat|
    requires forall k: nat :: CountAgreesOn(false, src, pat, s, p, u, count, end, rest, caps, r, k)
    requires means <==> exists k: nat {:trigger Run(src, s, u, k)} :: Run(src, s, u, k) && Counted(false, src, s, u, count, rest, caps, r, k)
    requires derives <==> (exists k: nat {:trigger Repeats(src, pat, s, k, p, end)} :: (Repeats(src, pat, s, k, p, end) &&
      Derived(src, pat, s, p, end, end + 1, RepeatOf(count), caps, r, k)))
    ensures means == derives
  {
    if means {
      var k: nat :| Run(src, s, u, k) && Counted(false, src, s, u, count, rest, caps, r, k);
      assert CountAgreesOn(false, src, pat, s, p, u, count, end, rest, caps, r, k);
    }
    if derives {
      var k: nat :| Repeats(src, pat, s, k, p, end) && Derived(src, pat, s, p, end, end + 1, RepeatOf(count), caps, r, k);
      assert CountAgreesOn(false, src, pat, s, p, u, count, end, rest, caps, r, k);
    }
  }

  lemma BothTaken(src: Bytes, pat: Bytes, s: nat, p: nat, u: Unit, count: Count, end: nat, rest: seq<Piece>, caps: seq<Capture>, r: Matching, means: bool, preferred: bool)
    requires s <= |src| && p <= |pat| && CapturesWithin(caps, s) && Fits(rest) && UnitFits(u) && p < end < |pat|
    requires forall k: nat :: CountAgreesOn(true, src, pat, s, p, u, count, end, rest, caps, r, k)
    requires means <==> exists k: nat {:trigger Run(src, s, u, k)} :: Run(src, s, u, k) && Counted(true, src, s, u, count, rest, caps, r, k)
    requires preferred <==> (exists k: nat {:trigger Repeats(src, pat, s, k, p, end)} :: (Repeats(src, pat, s, k, p, end) &&
      Taken(src, pat, s, p, caps, r, end, k)))
    ensures means == preferred
  {
    if means {
      var k: nat :| Run(src, s, u, k) && Counted(true, src, s, u, count, rest, caps, r, k);
      assert CountAgreesOn(true, src, pat, s, p, u, count, end, rest, caps, r, k);
    }
    if preferred {
      var k: nat :| Repeats(src, pat, s, k, p, end) && Taken(src, pat, s, p, caps, r, end, k);
      assert CountAgreesOn(true, src, pat, s, p, u, count, end, rest, caps, r, k);
    }
  }

  lemma NoPieces(best: bool, src: Bytes, pat: Bytes, s: nat, p: nat, caps: seq<Capture>, r: Matching)
    requires s <= |src| && p <= |pat| && CapturesWithin(caps, s) && Spelled(pat, p, [])
    ensures Agrees(best, src, pat, s, p, [], caps, r)
  {
    assert SpelledAt(pat, p, []);
    NothingLeft(pat, p);
  }

  /** A piece without a choice, when what it leads to agrees. */
  lemma StepAgrees(best: bool, src: Bytes, pat: Bytes, s: nat, p: nat, pieces: seq<Piece>, caps: seq<Capture>, r: Matching, step: Step)
    requires s <= |src| && p <= |pat| && CapturesWithin(caps, s) && Fits(pieces) && pieces != []
    requires step == StepOf(src, pat, s, p, caps) && StepSame(best, src, pat, s, p, pieces, caps, r)
    requires step.Goes? ==> Agrees(best, src, pat, step.s, step.p, pieces[1..], step.caps, r)
    ensures Agrees(best, src, pat, s, p, pieces, caps, r)
  {
    assert SameStep(best, src, pat, s, p, pieces, caps, r);
    if step.Goes? { assert AgreesOn(best, src, pat, step.s, step.p, pieces[1..], step.caps, r); }
    if !best {
      if Derives(src, pat, s, p, caps, r) {
        DerivesStep(src, pat, s, p, caps, r);
      } else if StepGives(src, pat, s, p, caps, r) {
        StepDerives(src, pat, s, p, caps, r);
      }
    }
  }

  /** What is meant is what is derived. */
  lemma {:induction false} DerivesAgrees(src: Bytes, pat: Bytes, s: nat, p: nat, pieces: seq<Piece>, caps: seq<Capture>, r: Matching)
    requires s <= |src| && CapturesWithin(caps, s) && Fits(pieces) && p <= |pat| && Spelled(pat, p, pieces)
    ensures Agrees(false, src, pat, s, p, pieces, caps, r)
    decreases |pieces|
  {
    if pieces == [] {
      NoPieces(false, src, pat, s, p, caps, r);
    } else if Chooses(pieces[0]) {
      var u, count, rest := pieces[0].unit, pieces[0].count, pieces[1..];
      var end := RepeatedRead(pat, p, pieces, u, count);
      forall k: nat ensures CountAgrees(false, src, pat, s, p, u, count, end, rest, caps, r, k) {
        if s + k <= |src| { DerivesAgrees(src, pat, s + k, end + 1, rest, Weakened(caps, s, s + k), r); }
        CountedDerived(src, pat, s, p, u, count, end, rest, caps, r, k);
      }
      RepeatAgrees(false, src, pat, s, p, pieces, u, count, end, caps, r);
    } else {
      var step := StepRead(false, src, pat, s, p, pieces, caps, r);
      if step.Goes? { DerivesAgrees(src, pat, step.s, step.p, pieces[1..], step.caps, r); }
      StepAgrees(false, src, pat, s, p, pieces, caps, r, step);
    }
  }

  lemma PossibleLeads(src: Bytes, pat: Bytes, s: nat, p: nat, pieces: seq<Piece>, caps: seq<Capture>)
    requires s <= |src| && CapturesWithin(caps, s) && Fits(pieces) && p <= |pat| && Spelled(pat, p, pieces)
    ensures Possible(src, s, pieces, caps) <==> Leads(src, pat, s, p, caps)
  {
    forall r ensures Means(false, src, s, pieces, caps, r) <==> Derives(src, pat, s, p, caps, r) {
      DerivesAgrees(src, pat, s, p, pieces, caps, r);
      assert AgreesOn(false, src, pat, s, p, pieces, caps, r);
    }
  }

  /** A count after which the rest can be matched, in both readings. */
  ghost predicate OnAgrees(src: Bytes, pat: Bytes, s: nat, p: nat, u: Unit, end: nat, rest: seq<Piece>, caps: seq<Capture>, j: nat)
    requires s <= |src| && CapturesWithin(caps, s) && Fits(rest) && UnitFits(u) && p < end < |pat|
  {
    (Run(src, s, u, j) <==> Repeats(src, pat, s, j, p, end)) &&
    (Run(src, s, u, j) ==>
      (Possible(src, s + j, rest, Weakened(caps, s, s + j)) <==> Leads(src, pat, s + j, end + 1, Weakened(caps, s, s + j))))
  }

  lemma OnGoes(src: Bytes, pat: Bytes, s: nat, p: nat, u: Unit, count: Count, end: nat, rest: seq<Piece>, caps: seq<Capture>, j: nat)
    requires s <= |src| && CapturesWithin(caps, s) && Fits(rest) && UnitFits(u) && p < end < |pat|
    requires Repeating(pat, p, u, count, end, rest) && Spelled(pat, end + 1, rest)
    ensures OnAgrees(src, pat, s, p, u, end, rest, caps, j)
  {
    RunsHere(src, pat, s, p, u, count, end, rest, j);
    if s + j <= |src| { PossibleLeads(src, pat, s + j, end + 1, rest, Weakened(caps, s, s + j)); }
  }

  /** The count that wins. */
  lemma CountedTaken(src: Bytes, pat: Bytes, s: nat, p: nat, u: Unit, count: Count, end: nat, rest: seq<Piece>, caps: seq<Capture>, r: Matching, k: nat)
    requires s <= |src| && CapturesWithin(caps, s) && Fits(rest) && UnitFits(u) && count != One && p < end < |pat|
    requires Repeating(pat, p, u, count, end, rest) && Spelled(pat, end + 1, rest)
    requires s + k <= |src| ==> Agrees(true, src, pat, s + k, end + 1, rest, caps, r)
    ensures CountAgrees(true, src, pat, s, p, u, count, end, rest, caps, r, k)
  {
    RunsHere(src, pat, s, p, u, count, end, rest, k);
    WinsHere(src, pat, s, p, u, count, end, rest, caps, k);
    if s + k <= |src| { assert AgreesOn(true, src, pat, s + k, end + 1, rest, caps, r); }
    TakenSame(src, pat, s, p, u, count, end, rest, caps, r, k);
  }

  /** What is said about the count k when the best is asked for. */
  ghost predicate Best(src: Bytes, s: nat, u: Unit, count: Count, rest: seq<Piece>, caps: seq<Capture>, k: nat)
    requires s <= |src| && CapturesWithin(caps, s) && Fits(rest) && UnitFits(u)
  {
    match count
    case One => k == 1
    case Maybe => k <= 1 && (k == 0 ==> !On(src, s, u, rest, caps, 1))
    case Star => forall j: nat :: On(src, s, u, rest, caps, j) ==> j <= k
    case Plus => k >= 1 && forall j: nat :: On(src, s, u, rest, caps, j) ==> j <= k
    case Lazily => forall j: nat :: On(src, s, u, rest, caps, j) ==> j >= k
  }

  ghost predicate On(src: Bytes, s: nat, u: Unit, rest: seq<Piece>, caps: seq<Capture>, j: nat)
    requires s <= |src| && CapturesWithin(caps, s) && Fits(rest) && UnitFits(u)
  {
    Run(src, s, u, j) && Possible(src, s + j, rest, Weakened(caps, s, s + j))
  }

  lemma WinsHere(src: Bytes, pat: Bytes, s: nat, p: nat, u: Unit, count: Count, end: nat, rest: seq<Piece>, caps: seq<Capture>, k: nat)
    requires s <= |src| && CapturesWithin(caps, s) && Fits(rest) && UnitFits(u) && count != One && p < end < |pat|
    requires Repeating(pat, p, u, count, end, rest) && Spelled(pat, end + 1, rest)
    ensures Best(src, s, u, count, rest, caps, k) <==> Wins(src, pat, s, caps, p, end, end + 1, k)
  {
    assert RepeatingAt(pat, p, u, count, end, rest);
    var next := end + 1;
    forall j: nat ensures On(src, s, u, rest, caps, j) <==> GoesOn(src, pat, s, caps, p, end, next, j) {
      OnGoes(src, pat, s, p, u, count, end, rest, caps, j);
    }
    BestWins(src, pat, s, p, u, count, end, next, rest, caps, k);
  }

  lemma BestWins(src: Bytes, pat: Bytes, s: nat, p: nat, u: Unit, count: Count, end: nat, next: nat, rest: seq<Piece>, caps: seq<Capture>, k: nat)
    requires s <= |src| && CapturesWithin(caps, s) && Fits(rest) && UnitFits(u) && count != One
    requires p < end < |pat| && next == end + 1 && pat[end] == CountByte(count)
    requires forall j: nat :: On(src, s, u, rest, caps, j) <==> GoesOn(src, pat, s, caps, p, end, next, j)
    ensures Best(src, s, u, count, rest, caps, k) <==> Wins(src, pat, s, caps, p, end, next, k)
  {
  }

  lemma TakenSame(src: Bytes, pat: Bytes, s: nat, p: nat, u: Unit, count: Count, end: nat, rest: seq<Piece>, caps: seq<Capture>, r: Matching, k: nat)
    requires s <= |src| && CapturesWithin(caps, s) && Fits(rest) && UnitFits(u) && count != One && p < end < |pat|
    requires Run(src, s, u, k) <==> Repeats(src, pat, s, k, p, end)
    requires Best(src, s, u, count, rest, caps, k) <==> Wins(src, pat, s, caps, p, end, end + 1, k)
    requires s + k <= |src| ==> AgreesOn(true, src, pat, s + k, end + 1, rest, caps, r)
    ensures CountAgrees(true, src, pat, s, p, u, count, end, rest, caps, r, k)
  {
    if s + k <= |src| { CountedBest(src, s, u, count, rest, caps, r, k); }
  }

  lemma CountedBest(src: Bytes, s: nat, u: Unit, count: Count, rest: seq<Piece>, caps: seq<Capture>, r: Matching, k: nat)
    requires s + k <= |src| && CapturesWithin(caps, s) && Fits(rest) && UnitFits(u)
    ensures Counted(true, src, s, u, count, rest, caps, r, k) <==>
      Best(src, s, u, count, rest, caps, k) && Means(true, src, s + k, rest, Weakened(caps, s, s + k), r)
  {
    forall j: nat {:trigger Run(src, s, u, j)} | Run(src, s, u, j) && Possible(src, s + j, rest, Weakened(caps, s, s + j))
      ensures On(src, s, u, rest, caps, j)
    {
    }
  }

  /** What is meant is what the matcher prefers. */
  lemma {:induction false} PreferredAgrees(src: Bytes, pat: Bytes, s: nat, p: nat, pieces: seq<Piece>, caps: seq<Capture>, r: Matching)
    requires s <= |src| && CapturesWithin(caps, s) && Fits(pieces) && p <= |pat| && Spelled(pat, p, pieces)
    ensures Agrees(true, src, pat, s, p, pieces, caps, r)
    decreases |pieces|
  {
    if pieces == [] {
      NoPieces(true, src, pat, s, p, caps, r);
    } else if Chooses(pieces[0]) {
      var u, count, rest := pieces[0].unit, pieces[0].count, pieces[1..];
      var end := RepeatedRead(pat, p, pieces, u, count);
      forall k: nat ensures CountAgrees(true, src, pat, s, p, u, count, end, rest, caps, r, k) {
        if s + k <= |src| { PreferredAgrees(src, pat, s + k, end + 1, rest, Weakened(caps, s, s + k), r); }
        CountedTaken(src, pat, s, p, u, count, end, rest, caps, r, k);
      }
      RepeatAgrees(true, src, pat, s, p, pieces, u, count, end, caps, r);
    } else {
      var step := StepRead(true, src, pat, s, p, pieces, caps, r);
      if step.Goes? { PreferredAgrees(src, pat, step.s, step.p, pieces[1..], step.caps, r); }
      StepAgrees(true, src, pat, s, p, pieces, caps, r, step);
    }
  }

  /** A pattern is matched as its pieces mean: some matching when the pieces have one, and the best one first. */
  lemma WrittenMeans(src: Bytes, s: nat, pieces: seq<Piece>, r: Matching)
    requires s <= |src| && Fits(pieces)
    ensures Means(false, src, s, pieces, [], r) <==> Derives(src, Text(pieces), s, 0, [], r)
    ensures Means(true, src, s, pieces, [], r) <==> Preferred(src, Text(pieces), s, 0, [], r)
  {
    assert Text(pieces)[0..] == Text(pieces);
    assert Rest(Text(pieces), 0, Text(pieces));
    DerivesAgrees(src, Text(pieces), s, 0, pieces, [], r);
    PreferredAgrees(src, Text(pieces), s, 0, pieces, [], r);
    assert AgreesOn(false, src, Text(pieces), s, 0, pieces, [], r) && AgreesOn(true, src, Text(pieces), s, 0, pieces, [], r);
  }
}
