/** What a source text means: blanks, line breaks and comments separate tokens, and every token is read as it is
    written, on its line. */
module SourceLaws {
  import opened Wrappers
  import opened ChunkInputs
  import opened LexerSpec
  import opened Lexers
  import opened LiteralLaws

  /** A part of a source text. A numeral has digits and dots, an exponent mark with or without a sign, and what may follow. */
  datatype Element =
    | Blank(b: Byte) | LineEnd(feed: seq<Byte>) | Remark(text: seq<Byte>)
    | Name(text: seq<Byte>) | Sign(b: Byte) | LongSign(text: seq<Byte>) | Digits(head: seq<Byte>, mark: seq<Byte>, tail: seq<Byte>)
    | Quote(pieces: seq<Piece>, delimiter: Byte)

  predicate IsLetter(b: Byte) {
    65 <= b <= 90 || 97 <= b <= 122 || b == 95
  }

  predicate IsDecimal(b: Byte) {
    48 <= b <= 57
  }

  function Text(e: Element): seq<Byte> {
    match e
    case Blank(b) => [b]
    case LineEnd(feed) => feed
    case Remark(text) => [45, 45] + text
    case Name(text) => text
    case Sign(b) => [b]
    case LongSign(text) => text
    case Digits(head, mark, tail) => head + mark + tail
    case Quote(pieces, delimiter) => [delimiter] + Closed(pieces, delimiter)
  }

  /** Space, tab, vertical tab, form feed, newline and carriage return. */
  predicate IsGap(rest: seq<Byte>) {
    rest == [] || rest[0] in [32, 9, 11, 12, 10, 13]
  }

  predicate NumeralFits(head: seq<Byte>, mark: seq<Byte>, tail: seq<Byte>) {
    head != [] && IsDecimal(head[0]) && (forall i :: 0 <= i < |head| ==> IsDecimal(head[i]) || head[i] == 46) &&
    (forall i :: 0 <= i < |tail| ==> IsDecimal(tail[i]) || IsLetter(tail[i])) &&
    (if mark == [] then tail != [] ==> !IsDecimal(tail[0]) && tail[0] != 101 && tail[0] != 69
     else (mark[0] == 101 || mark[0] == 69) && (|mark| == 1 || (|mark| == 2 && (mark[1] == 43 || mark[1] == 45))))
  }

  /** Whether the element may stand before the rest. */
  predicate Stands(e: Element, rest: seq<Byte>, parse: seq<Byte> -> Option<nat>) {
    match e
    case Blank(b) => b in [32, 9, 11, 12]
    case LineEnd(feed) =>
      (feed == [10] && (rest == [] || rest[0] != 13)) || (feed == [13] && (rest == [] || rest[0] != 10)) || feed == [10, 13] || feed == [13, 10]
    case Remark(text) =>
      (forall i :: 0 <= i < |text| ==> text[i] != 10 && text[i] != 13) && (text == [] || text[0] != 91) && (rest == [] || rest[0] in [10, 13])
    case Name(text) =>
      text != [] && IsLetter(text[0]) && (forall i :: 0 <= i < |text| ==> IsLetter(text[i]) || IsDecimal(text[i])) && IsGap(rest)
    case Sign(b) => b !in [32, 9, 11, 12, 10, 13, 34, 39] && !IsLetter(b) && !IsDecimal(b) && IsGap(rest)
    case LongSign(text) => text in [[61, 61], [60, 61], [62, 61], [126, 61], [58, 58], [46, 46], [46, 46, 46]] && IsGap(rest)
    case Digits(head, mark, tail) => NumeralFits(head, mark, tail) && parse(head + mark + tail).Some? && IsGap(rest)
    case Quote(pieces, delimiter) => AllFit(pieces, delimiter) && (delimiter == 34 || delimiter == 39) && IsGap(rest)
  }

  function Source(elements: seq<Element>): seq<Byte> {
    if elements == [] then [] else Text(elements[0]) + Source(elements[1..])
  }

  predicate AllStand(elements: seq<Element>, parse: seq<Byte> -> Option<nat>) {
    elements != [] ==> Stands(elements[0], Source(elements[1..]), parse) && AllStand(elements[1..], parse)
  }

  /** The kind of token, if the element is one. */
  function KindOf(e: Element, parse: seq<Byte> -> Option<nat>): Option<Kind> {
    match e
    case Name(text) => Some(Word(text))
    case Sign(b) => Some(Symbol(b))
    case LongSign(text) => Some(Longer(text))
    case Digits(head, mark, tail) => if parse(head + mark + tail).Some? then Some(Numeral(parse(head + mark + tail).value)) else None
    case Quote(pieces, _) => Some(String(Values(pieces)))
    case _ => None
  }

  function LinesOf(e: Element): nat {
    match e
    case LineEnd(_) => 1
    case Quote(pieces, _) => Breaks(pieces)
    case _ => 0
  }

  /** The tokens of an element and of what follows it; only the number of lines is limited. */
  function With(e: Element, parse: seq<Byte> -> Option<nat>, line: nat, more: (seq<Token>, Option<Failure>)): (seq<Token>, Option<Failure>) {
    var kind := KindOf(e, parse);
    if line + LinesOf(e) >= MAX_LINE then ([], Some(TooManyLines(MAX_LINE)))
    else if kind.None? then more
    else ([Token(kind.value, line)] + more.0, more.1)
  }

  /** The tokens of the elements, each with the line it starts on, and the end. */
  function Meant(elements: seq<Element>, parse: seq<Byte> -> Option<nat>, line: nat): (seq<Token>, Option<Failure>) {
    if elements == [] then ([Token(EndOfText, line)], None)
    else With(elements[0], parse, line, Meant(elements[1..], parse, line + LinesOf(elements[0])))
  }

  // ----- gaps -----

  lemma BlankScans(b: Byte, rest: seq<Byte>, parse: seq<Byte> -> Option<nat>, ending: Ending, line: nat, r: Scanned<LexerSpec.Token>)
    requires b in [32, 9, 11, 12] && ScanAs(rest, parse, ending, line, r)
    ensures ScanAs([b] + rest, parse, ending, line, r)
  {
    assert ScanIs(rest, parse, ending, line, r);
    var s := [b] + rest;
    assert s[1..] == rest;
    SpanFurther(HorizontalSpace, s, 1);
    assert s[1 + Span(HorizontalSpace, rest)..] == rest[Span(HorizontalSpace, rest)..];
  }

  lemma FeedEnds(feed: seq<Byte>, rest: seq<Byte>, line: nat)
    requires Stands(LineEnd(feed), rest, _ => None)
    ensures feed != [] && IsNewline(feed[0])
    ensures LineBreak(feed + rest, AtEnd, line) == if line + 1 >= MAX_LINE then Fails(TooManyLines(line + 1)) else Read((), rest, line + 1)
  {
    var s := feed + rest;
    assert s[..|feed|] == feed && s[|feed|..] == rest;
    assert |feed| == 1 && rest != [] ==> s[1] == rest[0];
  }

  lemma FeedScans(feed: seq<Byte>, rest: seq<Byte>, parse: seq<Byte> -> Option<nat>, line: nat, r: Scanned<LexerSpec.Token>)
    requires Stands(LineEnd(feed), rest, parse)
    requires if line + 1 >= MAX_LINE then r == Fails(TooManyLines(line + 1)) else ScanAs(rest, parse, AtEnd, line + 1, r)
    ensures ScanAs(feed + rest, parse, AtEnd, line, r)
  {
    var s := feed + rest;
    FeedEnds(feed, rest, line);
    assert s[0] == feed[0];
    SpanIs(HorizontalSpace, s, 0);
    assert s[0..] == s;
    if line + 1 < MAX_LINE { assert ScanIs(rest, parse, AtEnd, line + 1, r); }
  }

  lemma RemarkEnds(text: seq<Byte>, rest: seq<Byte>, parse: seq<Byte> -> Option<nat>, line: nat)
    requires Stands(Remark(text), rest, parse)
    ensures Dash([45, 45] + text + rest, AtEnd, line) == Read(false, rest, line)
  {
    var s, body := [45, 45] + text + rest, text + rest;
    assert s[0] == 45 && s[1] == 45 && s[2..] == body && s[1..] != [];
    assert text != [] ==> body[0] == text[0];
    assert text == [] ==> body == rest;
    assert body[|text|..] == rest;
    SpanIs(LineBody, body, |text|);
    assert Comment(body, AtEnd, line) == LineRest(body, AtEnd, line);
  }

  lemma RemarkScans(text: seq<Byte>, rest: seq<Byte>, parse: seq<Byte> -> Option<nat>, line: nat, r: Scanned<LexerSpec.Token>)
    requires Stands(Remark(text), rest, parse) && ScanAs(rest, parse, AtEnd, line, r)
    ensures ScanAs([45, 45] + text + rest, parse, AtEnd, line, r)
  {
    var s := [45, 45] + text + rest;
    RemarkEnds(text, rest, parse, line);
    SpanIs(HorizontalSpace, s, 0);
    assert s[0..] == s && s[0] == 45;
    assert ScanIs(rest, parse, AtEnd, line, r);
  }

  // ----- tokens -----

  /** A token that starts at once. */
  lemma LexemeScans(s: seq<Byte>, parse: seq<Byte> -> Option<nat>, line: nat, kind: Kind, rest: seq<Byte>)
    requires s != [] && s[0] !in [32, 9, 11, 12, 10, 13, 45] && Lexeme(s, parse, AtEnd, line) == Read(kind, rest, line)
    ensures ScanAs(s, parse, AtEnd, line, Read(Token(kind, line), rest, line))
  {
    SpanIs(HorizontalSpace, s, 0);
    assert s[0..] == s;
  }

  lemma NameReads(text: seq<Byte>, rest: seq<Byte>, parse: seq<Byte> -> Option<nat>, line: nat)
    requires Stands(Name(text), rest, parse)
    ensures Lexeme(text + rest, parse, AtEnd, line) == Read(Word(text), rest, line)
  {
    var s := text + rest;
    var n := |text| - 1;
    assert s[0] == text[0] && s[..n + 1] == text && s[n + 1..] == rest && s[1..] == text[1..] + rest;
    SpanIs(NameBody, s[1..], n);
  }

  lemma SignReads(b: Byte, rest: seq<Byte>, parse: seq<Byte> -> Option<nat>, line: nat)
    requires Stands(Sign(b), rest, parse) && b != 45
    ensures Lexeme([b] + rest, parse, AtEnd, line) == Read(Symbol(b), rest, line)
  {
    var s := [b] + rest;
    assert s[1..] == rest && (rest != [] ==> s[1] == rest[0]);
    SpanIs(EqualSigns, rest, 0);
    assert rest[0..] == rest;
  }

  lemma MinusScans(rest: seq<Byte>, parse: seq<Byte> -> Option<nat>, line: nat)
    requires IsGap(rest)
    ensures ScanAs([45] + rest, parse, AtEnd, line, Read(Token(Symbol(45), line), rest, line))
  {
    var s := [45] + rest;
    assert s[1..] == rest && (rest != [] ==> s[1] == rest[0]);
    SpanIs(HorizontalSpace, s, 0);
    assert s[0..] == s;
  }

  lemma LongSignReads(text: seq<Byte>, rest: seq<Byte>, parse: seq<Byte> -> Option<nat>, line: nat)
    requires Stands(LongSign(text), rest, parse)
    ensures Lexeme(text + rest, parse, AtEnd, line) == Read(Longer(text), rest, line)
  {
    var s := text + rest;
    assert s[..|text|] == text && s[|text|..] == rest && s[0] == text[0] && s[1] == text[1];
    assert |text| == 2 && rest != [] ==> s[2] == rest[0];
    assert |text| == 3 ==> s[2] == text[2];
    assert text == [text[0], text[1]] || text == [46, 46, 46];
  }

  lemma HeadSpans(head: seq<Byte>, after: seq<Byte>)
    requires forall i :: 0 <= i < |head| ==> IsDecimal(head[i]) || head[i] == 46
    requires after == [] || !(IsDecimal(after[0]) || after[0] == 46)
    ensures Span(NumberBody, head + after) == |head| && (head + after)[|head|..] == after
  {
    SpanIs(NumberBody, head + after, |head|);
  }

  lemma MarkLength(mark: seq<Byte>, tail: seq<Byte>, rest: seq<Byte>)
    requires NumeralFits([48], mark, tail) && IsGap(rest)
    ensures ExponentLength(mark + (tail + rest)) == |mark|
    ensures var after := mark + (tail + rest); after != [] ==> !(IsDecimal(after[0]) || after[0] == 46)
  {
  }

  lemma TailSpans(tail: seq<Byte>, rest: seq<Byte>)
    requires (forall i :: 0 <= i < |tail| ==> IsDecimal(tail[i]) || IsLetter(tail[i])) && IsGap(rest)
    ensures Span(NameBody, tail + rest) == |tail|
  {
    SpanIs(NameBody, tail + rest, |tail|);
  }

  lemma NumeralSpans(head: seq<Byte>, mark: seq<Byte>, tail: seq<Byte>, rest: seq<Byte>)
    requires NumeralFits(head, mark, tail) && IsGap(rest)
    ensures NumeralLength(head + (mark + (tail + rest))) == |head| + |mark| + |tail|
  {
    var after := mark + (tail + rest);
    MarkLength(mark, tail, rest);
    HeadSpans(head, after);
    MantissaIs(head, mark, tail + rest);
    TailSpans(tail, rest);
  }

  lemma MantissaIs(head: seq<Byte>, mark: seq<Byte>, rest: seq<Byte>)
    requires Span(NumberBody, head + (mark + rest)) == |head| && ExponentLength(mark + rest) == |mark|
    ensures MantissaLength(head + (mark + rest)) == |head| + |mark| && (head + (mark + rest))[|head| + |mark|..] == rest
  {
    assert (head + (mark + rest))[|head|..] == mark + rest;
  }

  lemma NumeralReads(head: seq<Byte>, mark: seq<Byte>, tail: seq<Byte>, rest: seq<Byte>, parse: seq<Byte> -> Option<nat>, line: nat)
    requires Stands(Digits(head, mark, tail), rest, parse)
    ensures Lexeme(head + mark + tail + rest, parse, AtEnd, line) == Read(Numeral(parse(head + mark + tail).value), rest, line)
  {
    Grouped(head, mark, tail, rest);
    NumeralSpans(head, mark, tail, rest);
    NumeralLexeme(head + mark + tail, rest, parse, line);
  }

  lemma Grouped(head: seq<Byte>, mark: seq<Byte>, tail: seq<Byte>, rest: seq<Byte>)
    ensures head + mark + tail + rest == head + (mark + (tail + rest))
    ensures head != [] ==> (head + mark + tail)[0] == head[0]
  {
  }

  lemma NumeralLexeme(text: seq<Byte>, rest: seq<Byte>, parse: seq<Byte> -> Option<nat>, line: nat)
    requires text != [] && IsDecimal(text[0]) && NumeralLength(text + rest) == |text| && parse(text).Some?
    ensures Lexeme(text + rest, parse, AtEnd, line) == Read(Numeral(parse(text).value), rest, line)
  {
    var s := text + rest;
    assert s[0] == text[0] && s[..|text|] == text && s[|text|..] == rest && s[0..] == s;
  }

  // ----- whole texts -----

  /** An element that is a token is read as it. */
  lemma TokenScans(e: Element, rest: seq<Byte>, parse: seq<Byte> -> Option<nat>, line: nat)
    requires Stands(e, rest, parse) && KindOf(e, parse).Some? && line < MAX_LINE
    ensures ScanAs(Text(e) + rest, parse, AtEnd, line,
      if line + LinesOf(e) < MAX_LINE then Read(Token(KindOf(e, parse).value, line), rest, line + LinesOf(e)) else Fails(TooManyLines(MAX_LINE)))
  {
    match e
    case Name(text) =>
      NameReads(text, rest, parse, line);
      LexemeScans(text + rest, parse, line, Word(text), rest);
    case Sign(b) => SignScans(b, rest, parse, line);
    case LongSign(text) =>
      LongSignReads(text, rest, parse, line);
      LexemeScans(text + rest, parse, line, Longer(text), rest);
    case Digits(head, mark, tail) => NumeralScans(head, mark, tail, rest, parse, line);
    case Quote(pieces, delimiter) => StringReads(pieces, delimiter, rest, parse, AtEnd, line);
  }

  lemma SignScans(b: Byte, rest: seq<Byte>, parse: seq<Byte> -> Option<nat>, line: nat)
    requires Stands(Sign(b), rest, parse)
    ensures ScanAs([b] + rest, parse, AtEnd, line, Read(Token(Symbol(b), line), rest, line))
  {
    if b == 45 {
      MinusScans(rest, parse, line);
    } else {
      SignReads(b, rest, parse, line);
      LexemeScans([b] + rest, parse, line, Symbol(b), rest);
    }
  }

  lemma NumeralScans(head: seq<Byte>, mark: seq<Byte>, tail: seq<Byte>, rest: seq<Byte>, parse: seq<Byte> -> Option<nat>, line: nat)
    requires Stands(Digits(head, mark, tail), rest, parse)
    ensures ScanAs(head + mark + tail + rest, parse, AtEnd, line,
      Read(Token(Numeral(parse(head + mark + tail).value), line), rest, line))
  {
    NumeralReads(head, mark, tail, rest, parse, line);
    assert (head + mark + tail + rest)[0] == head[0];
    LexemeScans(head + mark + tail + rest, parse, line, Numeral(parse(head + mark + tail).value), rest);
  }

  /** A gap is passed. */
  lemma GapScans(e: Element, rest: seq<Byte>, parse: seq<Byte> -> Option<nat>, line: nat, r: Scanned<LexerSpec.Token>)
    requires Stands(e, rest, parse) && KindOf(e, parse).None?
    requires if line + LinesOf(e) >= MAX_LINE then e.LineEnd? && r == Fails(TooManyLines(line + 1)) else ScanAs(rest, parse, AtEnd, line + LinesOf(e), r)
    ensures ScanAs(Text(e) + rest, parse, AtEnd, line, r)
  {
    match e
    case Blank(b) => BlankScans(b, rest, parse, AtEnd, line, r);
    case LineEnd(feed) => FeedScans(feed, rest, parse, line, r);
    case Remark(text) => RemarkScans(text, rest, parse, line, r);
    case _ =>
  }

  /** Where the same comes next, the same tokens come. */
  lemma SameTokens(s: seq<Byte>, line: nat, rest: seq<Byte>, line': nat, parse: seq<Byte> -> Option<nat>, r: (seq<Token>, Option<Failure>))
    requires ScanAs(s, parse, AtEnd, line, Scan(rest, parse, AtEnd, line')) && TokensAs(rest, parse, AtEnd, line', r)
    ensures TokensAs(s, parse, AtEnd, line, r)
  {
    assert TokensIs(rest, parse, AtEnd, line', r);
    assert ScanIs(s, parse, AtEnd, line, Scan(rest, parse, AtEnd, line'));
  }

  lemma GapReads(e: Element, rest: seq<Byte>, parse: seq<Byte> -> Option<nat>, line: nat, next: nat, more: (seq<Token>, Option<Failure>))
    requires Stands(e, rest, parse) && KindOf(e, parse).None? && next == line + LinesOf(e) < MAX_LINE && TokensAs(rest, parse, AtEnd, next, more)
    ensures TokensAs(Text(e) + rest, parse, AtEnd, line, more)
  {
    GapScans(e, rest, parse, line, Scan(rest, parse, AtEnd, next));
    SameTokens(Text(e) + rest, line, rest, next, parse, more);
  }

  /** No element ends past the last line. */
  lemma TooFar(e: Element, rest: seq<Byte>, parse: seq<Byte> -> Option<nat>, line: nat)
    requires Stands(e, rest, parse) && line < MAX_LINE <= line + LinesOf(e)
    ensures TokensAs(Text(e) + rest, parse, AtEnd, line, ([], Some(TooManyLines(MAX_LINE))))
  {
    if KindOf(e, parse).Some? {
      TokenScans(e, rest, parse, line);
    } else {
      GapScans(e, rest, parse, line, Fails(TooManyLines(MAX_LINE)));
    }
    NoToken(Text(e) + rest, parse, AtEnd, line, TooManyLines(MAX_LINE));
  }

  lemma TokenReads(e: Element, rest: seq<Byte>, parse: seq<Byte> -> Option<nat>, line: nat, next: nat, more: (seq<Token>, Option<Failure>))
    requires Stands(e, rest, parse) && KindOf(e, parse).Some? && next == line + LinesOf(e) < MAX_LINE && TokensAs(rest, parse, AtEnd, next, more)
    ensures TokensAs(Text(e) + rest, parse, AtEnd, line, ([Token(KindOf(e, parse).value, line)] + more.0, more.1))
  {
    TokenScans(e, rest, parse, line);
    FirstToken(Text(e) + rest, parse, AtEnd, line, Token(KindOf(e, parse).value, line), rest, next, more);
  }

  /** What SourceReads says; to be taken apart only where MeantAt is named. */
  ghost predicate MeantAs(elements: seq<Element>, parse: seq<Byte> -> Option<nat>, line: nat) {
    forall x {:trigger MeantAt(elements, parse, x)} :: x == line ==> MeantAt(elements, parse, x)
  }

  ghost predicate MeantAt(elements: seq<Element>, parse: seq<Byte> -> Option<nat>, line: nat) {
    TokensAs(Source(elements), parse, AtEnd, line, Meant(elements, parse, line))
  }

  lemma SourceStep(parse: seq<Byte> -> Option<nat>, line: nat, e: Element, rest: seq<Byte>, next: nat,
                   more: (seq<Token>, Option<Failure>))
    requires Stands(e, rest, parse) && line < MAX_LINE && next == line + LinesOf(e) && (next < MAX_LINE ==> TokensAs(rest, parse, AtEnd, next, more))
    ensures TokensAs(Text(e) + rest, parse, AtEnd, line, With(e, parse, line, more))
  {
    if next >= MAX_LINE {
      TooFar(e, rest, parse, line);
    } else if KindOf(e, parse).Some? {
      TokenReads(e, rest, parse, line, next, more);
    } else {
      GapReads(e, rest, parse, line, next, more);
    }
  }

  /** The first element, the rest and what the rest means. */
  lemma Unfolded(elements: seq<Element>, parse: seq<Byte> -> Option<nat>, line: nat, e: Element, rest: seq<Byte>, next: nat,
                 more: (seq<Token>, Option<Failure>))
    requires elements != [] && AllStand(elements, parse) && e == elements[0] && next == line + LinesOf(e)
    requires rest == Source(elements[1..]) && more == Meant(elements[1..], parse, next)
    ensures Stands(e, rest, parse) && Source(elements) == Text(e) + rest && Meant(elements, parse, line) == With(e, parse, line, more)
  {
  }

  lemma MeantFrom(elements: seq<Element>, parse: seq<Byte> -> Option<nat>, line: nat, text: seq<Byte>, all: (seq<Token>, Option<Failure>))
    requires text == Source(elements) && all == Meant(elements, parse, line) && TokensAs(text, parse, AtEnd, line, all)
    ensures MeantAs(elements, parse, line)
  {
  }

  lemma MeantStep(elements: seq<Element>, parse: seq<Byte> -> Option<nat>, line: nat, next: nat)
    requires elements != [] && AllStand(elements, parse) && line < MAX_LINE && next == line + LinesOf(elements[0])
    requires next < MAX_LINE ==> MeantAs(elements[1..], parse, next)
    ensures MeantAs(elements, parse, line)
  {
    var e, rest, more := elements[0], Source(elements[1..]), Meant(elements[1..], parse, next);
    if next < MAX_LINE { assert MeantAt(elements[1..], parse, next); }
    Unfolded(elements, parse, line, e, rest, next, more);
    SourceStep(parse, line, e, rest, next, more);
    MeantFrom(elements, parse, line, Text(e) + rest, With(e, parse, line, more));
  }

  lemma {:induction false} AllMeant(elements: seq<Element>, parse: seq<Byte> -> Option<nat>, line: nat)
    requires AllStand(elements, parse) && line < MAX_LINE
    ensures MeantAs(elements, parse, line)
    decreases |elements|
  {
    if elements == [] {
      LastToken(parse, line);
    } else {
      var next := line + LinesOf(elements[0]);
      if next < MAX_LINE { AllMeant(elements[1..], parse, next); }
      MeantStep(elements, parse, line, next);
    }
  }

  /** A text is read as its elements mean: blanks, line breaks and comments come to nothing, everything else to one
      token each, with the line that it starts on. */
  lemma SourceReads(elements: seq<Element>, parse: seq<Byte> -> Option<nat>, line: nat)
    requires AllStand(elements, parse) && line < MAX_LINE
    ensures TokensAs(Source(elements), parse, AtEnd, line, Meant(elements, parse, line))
  {
    AllMeant(elements, parse, line);
    assert MeantAt(elements, parse, line);
  }

  /** Such a text is read so in whatever pieces it comes, and whenever the reader looks ahead. */
  method ReadSource(elements: seq<Element>, sizes: seq<nat>, controlled: bool, parse: seq<Byte> -> Option<nat>, looks: set<nat>)
    returns (tokens: seq<Token>, err: Option<Failure>)
    requires AllStand(elements, parse)
    ensures (tokens, err) == Meant(elements, parse, 1)
  {
    CutUnread(Source(elements), sizes);
    SourceReads(elements, parse, 1);
    tokens, err := ReadAs(Cut(Source(elements), sizes), controlled, parse, looks, Meant(elements, parse, 1));
  }
}