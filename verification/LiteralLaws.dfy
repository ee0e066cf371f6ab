/** What a quoted string means: every way to write a byte is read as that byte. */
module LiteralLaws {
  import opened Wrappers
  import opened ChunkInputs
  import opened LexerSpec
  import opened Lexers

  /** How a byte is written inside quotes: as it stands, by a letter, by one to three decimal digits, behind a backslash,
      or as a line break behind a backslash. */
  datatype Style = Plain | Lettered | Numbered(digits: nat) | Itself | Continued(feed: seq<Byte>)

  datatype Piece = Piece(value: Byte, style: Style)

  /** The letters of bell, backspace, tab, newline, vertical tab, form feed and carriage return. */
  function LetterFor(value: Byte): Byte
    requires 7 <= value <= 13
  {
    if value == 7 then 97        // a
    else if value == 8 then 98   // b
    else if value == 9 then 116  // t
    else if value == 10 then 110 // n
    else if value == 11 then 118 // v
    else if value == 12 then 102 // f
    else 114                     // r
  }

  function Written(p: Piece): seq<Byte> {
    match p.style
    case Plain => [p.value]
    case Lettered => if 7 <= p.value <= 13 then [92, LetterFor(p.value)] else [92]
    case Numbered(n) =>
      if n == 1 then [92, 48 + p.value % 10]
      else if n == 2 then [92, 48 + p.value / 10 % 10, 48 + p.value % 10]
      else [92, 48 + p.value / 100, 48 + p.value / 10 % 10, 48 + p.value % 10]
    case Itself => [92, p.value]
    case Continued(feed) => [92] + feed
  }

  /** Whether the piece may be written so before the byte `next`. */
  predicate Fits(p: Piece, delimiter: Byte, next: Byte) {
    match p.style
    case Plain => p.value != delimiter && p.value != 92 && p.value != 10 && p.value != 13
    case Lettered => 7 <= p.value <= 13
    case Numbered(n) =>
      (n == 1 && p.value < 10 && !(48 <= next <= 57)) || (n == 2 && p.value < 100 && !(48 <= next <= 57)) || n == 3
    case Itself => p.value != 10 && p.value != 13 && !(48 <= p.value <= 57) && forall c :: 7 <= c <= 13 ==> p.value != LetterFor(c)
    case Continued(feed) =>
      p.value == 10 && ((feed == [10] && next != 13) || (feed == [13] && next != 10) || feed == [10, 13] || feed == [13, 10])
  }

  function Closed(pieces: seq<Piece>, delimiter: Byte): (r: seq<Byte>)
    ensures r != []
  {
    if pieces == [] then [delimiter] else Written(pieces[0]) + Closed(pieces[1..], delimiter)
  }

  predicate AllFit(pieces: seq<Piece>, delimiter: Byte) {
    pieces != [] ==> Fits(pieces[0], delimiter, Closed(pieces[1..], delimiter)[0]) && AllFit(pieces[1..], delimiter)
  }

  function Values(pieces: seq<Piece>): seq<Byte> {
    if pieces == [] then [] else [pieces[0].value] + Values(pieces[1..])
  }

  function Breaks(pieces: seq<Piece>): nat {
    if pieces == [] then 0 else (if pieces[0].style.Continued? then 1 else 0) + Breaks(pieces[1..])
  }

  lemma LetterReads(value: Byte)
    requires 7 <= value <= 13
    ensures var b := LetterFor(value); Letter(b) == value && !IsDigit(b) && !IsNewline(b)
  {
  }

  lemma ItselfReads(value: Byte)
    requires forall c :: 7 <= c <= 13 ==> value != LetterFor(c)
    ensures Letter(value) == value
  {
    assert value != LetterFor(7) && value != LetterFor(8) && value != LetterFor(9) && value != LetterFor(10);
    assert value != LetterFor(11) && value != LetterFor(12) && value != LetterFor(13);
  }

  /** One to three digits are read as their value, as far as digits go. */
  lemma DigitsRead(value: nat, left: nat, d: Byte, after: seq<Byte>, ending: Ending)
    requires 1 <= left && 48 <= d <= 57 && after != []
    ensures Decimal(value, left, [d] + after, ending) == Decimal(value * 10 + (d - 48), left - 1, after, ending)
    ensures !(48 <= after[0] <= 57) || left == 1 ==> Decimal(value, left, [d] + after, ending) == Read(value * 10 + (d - 48), after, 0)
  {
    assert ([d] + after)[0] == d && ([d] + after)[1..] == after;
  }

  lemma NumberReads(value: Byte, n: nat, after: seq<Byte>, ending: Ending)
    requires after != [] && Fits(Piece(value, Numbered(n)), 0, after[0])
    ensures Decimal(0, 3, Written(Piece(value, Numbered(n)))[1..] + after, ending) == Read(value, after, 0)
  {
    var h, t, u := value / 100, value / 10 % 10, value % 10;
    assert value == h * 100 + t * 10 + u && (n < 3 ==> h == 0) && (n < 2 ==> t == 0);
    DigitRun(h, t, u, n, after, ending);
  }

  lemma DigitRun(h: nat, t: nat, u: nat, n: nat, after: seq<Byte>, ending: Ending)
    requires h < 10 && t < 10 && u < 10 && 1 <= n <= 3 && (n < 3 ==> h == 0) && (n < 2 ==> t == 0)
    requires after != [] && (n < 3 ==> !(48 <= after[0] <= 57))
    ensures Decimal(0, 3, (if n == 1 then [48 + u] else if n == 2 then [48 + t, 48 + u] else [48 + h, 48 + t, 48 + u]) + after, ending)
      == Read(h * 100 + t * 10 + u, after, 0)
  {
    if n == 1 {
      DigitsRead(0, 3, 48 + u, after, ending);
    } else if n == 2 {
      TwoDigits(0, 3, t, u, after, ending);
    } else {
      assert [48 + h, 48 + t, 48 + u] + after == [48 + h] + ([48 + t, 48 + u] + after);
      DigitsRead(0, 3, 48 + h, [48 + t, 48 + u] + after, ending);
      TwoDigits(h, 2, t, u, after, ending);
    }
  }

  lemma TwoDigits(value: nat, left: nat, t: nat, u: nat, after: seq<Byte>, ending: Ending)
    requires left >= 2 && t < 10 && u < 10 && after != [] && (!(48 <= after[0] <= 57) || left == 2)
    ensures Decimal(value, left, [48 + t, 48 + u] + after, ending) == Read((value * 10 + t) * 10 + u, after, 0)
  {
    assert [48 + t, 48 + u] + after == [48 + t] + ([48 + u] + after);
    DigitsRead(value, left, 48 + t, [48 + u] + after, ending);
    DigitsRead(value * 10 + t, left - 1, 48 + u, after, ending);
  }

  /** A line break of one byte or of two different ones counts once. */
  lemma FeedReads(feed: seq<Byte>, after: seq<Byte>, ending: Ending, line: nat)
    requires after != [] && Fits(Piece(10, Continued(feed)), 0, after[0])
    ensures IsNewline((feed + after)[0])
    ensures LineBreak(feed + after, ending, line) == if line + 1 >= MAX_LINE then Fails(TooManyLines(line + 1)) else Read((), after, line + 1)
  {
    var s := feed + after;
    assert s[..|feed|] == feed && s[|feed|..] == after && s[1..] != [];
    assert |feed| == 1 ==> s[1] == after[0];
  }

  /** What a quoted string is read as; to be taken apart only where QuotedIs is named. */
  ghost predicate QuotedAs(text: seq<Byte>, s: seq<Byte>, delimiter: Byte, ending: Ending, line: nat, r: Scanned<seq<Byte>>) {
    forall x {:trigger QuotedIs(text, s, delimiter, ending, line, x)} :: x == r ==> QuotedIs(text, s, delimiter, ending, line, x)
  }

  ghost predicate QuotedIs(text: seq<Byte>, s: seq<Byte>, delimiter: Byte, ending: Ending, line: nat, r: Scanned<seq<Byte>>) {
    Quoted(text, s, delimiter, ending, line) == r
  }

  /** One piece is read as its byte. */
  lemma PieceReads(text: seq<Byte>, p: Piece, delimiter: Byte, after: seq<Byte>, ending: Ending, line: nat, r: Scanned<seq<Byte>>)
    requires after != [] && Fits(p, delimiter, after[0]) && (delimiter == 34 || delimiter == 39)
    requires if !p.style.Continued? then QuotedAs(text + [p.value], after, delimiter, ending, line, r)
      else if line + 1 >= MAX_LINE then r == Fails(TooManyLines(line + 1))
      else QuotedAs(text + [p.value], after, delimiter, ending, line + 1, r)
    ensures QuotedAs(text, Written(p) + after, delimiter, ending, line, r)
  {
    var s := Written(p) + after;
    assert s[0] == Written(p)[0] && s[1..] == Written(p)[1..] + after;
    if p.style.Plain? {
      assert QuotedIs(text + [p.value], after, delimiter, ending, line, r);
      PlainStep(text, s, delimiter, ending, line);
    } else {
      EscapeReads(p, after, ending, line);
      if !p.style.Continued? {
        assert QuotedIs(text + [p.value], after, delimiter, ending, line, r);
      } else if line + 1 < MAX_LINE {
        assert QuotedIs(text + [p.value], after, delimiter, ending, line + 1, r);
      }
      EscapeStep(text, s, delimiter, ending, line);
    }
  }

  lemma PlainStep(text: seq<Byte>, s: seq<Byte>, delimiter: Byte, ending: Ending, line: nat)
    requires s != [] && s[0] != delimiter && s[0] != 92 && s[0] != 10 && s[0] != 13
    ensures Quoted(text, s, delimiter, ending, line) == Quoted(text + [s[0]], s[1..], delimiter, ending, line)
  {
  }

  lemma EscapeStep(text: seq<Byte>, s: seq<Byte>, delimiter: Byte, ending: Ending, line: nat)
    requires s != [] && s[0] == 92 && (delimiter == 34 || delimiter == 39)
    ensures var escape := Escape(s[1..], ending, line);
      Quoted(text, s, delimiter, ending, line) ==
        if escape.Fails? then Fails(escape.failure) else Quoted(text + [escape.value], escape.rest, delimiter, ending, escape.line)
  {
  }

  lemma EscapeReads(p: Piece, after: seq<Byte>, ending: Ending, line: nat)
    requires after != [] && Fits(p, 0, after[0]) && !p.style.Plain?
    ensures Escape(Written(p)[1..] + after, ending, line) ==
      if !p.style.Continued? then Read(p.value, after, line)
      else if line + 1 >= MAX_LINE then Fails(TooManyLines(line + 1))
      else Read(p.value, after, line + 1)
  {
    var s := Written(p)[1..] + after;
    assert s[0] == Written(p)[1];
    match p.style
    case Lettered => LetterReads(p.value); assert s[1..] == after;
    case Numbered(n) => NumberReads(p.value, n, after, ending);
    case Itself => ItselfReads(p.value); assert s[1..] == after;
    case Continued(feed) => FeedReads(feed, after, ending, line); assert Written(p)[1..] == feed;
    case Plain =>
  }

  /** Three digits above 255 are refused. */
  lemma TooLarge(text: seq<Byte>, h: nat, t: nat, u: nat, after: seq<Byte>, delimiter: Byte, ending: Ending, line: nat)
    requires h < 10 && t < 10 && u < 10 && h * 100 + t * 10 + u > 255 && after != [] && (delimiter == 34 || delimiter == 39)
    ensures Quoted(text, [92, 48 + h, 48 + t, 48 + u] + after, delimiter, ending, line) == Fails(EscapeTooLarge(line))
  {
    var s := [92, 48 + h, 48 + t, 48 + u] + after;
    assert s[1..] == [48 + h, 48 + t, 48 + u] + after;
    DigitRun(h, t, u, 3, after, ending);
    EscapeStep(text, s, delimiter, ending, line);
  }

  lemma CloseReads(text: seq<Byte>, delimiter: Byte, rest: seq<Byte>, ending: Ending, line: nat)
    ensures QuotedAs(text, [delimiter] + rest, delimiter, ending, line, Read(text, rest, line))
  {
    assert ([delimiter] + rest)[1..] == rest;
  }

  /** What the pieces are read as. */
  function Outcome(text: seq<Byte>, pieces: seq<Piece>, rest: seq<Byte>, line: nat): Scanned<seq<Byte>> {
    if line + Breaks(pieces) < MAX_LINE then Read(text + Values(pieces), rest, line + Breaks(pieces)) else Fails(TooManyLines(MAX_LINE))
  }

  /** However its bytes are written, the string is read back; the only limit is on lines. */
  lemma {:induction false} PiecesRead(text: seq<Byte>, pieces: seq<Piece>, delimiter: Byte, rest: seq<Byte>, ending: Ending, line: nat)
    requires AllFit(pieces, delimiter) && (delimiter == 34 || delimiter == 39) && line < MAX_LINE
    ensures QuotedAs(text, Closed(pieces, delimiter) + rest, delimiter, ending, line, Outcome(text, pieces, rest, line))
    decreases |pieces|
  {
    if pieces == [] {
      CloseReads(text, delimiter, rest, ending, line);
      assert text + [] == text;
    } else {
      var p := pieces[0];
      var after := Closed(pieces[1..], delimiter) + rest;
      assert Closed(pieces, delimiter) + rest == Written(p) + after;
      var line' := if p.style.Continued? then line + 1 else line;
      if line' < MAX_LINE {
        PiecesRead(text + [p.value], pieces[1..], delimiter, rest, ending, line');
        assert text + [p.value] + Values(pieces[1..]) == text + Values(pieces);
      }
      PieceReads(text, p, delimiter, after, ending, line, Outcome(text, pieces, rest, line));
    }
  }

  /** What is scanned next; to be taken apart only where ScanIs is named. */
  ghost predicate ScanAs(s: seq<Byte>, parse: seq<Byte> -> Option<nat>, ending: Ending, line: nat, r: Scanned<Token>) {
    forall x {:trigger ScanIs(s, parse, ending, line, x)} :: x == r ==> ScanIs(s, parse, ending, line, x)
  }

  ghost predicate ScanIs(s: seq<Byte>, parse: seq<Byte> -> Option<nat>, ending: Ending, line: nat, r: Scanned<Token>) {
    Scan(s, parse, ending, line) == r
  }

  /** The tokens of a text; to be taken apart only where TokensIs is named. */
  ghost predicate TokensAs(s: seq<Byte>, parse: seq<Byte> -> Option<nat>, ending: Ending, line: nat, r: (seq<Token>, Option<Failure>)) {
    forall x {:trigger TokensIs(s, parse, ending, line, x)} :: x == r ==> TokensIs(s, parse, ending, line, x)
  }

  ghost predicate TokensIs(s: seq<Byte>, parse: seq<Byte> -> Option<nat>, ending: Ending, line: nat, r: (seq<Token>, Option<Failure>)) {
    Tokens(s, parse, ending, line) == r
  }

  lemma QuotedToken(s: seq<Byte>, quoted: Scanned<seq<Byte>>, parse: seq<Byte> -> Option<nat>, ending: Ending, line: nat)
    requires s != [] && (s[0] == 34 || s[0] == 39) && QuotedAs([], s[1..], s[0], ending, line, quoted)
    ensures ScanAs(s, parse, ending, line,
      if quoted.Fails? then Fails(quoted.failure) else Read(Token(String(quoted.value), line), quoted.rest, quoted.line))
  {
    assert QuotedIs([], s[1..], s[0], ending, line, quoted);
    SpanIs(HorizontalSpace, s, 0);
    assert s[0..] == s;
    assert Lexeme(s, parse, ending, line) == if quoted.Fails? then Fails(quoted.failure) else Read(String(quoted.value), quoted.rest, quoted.line);
  }

  /** A string in either kind of quotes is one token, wherever it stands. */
  lemma StringReads(pieces: seq<Piece>, delimiter: Byte, rest: seq<Byte>, parse: seq<Byte> -> Option<nat>, ending: Ending, line: nat)
    requires AllFit(pieces, delimiter) && (delimiter == 34 || delimiter == 39) && line < MAX_LINE
    ensures ScanAs([delimiter] + Closed(pieces, delimiter) + rest, parse, ending, line,
      if line + Breaks(pieces) < MAX_LINE then Read(Token(String(Values(pieces)), line), rest, line + Breaks(pieces))
      else Fails(TooManyLines(MAX_LINE)))
  {
    PiecesRead([], pieces, delimiter, rest, ending, line);
    assert [] + Values(pieces) == Values(pieces);
    StringStarts(delimiter, Closed(pieces, delimiter), rest, Outcome([], pieces, rest, line), parse, ending, line);
  }

  lemma StringStarts(delimiter: Byte, body: seq<Byte>, rest: seq<Byte>, read: Scanned<seq<Byte>>, parse: seq<Byte> -> Option<nat>, ending: Ending, line: nat)
    requires (delimiter == 34 || delimiter == 39) && QuotedAs([], body + rest, delimiter, ending, line, read)
    ensures ScanAs([delimiter] + body + rest, parse, ending, line,
      if read.Fails? then Fails(read.failure) else Read(Token(String(read.value), line), read.rest, read.line))
  {
    var s := [delimiter] + body + rest;
    assert s[0] == delimiter && s[1..] == body + rest;
    QuotedToken(s, read, parse, ending, line);
  }

  lemma LastToken(parse: seq<Byte> -> Option<nat>, line: nat)
    ensures TokensAs([], parse, AtEnd, line, ([Token(EndOfText, line)], None))
  {
    SpanIs(HorizontalSpace, [], 0);
    var none: seq<Byte> := [];
    assert none[0..] == none;
    TokensEnd([], parse, AtEnd, line, Token(EndOfText, line));
  }

  lemma TokensEnd(s: seq<Byte>, parse: seq<Byte> -> Option<nat>, ending: Ending, line: nat, token: Token)
    requires token.kind.EndOfText? && Scan(s, parse, ending, line) == Read(token, [], line)
    ensures TokensAs(s, parse, ending, line, ([token], None))
  {
  }

  lemma FirstToken(s: seq<Byte>, parse: seq<Byte> -> Option<nat>, ending: Ending, line: nat, token: Token, rest: seq<Byte>, after: nat,
                   more: (seq<Token>, Option<Failure>))
    requires !token.kind.EndOfText? && ScanAs(s, parse, ending, line, Read(token, rest, after)) && TokensAs(rest, parse, ending, after, more)
    ensures TokensAs(s, parse, ending, line, ([token] + more.0, more.1))
  {
    assert ScanIs(s, parse, ending, line, Read(token, rest, after)) && TokensIs(rest, parse, ending, after, more);
  }

  lemma NoToken(s: seq<Byte>, parse: seq<Byte> -> Option<nat>, ending: Ending, line: nat, failure: Failure)
    requires ScanAs(s, parse, ending, line, Fails(failure))
    ensures TokensAs(s, parse, ending, line, ([], Some(failure)))
  {
    assert ScanIs(s, parse, ending, line, Fails(failure));
  }

  /** The string and the end. */
  function TokenOf(pieces: seq<Piece>): (seq<Token>, Option<Failure>) {
    if 1 + Breaks(pieces) < MAX_LINE then ([Token(String(Values(pieces)), 1), Token(EndOfText, 1 + Breaks(pieces))], None)
    else ([], Some(TooManyLines(MAX_LINE)))
  }

  lemma WrittenTokens(pieces: seq<Piece>, delimiter: Byte, s: seq<Byte>, parse: seq<Byte> -> Option<nat>)
    requires AllFit(pieces, delimiter) && (delimiter == 34 || delimiter == 39) && s == [delimiter] + Closed(pieces, delimiter)
    ensures TokensAs(s, parse, AtEnd, 1, TokenOf(pieces))
  {
    StringReads(pieces, delimiter, [], parse, AtEnd, 1);
    assert s + [] == s;
    StringThenEnd(s, Values(pieces), 1 + Breaks(pieces), parse);
  }

  lemma StringThenEnd(s: seq<Byte>, value: seq<Byte>, line: nat, parse: seq<Byte> -> Option<nat>)
    requires ScanAs(s, parse, AtEnd, 1, if line < MAX_LINE then Read(Token(String(value), 1), [], line) else Fails(TooManyLines(MAX_LINE)))
    ensures TokensAs(s, parse, AtEnd, 1,
      if line < MAX_LINE then ([Token(String(value), 1), Token(EndOfText, line)], None) else ([], Some(TooManyLines(MAX_LINE))))
  {
    if line < MAX_LINE {
      var token, end := Token(String(value), 1), Token(EndOfText, line);
      LastToken(parse, line);
      FirstToken(s, parse, AtEnd, 1, token, [], line, ([end], None));
      assert [token] + [end] == [token, end];
    } else {
      NoToken(s, parse, AtEnd, 1, TooManyLines(MAX_LINE));
    }
  }

  method ReadAs(refills: seq<Refill>, controlled: bool, parse: seq<Byte> -> Option<nat>, looks: set<nat>, ghost expected: (seq<Token>, Option<Failure>))
    returns (tokens: seq<Token>, err: Option<Failure>)
    requires TokensAs(Unread(refills).text, parse, Unread(refills).ending, 1, expected)
    ensures (tokens, err) == expected
  {
    assert TokensIs(Unread(refills).text, parse, Unread(refills).ending, 1, expected);
    tokens, err := ReadTokens(refills, controlled, parse, looks);
  }

  /** A string, its bytes written in any of these ways, is read in whatever pieces it comes. */
  method ReadWritten(pieces: seq<Piece>, delimiter: Byte, sizes: seq<nat>, controlled: bool, parse: seq<Byte> -> Option<nat>, looks: set<nat>)
    returns (tokens: seq<Token>, err: Option<Failure>)
    requires AllFit(pieces, delimiter) && (delimiter == 34 || delimiter == 39)
    ensures 1 + Breaks(pieces) < MAX_LINE ==>
      err == None && tokens == [Token(String(Values(pieces)), 1), Token(EndOfText, 1 + Breaks(pieces))]
    ensures 1 + Breaks(pieces) >= MAX_LINE ==> err == Some(TooManyLines(MAX_LINE)) && tokens == []
  {
    var s := [delimiter] + Closed(pieces, delimiter);
    CutUnread(s, sizes);
    WrittenTokens(pieces, delimiter, s, parse);
    tokens, err := ReadAs(Cut(s, sizes), controlled, parse, looks, TokenOf(pieces));
  }
}
