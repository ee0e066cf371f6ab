/** Tokens of a source text, read from the whole text at once. */
module LexerSpec {
  import opened Wrappers
  import opened ChunkInputs

  const NEWLINE: Byte := 10
  const RETURN: Byte := 13
  const QUOTE: Byte := 34
  const APOSTROPHE: Byte := 39
  const MINUS: Byte := 45
  const PLUS: Byte := 43
  const DOT: Byte := 46
  const COLON: Byte := 58
  const EQUAL: Byte := 61
  const LESS: Byte := 60
  const GREATER: Byte := 62
  const TILDE: Byte := 126
  const OPEN: Byte := 91
  const BACKSLASH: Byte := 92
  const CLOSE: Byte := 93

  /** A chunk with as many lines is refused. */
  const MAX_LINE: nat := 0x7fff_fffd

  datatype Failure =
    | InputFailed(cause: nat)
    | UnfinishedString(line: nat)
    | EscapeTooLarge(line: nat)
    | UnfinishedLong(line: nat, comment: bool)
    | NestedBracket(line: nat)
    | InvalidDelimiter(line: nat)
    | MalformedNumber(line: nat, literal: seq<Byte>)
    | TooManyLines(line: nat)

  /** A symbol of one byte, a longer one, a name or keyword, a string, a number, or the end. */
  datatype Kind = Symbol(code: Byte) | Longer(spelling: seq<Byte>) | Word(text: seq<Byte>) | String(value: seq<Byte>) | Numeral(bits: nat) | EndOfText

  datatype Token = Token(kind: Kind, line: nat)

  /** Something read, with what is left and the line there. */
  datatype Scanned<T> = Read(value: T, rest: seq<Byte>, line: nat) | Fails(failure: Failure)

  // ----- bytes -----

  predicate IsNewline(b: Byte) { b == NEWLINE || b == RETURN }

  predicate IsSpace(b: Byte) { b == 32 || b == 9 || b == 11 || b == 12 }

  predicate IsDigit(b: Byte) { 48 <= b <= 57 }

  predicate IsNameStart(b: Byte) { b == 95 || 97 <= b <= 122 || 65 <= b <= 90 }

  predicate IsNameContinue(b: Byte) { IsNameStart(b) || IsDigit(b) }

  datatype ScanClass = HorizontalSpace | LineBody | NumberBody | NameBody | EqualSigns

  predicate InClass(c: ScanClass, b: Byte) {
    match c
    case HorizontalSpace => IsSpace(b)
    case LineBody => !IsNewline(b)
    case NumberBody => IsDigit(b) || b == DOT
    case NameBody => IsNameContinue(b)
    case EqualSigns => b == EQUAL
  }

  /** How many bytes of a class come first. */
  function Span(c: ScanClass, s: seq<Byte>): (n: nat)
    ensures n <= |s| && (forall i :: 0 <= i < n ==> InClass(c, s[i])) && (n < |s| ==> !InClass(c, s[n]))
  {
    if s == [] || !InClass(c, s[0]) then 0
    else
      var n := Span(c, s[1..]);
      assert forall i :: 0 < i <= n ==> s[i] == s[1..][i - 1];
      n + 1
  }

  lemma {:induction false} SpanIs(c: ScanClass, s: seq<Byte>, n: nat)
    requires n <= |s| && (forall i :: 0 <= i < n ==> InClass(c, s[i])) && (n < |s| ==> !InClass(c, s[n]))
    ensures Span(c, s) == n
  {
    if n > 0 { SpanIs(c, s[1..], n - 1); }
  }

  lemma {:induction false} SpanFurther(c: ScanClass, s: seq<Byte>, n: nat)
    requires n <= |s| && forall i :: 0 <= i < n ==> InClass(c, s[i])
    ensures Span(c, s) == n + Span(c, s[n..])
  {
    if n > 0 {
      SpanFurther(c, s[1..], n - 1);
      assert s[1..][n - 1..] == s[n..];
    } else {
      assert s[0..] == s;
    }
  }

  /** The input ends here and has failed. */
  predicate Broke(s: seq<Byte>, ending: Ending) {
    s == [] && ending.Broken?
  }

  // ----- line breaks -----

  /** A line break of one byte or of two different ones. */
  function BreakLength(s: seq<Byte>): nat
    requires s != []
  {
    if |s| > 1 && IsNewline(s[1]) && s[1] != s[0] then 2 else 1
  }

  /** Looking for the second byte may fail; so may the count of lines. */
  function LineBreak(s: seq<Byte>, ending: Ending, line: nat): (r: Scanned<()>)
    requires s != []
    ensures r.Read? ==> |r.rest| < |s|
  {
    if Broke(s[1..], ending) then Fails(InputFailed(ending.cause))
    else if line + 1 >= MAX_LINE then Fails(TooManyLines(line + 1))
    else Read((), s[BreakLength(s)..], line + 1)
  }

  // ----- quoted strings -----

  function Letter(b: Byte): Byte {
    if b == 97 then 7 else if b == 98 then 8 else if b == 102 then 12 else if b == 110 then 10
    else if b == 114 then 13 else if b == 116 then 9 else if b == 118 then 11 else b
  }

  predicate IsPlain(b: Byte, delimiter: Byte) {
    b != delimiter && !IsNewline(b) && b != BACKSLASH
  }

  /** Up to `left` more decimal digits; looking for the next may fail. */
  function Decimal(value: nat, left: nat, s: seq<Byte>, ending: Ending): Scanned<nat>
    decreases left
  {
    if left == 0 then Read(value, s, 0)
    else if Broke(s, ending) then Fails(InputFailed(ending.cause))
    else if s == [] || !IsDigit(s[0]) then Read(value, s, 0)
    else Decimal(value * 10 + (s[0] - 48), left - 1, s[1..], ending)
  }

  lemma {:induction false} DecimalRest(value: nat, left: nat, s: seq<Byte>, ending: Ending)
    ensures Decimal(value, left, s, ending).Read? ==> |Decimal(value, left, s, ending).rest| <= |s|
    decreases left
  {
    if left > 0 && s != [] && IsDigit(s[0]) { DecimalRest(value * 10 + (s[0] - 48), left - 1, s[1..], ending); }
  }

  /** What a backslash before `s` stands for. */
  function Escape(s: seq<Byte>, ending: Ending, line: nat): (r: Scanned<Byte>)
    ensures r.Read? ==> |r.rest| <= |s|
  {
    if Broke(s, ending) then Fails(InputFailed(ending.cause))
    else if s == [] then Fails(UnfinishedString(line))
    else if IsNewline(s[0]) then
      var after := LineBreak(s, ending, line);
      if after.Fails? then Fails(after.failure) else Read(NEWLINE, after.rest, after.line)
    else if !IsDigit(s[0]) then Read(Letter(s[0]), s[1..], line)
    else
      DecimalRest(0, 3, s, ending);
      var value := Decimal(0, 3, s, ending);
      if value.Fails? then Fails(value.failure)
      else if value.value > 255 then Fails(EscapeTooLarge(line))
      else Read(value.value, value.rest, line)
  }

  /** A string up to its delimiter, of which `text` has been decoded so far. */
  function Quoted(text: seq<Byte>, s: seq<Byte>, delimiter: Byte, ending: Ending, line: nat): (r: Scanned<seq<Byte>>)
    ensures r.Read? ==> |r.rest| < |s|
    decreases |s|
  {
    if Broke(s, ending) then Fails(InputFailed(ending.cause))
    else if s == [] then Fails(UnfinishedString(line))
    else if s[0] == delimiter then Read(text, s[1..], line)
    else if IsNewline(s[0]) then Fails(UnfinishedString(line))
    else if s[0] == BACKSLASH then
      var escape := Escape(s[1..], ending, line);
      if escape.Fails? then Fails(escape.failure) else Quoted(text + [escape.value], escape.rest, delimiter, ending, escape.line)
    else Quoted(text + [s[0]], s[1..], delimiter, ending, line)
  }

  lemma {:induction false} QuotedRun(text: seq<Byte>, s: seq<Byte>, n: nat, delimiter: Byte, ending: Ending, line: nat)
    requires n <= |s| && forall i :: 0 <= i < n ==> IsPlain(s[i], delimiter)
    ensures Quoted(text, s, delimiter, ending, line) == Quoted(text + s[..n], s[n..], delimiter, ending, line)
    decreases n
  {
    if n == 0 {
      assert text + s[..0] == text && s[0..] == s;
    } else {
      QuotedRun(text + [s[0]], s[1..], n - 1, delimiter, ending, line);
      assert text + [s[0]] + s[1..][..n - 1] == text + s[..n] && s[1..][n - 1..] == s[n..];
    }
  }

  // ----- long brackets -----

  /** After a closing bracket: how many equal signs, and whether the second bracket of the level follows. */
  predicate Closes(s: seq<Byte>, level: nat) {
    Span(EqualSigns, s) == level && level < |s| && s[level] == CLOSE
  }

  function Repeated(b: Byte, n: nat): (r: seq<Byte>)
    ensures |r| == n
  {
    seq(n, _ => b)
  }

  predicate IsLongPlain(b: Byte, level: nat) {
    b != CLOSE && !IsNewline(b) && !(level == 0 && b == OPEN)
  }

  /** The body of a long string or comment, of which `text` has been read so far. Every line break counts as a
      newline. */
  function LongBody(text: seq<Byte>, s: seq<Byte>, level: nat, comment: bool, ending: Ending, line: nat): (r: Scanned<seq<Byte>>)
    ensures r.Read? ==> |r.rest| < |s|
    decreases |s|
  {
    if Broke(s, ending) then Fails(InputFailed(ending.cause))
    else if s == [] then Fails(UnfinishedLong(line, comment))
    else if s[0] == CLOSE then
      var k := Span(EqualSigns, s[1..]);
      if Broke(s[1 + k..], ending) then Fails(InputFailed(ending.cause))
      else if Closes(s[1..], level) then Read(text, s[2 + k..], line)
      else LongBody(text + [CLOSE] + Repeated(EQUAL, k), s[1 + k..], level, comment, ending, line)
    else if IsNewline(s[0]) then
      var after := LineBreak(s, ending, line);
      if after.Fails? then Fails(after.failure) else LongBody(text + [NEWLINE], after.rest, level, comment, ending, after.line)
    else if level == 0 && s[0] == OPEN then
      if Broke(s[1..], ending) then Fails(InputFailed(ending.cause))
      else if s[1..] != [] && s[1] == OPEN then Fails(NestedBracket(line))
      else LongBody(text + [OPEN], s[1..], level, comment, ending, line)
    else LongBody(text + [s[0]], s[1..], level, comment, ending, line)
  }

  lemma {:induction false} LongRun(text: seq<Byte>, s: seq<Byte>, n: nat, level: nat, comment: bool, ending: Ending, line: nat)
    requires n <= |s| && forall i :: 0 <= i < n ==> IsLongPlain(s[i], level)
    ensures LongBody(text, s, level, comment, ending, line) == LongBody(text + s[..n], s[n..], level, comment, ending, line)
    decreases n
  {
    if n == 0 {
      assert text + s[..0] == text && s[0..] == s;
    } else {
      LongRun(text + [s[0]], s[1..], n - 1, level, comment, ending, line);
      assert text + [s[0]] + s[1..][..n - 1] == text + s[..n] && s[1..][n - 1..] == s[n..];
    }
  }

  /** The text after the opening bracket; a line break right behind it is not part of it. */
  function Long(s: seq<Byte>, level: nat, comment: bool, ending: Ending, line: nat): (r: Scanned<seq<Byte>>)
    ensures r.Read? ==> |r.rest| < |s|
  {
    if Broke(s, ending) then Fails(InputFailed(ending.cause))
    else if s != [] && IsNewline(s[0]) then
      var after := LineBreak(s, ending, line);
      if after.Fails? then Fails(after.failure) else LongBody([], after.rest, level, comment, ending, after.line)
    else LongBody([], s, level, comment, ending, line)
  }

  // ----- numbers -----

  /** An exponent mark, with its sign. */
  function ExponentLength(s: seq<Byte>): (n: nat)
    ensures n <= |s|
  {
    if s == [] || (s[0] != 101 && s[0] != 69) then 0
    else if |s| > 1 && (s[1] == PLUS || s[1] == MINUS) then 2
    else 1
  }

  /** Digits and dots, and an exponent mark with its sign. */
  function MantissaLength(s: seq<Byte>): (n: nat)
    ensures n <= |s|
  {
    Span(NumberBody, s) + ExponentLength(s[Span(NumberBody, s)..])
  }

  /** How long a numeral is: digits and dots, an exponent mark with a sign, and whatever may be part of a name. */
  function NumeralLength(s: seq<Byte>): (n: nat)
    ensures n <= |s| && (s != [] && IsDigit(s[0]) ==> n > 0)
  {
    MantissaLength(s) + Span(NameBody, s[MantissaLength(s)..])
  }

  function Number(s: seq<Byte>, start: nat, parse: seq<Byte> -> Option<nat>, ending: Ending, line: nat): (r: Scanned<Kind>)
    requires start <= |s|
    ensures r.Read? && s != [] && (start > 0 || IsDigit(s[0])) ==> |r.rest| < |s|
  {
    var n := start + NumeralLength(s[start..]);
    if Broke(s[n..], ending) then Fails(InputFailed(ending.cause))
    else if parse(s[..n]).None? then Fails(MalformedNumber(line, s[..n]))
    else Read(Numeral(parse(s[..n]).value), s[n..], line)
  }

  // ----- tokens -----

  /** A symbol that may be followed by one more byte to make a longer one. */
  function Pair(s: seq<Byte>, second: Byte, ending: Ending, line: nat): (r: Scanned<Kind>)
    requires s != []
    ensures r.Read? ==> |r.rest| < |s|
  {
    if Broke(s[1..], ending) then Fails(InputFailed(ending.cause))
    else if s[1..] != [] && s[1] == second then Read(Longer([s[0], second]), s[2..], line)
    else Read(Symbol(s[0]), s[1..], line)
  }

  function Dots(s: seq<Byte>, parse: seq<Byte> -> Option<nat>, ending: Ending, line: nat): (r: Scanned<Kind>)
    requires s != [] && s[0] == DOT
    ensures r.Read? ==> |r.rest| < |s|
  {
    if Broke(s[1..], ending) then Fails(InputFailed(ending.cause))
    else if s[1..] != [] && s[1] == DOT then
      if Broke(s[2..], ending) then Fails(InputFailed(ending.cause))
      else if s[2..] != [] && s[2] == DOT then Read(Longer([DOT, DOT, DOT]), s[3..], line)
      else Read(Longer([DOT, DOT]), s[2..], line)
    else if s[1..] != [] && IsDigit(s[1]) then Number(s, 1, parse, ending, line)
    else Read(Symbol(DOT), s[1..], line)
  }

  /** After an opening bracket: the level of a long one, or none. */
  function LongLevel(s: seq<Byte>): Option<nat> {
    var k := Span(EqualSigns, s);
    if k < |s| && s[k] == OPEN then Some(k) else None
  }

  function Bracket(s: seq<Byte>, ending: Ending, line: nat): (r: Scanned<Kind>)
    requires s != [] && s[0] == OPEN
    ensures r.Read? ==> |r.rest| < |s|
  {
    var k := Span(EqualSigns, s[1..]);
    if Broke(s[1 + k..], ending) then Fails(InputFailed(ending.cause))
    else if LongLevel(s[1..]).Some? then
      var long := Long(s[2 + k..], k, false, ending, line);
      if long.Fails? then Fails(long.failure) else Read(String(long.value), long.rest, long.line)
    else if k != 0 then Fails(InvalidDelimiter(line))
    else Read(Symbol(OPEN), s[1..], line)
  }

  function Name(s: seq<Byte>, ending: Ending, line: nat): (r: Scanned<Kind>)
    requires s != []
    ensures r.Read? ==> |r.rest| < |s|
  {
    var n := 1 + Span(NameBody, s[1..]);
    if Broke(s[n..], ending) then Fails(InputFailed(ending.cause)) else Read(Word(s[..n]), s[n..], line)
  }

  /** The token that starts with the first byte, which is neither space nor the start of a comment. */
  function Lexeme(s: seq<Byte>, parse: seq<Byte> -> Option<nat>, ending: Ending, line: nat): (r: Scanned<Kind>)
    requires s != []
    ensures r.Read? ==> |r.rest| < |s|
  {
    var b := s[0];
    if b == OPEN then Bracket(s, ending, line)
    else if b == QUOTE || b == APOSTROPHE then
      var quoted := Quoted([], s[1..], b, ending, line);
      if quoted.Fails? then Fails(quoted.failure) else Read(String(quoted.value), quoted.rest, quoted.line)
    else if b == DOT then Dots(s, parse, ending, line)
    else if b == COLON then Pair(s, COLON, ending, line)
    else if b == EQUAL || b == LESS || b == GREATER || b == TILDE then Pair(s, EQUAL, ending, line)
    else if IsDigit(b) then Number(s, 0, parse, ending, line)
    else if IsNameStart(b) then Name(s, ending, line)
    else Read(Symbol(b), s[1..], line)
  }

  /** What is left after the two dashes of a comment. */
  function Comment(s: seq<Byte>, ending: Ending, line: nat): (r: Scanned<()>)
    ensures r.Read? ==> |r.rest| <= |s|
  {
    if Broke(s, ending) then Fails(InputFailed(ending.cause))
    else if s != [] && s[0] == OPEN then
      var k := Span(EqualSigns, s[1..]);
      if Broke(s[1 + k..], ending) then Fails(InputFailed(ending.cause))
      else if LongLevel(s[1..]).Some? then
        var long := Long(s[2 + k..], k, true, ending, line);
        if long.Fails? then Fails(long.failure) else Read((), long.rest, long.line)
      else LineRest(s[1 + k..], ending, line)
    else LineRest(s, ending, line)
  }

  function LineRest(s: seq<Byte>, ending: Ending, line: nat): Scanned<()> {
    var n := Span(LineBody, s);
    if Broke(s[n..], ending) then Fails(InputFailed(ending.cause)) else Read((), s[n..], line)
  }

  /** A dash that is a token, or a comment, which is none. */
  function Dash(s: seq<Byte>, ending: Ending, line: nat): (r: Scanned<bool>)
    requires s != []
    ensures r.Read? ==> |r.rest| < |s|
  {
    if Broke(s[1..], ending) then Fails(InputFailed(ending.cause))
    else if s[1..] == [] || s[1] != MINUS then Read(true, s[1..], line)
    else
      var after := Comment(s[2..], ending, line);
      if after.Fails? then Fails(after.failure) else Read(false, after.rest, after.line)
  }

  /** The next token, past spaces, line breaks and comments. It carries the line it starts on. */
  function Scan(s: seq<Byte>, parse: seq<Byte> -> Option<nat>, ending: Ending, line: nat): (r: Scanned<Token>)
    ensures r.Read? && !r.value.kind.EndOfText? ==> |r.rest| < |s|
    decreases |s|
  {
    var t := s[Span(HorizontalSpace, s)..];
    if Broke(t, ending) then Fails(InputFailed(ending.cause))
    else if t == [] then Read(Token(EndOfText, line), t, line)
    else if IsNewline(t[0]) then
      var after := LineBreak(t, ending, line);
      if after.Fails? then Fails(after.failure) else Scan(after.rest, parse, ending, after.line)
    else if t[0] == MINUS then
      var dash := Dash(t, ending, line);
      if dash.Fails? then Fails(dash.failure)
      else if dash.value then Read(Token(Symbol(MINUS), line), dash.rest, dash.line)
      else Scan(dash.rest, parse, ending, dash.line)
    else
      var lexeme := Lexeme(t, parse, ending, line);
      if lexeme.Fails? then Fails(lexeme.failure) else Read(Token(lexeme.value, line), lexeme.rest, lexeme.line)
  }

  /** Every token up to the end of the text, or those before the failure and the failure. */
  function Tokens(s: seq<Byte>, parse: seq<Byte> -> Option<nat>, ending: Ending, line: nat): (seq<Token>, Option<Failure>)
    decreases |s|
  {
    var next := Scan(s, parse, ending, line);
    if next.Fails? then ([], Some(next.failure))
    else if next.value.kind.EndOfText? then ([next.value], None)
    else
      var rest := Tokens(next.rest, parse, ending, next.line);
      ([next.value] + rest.0, rest.1)
  }
  lemma OneMore(tokens: seq<Token>, token: Token, rest: seq<Token>)
    ensures tokens + ([token] + rest) == tokens + [token] + rest && tokens + [] == tokens
  {
  }

  /** One more token. */
  lemma TokensOn(tokens: seq<Token>, s: seq<Byte>, parse: seq<Byte> -> Option<nat>, ending: Ending, line: nat, next: Scanned<Token>)
    requires next == Scan(s, parse, ending, line)
    ensures var all := Tokens(s, parse, ending, line);
      if next.Fails? then tokens + all.0 == tokens && all.1 == Some(next.failure)
      else if next.value.kind.EndOfText? then tokens + all.0 == tokens + [next.value] && all.1 == None
      else var rest := Tokens(next.rest, parse, ending, next.line); tokens + all.0 == tokens + [next.value] + rest.0 && all.1 == rest.1
  {
    if next.Read? && !next.value.kind.EndOfText? {
      OneMore(tokens, next.value, Tokens(next.rest, parse, ending, next.line).0);
    } else {
      assert tokens + [] == tokens;
    }
  }
}
