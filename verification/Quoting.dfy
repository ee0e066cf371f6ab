/** The %q conversion of string.format: a literal that reads back as the same bytes. */
module Quoting {
  import opened Wrappers
  import opened ChunkInputs
  import opened LexerSpec
  import opened Lexers

  /** How a byte is written inside quotes. */
  function Spelling(b: Byte): seq<Byte> {
    if b == QUOTE || b == BACKSLASH || b == NEWLINE then [BACKSLASH, b]
    else if b == RETURN then [BACKSLASH, 114]
    else if b == 0 then [BACKSLASH, 48, 48, 48]
    else [b]
  }

  function Spelled(text: seq<Byte>): seq<Byte> {
    if text == [] then [] else Spelling(text[0]) + Spelled(text[1..])
  }

  function Literal(text: seq<Byte>): seq<Byte> {
    [QUOTE] + Spelled(text) + [QUOTE]
  }

  function Newlines(text: seq<Byte>): nat {
    if text == [] then 0 else (if text[0] == NEWLINE then 1 else 0) + Newlines(text[1..])
  }

  lemma {:induction false} SpelledOn(text: seq<Byte>, b: Byte)
    ensures Spelled(text + [b]) == Spelled(text) + Spelling(b)
  {
    if text == [] {
      assert ([] + [b])[1..] == [];
    } else {
      SpelledOn(text[1..], b);
      assert (text + [b])[1..] == text[1..] + [b];
    }
  }

  method AppendSpelling(built: seq<Byte>, character: Byte) returns (r: seq<Byte>)
    ensures r == built + Spelling(character)
  {
    if character == QUOTE || character == BACKSLASH || character == NEWLINE {
      r := built + [BACKSLASH, character];
    } else if character == RETURN {
      r := built + [BACKSLASH, 114];
    } else if character == 0 {
      r := built + [BACKSLASH, 48, 48, 48];
    } else {
      r := built + [character];
    }
  }

  /** Appends the literal. */
  method AppendQuoted(built: seq<Byte>, text: seq<Byte>) returns (r: seq<Byte>)
    ensures r == built + Literal(text)
  {
    r := built + [QUOTE];
    for index := 0 to |text|
      invariant r == built + [QUOTE] + Spelled(text[..index])
    {
      SpelledOn(text[..index], text[index]);
      assert text[..index + 1] == text[..index] + [text[index]];
      assert built + [QUOTE] + Spelled(text[..index]) + Spelling(text[index]) == built + [QUOTE] + Spelled(text[..index + 1]);
      r := AppendSpelling(r, text[index]);
    }
    assert text[..|text|] == text;
    r := r + [QUOTE];
  }

  /** A spelling is read as its byte, whatever comes behind it but a line break. */
  lemma OneByte(text: seq<Byte>, b: Byte, after: seq<Byte>, ending: Ending, line: nat)
    requires after != [] && !IsNewline(after[0])
    ensures Quoted(text, Spelling(b) + after, QUOTE, ending, line) ==
      if b != NEWLINE then Quoted(text + [b], after, QUOTE, ending, line)
      else if line + 1 >= MAX_LINE then Fails(TooManyLines(line + 1))
      else Quoted(text + [b], after, QUOTE, ending, line + 1)
  {
    var s := Spelling(b) + after;
    assert s[0] == Spelling(b)[0];
    if |Spelling(b)| == 1 {
      assert s[1..] == after;
    } else if |Spelling(b)| == 2 {
      assert s[1..] == [Spelling(b)[1]] + after && s[1..][1..] == after;
    } else {
      ThreeZeros(after, ending);
      assert s[1..] == [48, 48, 48] + after;
    }
  }

  lemma ThreeZeros(after: seq<Byte>, ending: Ending)
    ensures Decimal(0, 3, [48, 48, 48] + after, ending) == Read(0, after, 0)
  {
    assert ([48, 48, 48] + after)[1..] == [48, 48] + after;
    assert ([48, 48] + after)[1..] == [48] + after;
    assert ([48] + after)[1..] == after;
    assert Decimal(0, 1, [48] + after, ending) == Decimal(0, 0, after, ending);
    assert Decimal(0, 2, [48, 48] + after, ending) == Decimal(0, 1, [48] + after, ending);
  }

  /** Spelled bytes are read back. */
  lemma {:induction false} SpelledReadsBack(text: seq<Byte>, x: seq<Byte>, rest: seq<Byte>, ending: Ending, line: nat)
    requires line < MAX_LINE
    ensures Quoted(text, Spelled(x) + [QUOTE] + rest, QUOTE, ending, line) ==
      if line + Newlines(x) < MAX_LINE then Read(text + x, rest, line + Newlines(x)) else Fails(TooManyLines(MAX_LINE))
    decreases |x|
  {
    if x == [] {
      assert Spelled(x) + [QUOTE] + rest == [QUOTE] + rest && ([QUOTE] + rest)[1..] == rest && text + [] == text;
    } else {
      var after := Spelled(x[1..]) + [QUOTE] + rest;
      assert Spelled(x) + [QUOTE] + rest == Spelling(x[0]) + after;
      OneByte(text, x[0], after, ending, line);
      var line' := if x[0] == NEWLINE then line + 1 else line;
      if line' < MAX_LINE {
        SpelledReadsBack(text + [x[0]], x[1..], rest, ending, line');
        assert text + [x[0]] + x[1..] == text + x;
      }
    }
  }

  /** The literal of any string is one token, the same string, wherever it stands; the only limit is on lines. */
  lemma LiteralReadsBack(x: seq<Byte>, rest: seq<Byte>, parse: seq<Byte> -> Option<nat>, ending: Ending, line: nat)
    requires line < MAX_LINE
    ensures Scan(Literal(x) + rest, parse, ending, line) ==
      if line + Newlines(x) < MAX_LINE then Read(Token(String(x), line), rest, line + Newlines(x)) else Fails(TooManyLines(MAX_LINE))
  {
    var s := Literal(x) + rest;
    assert s[1..] == Spelled(x) + [QUOTE] + rest;
    SpelledReadsBack([], x, rest, ending, line);
    SpanIs(HorizontalSpace, s, 0);
    assert s[0..] == s && [] + x == x;
  }
  /** A string is written as a literal and read again, in whatever pieces and with whatever looks ahead. */
  method QuoteAndRead(x: seq<Byte>, sizes: seq<nat>, controlled: bool, parse: seq<Byte> -> Option<nat>, looks: set<nat>)
    returns (tokens: seq<Token>, err: Option<Failure>)
    ensures 1 + Newlines(x) < MAX_LINE ==> err == None && tokens == [Token(String(x), 1), Token(EndOfText, 1 + Newlines(x))]
    ensures 1 + Newlines(x) >= MAX_LINE ==> err == Some(TooManyLines(MAX_LINE)) && tokens == []
  {
    var literal := AppendQuoted([], x);
    CutUnread(literal, sizes);
    LiteralReadsBack(x, [], parse, AtEnd, 1);
    assert Literal(x) + [] == Literal(x) && [] + Literal(x) == Literal(x);
    assert Scan([], parse, AtEnd, 1 + Newlines(x)) == Read(Token(EndOfText, 1 + Newlines(x)), [], 1 + Newlines(x));
    tokens, err := ReadTokens(Cut(literal, sizes), controlled, parse, looks);
  }
}
