/** The lexer over input that arrives in pieces. Each method does what the whole text asks for. */
module Lexers {
  import opened Wrappers
  import opened ChunkInputs
  import opened LexerSpec

  /** Text of a token so far: borrowed from the piece that it starts in, or what the scratch buffer has and the part of
      the current piece since. */
  datatype Capture = Capture(piece: seq<Byte>, generation: nat, start: nat, owned: bool)

  /** A place in the piece that a capture borrows from. */
  datatype Mark = Mark(generation: nat, offset: nat)

  lemma DroppedTwice(s: Stream, m: nat, n: nat)
    requires m + n <= |s.text|
    ensures Dropped(Dropped(s, m), n) == Dropped(s, m + n)
  {
    assert s.text[m..][n..] == s.text[m + n..];
  }

  lemma DroppedNone(s: Stream)
    ensures Dropped(s, 0) == s
  {
    assert s.text[0..] == s.text;
  }

  /** The next k bytes after the first n. */
  lemma PassedOn(s: Stream, n: nat, k: nat, text: seq<Byte>)
    requires n + k <= |s.text|
    ensures text + s.text[..n] + s.text[n..][..k] == text + s.text[..n + k]
    ensures Dropped(Dropped(s, n), k) == Dropped(s, n + k)
  {
    DroppedTwice(s, n, k);
    assert s.text[..n] + s.text[n..][..k] == s.text[..n + k];
  }

  /** Part of a span, or all of it when done. */
  predicate SpanSome(kind: ScanClass, s: seq<Byte>, n: nat, done: bool) {
    n <= |s| && (forall i :: 0 <= i < n ==> InClass(kind, s[i])) && if done then (n < |s| ==> !InClass(kind, s[n])) else n > 0
  }

  lemma SpanStep(kind: ScanClass, s: seq<Byte>, n: nat, done: bool)
    requires SpanSome(kind, s, n, done)
    ensures n <= |s| && Span(kind, s) == n + Span(kind, s[n..]) && (done ==> Span(kind, s[n..]) == 0)
  {
    SpanFurther(kind, s, n);
  }

  lemma WindowSpan(kind: ScanClass, w: seq<Byte>, s: seq<Byte>)
    requires w <= s && w != []
    ensures SpanSome(kind, s, Span(kind, w), Span(kind, w) != |w|)
    ensures Span(kind, w) != |w| ==> s[Span(kind, w)..] != []
  {
  }

  /** A span that has been passed up to here. */
  predicate SpanTo(kind: ScanClass, start: Stream, passed: nat, left: Stream, done: bool) {
    passed <= |start.text| && left == Dropped(start, passed) && passed + Span(kind, left.text) == Span(kind, start.text) &&
    (done ==> Span(kind, left.text) == 0)
  }

  lemma SpanOn(kind: ScanClass, start: Stream, passed: nat, left: Stream, n: nat, done: bool, text: seq<Byte>)
    requires SpanTo(kind, start, passed, left, false) && SpanSome(kind, left.text, n, done)
    ensures SpanTo(kind, start, passed + n, Dropped(left, n), done)
    ensures text + start.text[..passed] + left.text[..n] == text + start.text[..passed + n]
  {
    SpanStep(kind, left.text, n, done);
    PassedOn(start, passed, n, text);
  }

  /** What reaching the end means here: nothing unless the text is over and the input has failed. */
  function BrokenHere(left: Stream): Option<Failure> {
    if Broke(left.text, left.ending) then Some(InputFailed(left.ending.cause)) else None
  }

  /** What was read is what the whole text asks for. */
  predicate Agrees<T>(r: Scanned<T>, err: Option<Failure>, left: Stream, ending: Ending, line: nat) {
    if r.Fails? then err == Some(r.failure) else err == None && left == Stream(r.rest, ending) && line == r.line
  }

  /** A numeral that ends inside the window is all of the numeral. */
  lemma NumeralWindow(w: seq<Byte>, s: seq<Byte>)
    requires w <= s && NumeralLength(w) < |w|
    ensures NumeralLength(s) == NumeralLength(w)
  {
    var n, m := Span(NumberBody, w), MantissaLength(w);
    SpanIs(NumberBody, s, n);
    assert m < |w|;
    assert ExponentLength(s[n..]) == ExponentLength(w[n..]);
    SpanIs(NameBody, s[m..], Span(NameBody, w[m..]));
  }

  lemma NumberThere(w: seq<Byte>, s: seq<Byte>, start: nat, n: nat)
    requires w <= s && start <= n < |w| && n == start + NumeralLength(w[start..])
    ensures n == start + NumeralLength(s[start..]) && w[..n] == s[..n] && s[n..] != []
  {
    NumeralWindow(w[start..], s[start..]);
  }

  /** A name that ends inside the window is all of the name. */
  lemma NameThere(w: seq<Byte>, s: seq<Byte>, n: nat)
    requires w != [] && w <= s && n == 1 + Span(NameBody, w[1..]) < |w|
    ensures n == 1 + Span(NameBody, s[1..]) && w[..n] == s[..n] && s[n..] != []
  {
    SpanIs(NameBody, s[1..], n - 1);
  }

  /** The rest of a name of which some bytes have been passed. */
  lemma NameOn(s: Stream, count: nat)
    requires 1 <= count <= |s.text| && forall i :: 1 <= i < count ==> IsNameContinue(s.text[i])
    ensures var n := Span(NameBody, s.text[count..]);
      1 + Span(NameBody, s.text[1..]) == count + n && s.text[..count] + s.text[count..][..n] == s.text[..count + n] &&
      Dropped(Dropped(s, count), n) == Dropped(s, count + n)
  {
    var n := Span(NameBody, s.text[count..]);
    SpanFurther(NameBody, s.text[1..], count - 1);
    assert s.text[1..][count - 1..] == s.text[count..];
    DroppedTwice(s, count, n);
    assert s.text[..count] + s.text[count..][..n] == s.text[..count + n];
  }

  /** What a piece has from some place on, with n bytes more. */
  lemma PieceText(scratch: seq<Byte>, piece: seq<Byte>, start: nat, position: nat, n: nat, s: seq<Byte>)
    requires start <= position <= position + n <= |piece| && piece[position..] <= s && n <= |s|
    ensures scratch + piece[start..position + n] == scratch + piece[start..position] + s[..n]
  {
    assert piece[position..][..n] == s[..n];
    assert piece[start..position + n] == piece[start..position] + piece[position..][..n];
  }

  class Lexer {
    const input: ChunkInput
    const parse: seq<Byte> -> Option<nat>
    var window: seq<Byte>
    var offset: nat
    var line: nat
    var scratch: seq<Byte>
    var lookahead: Option<Token>

    ghost var left: Stream  // all that is still to be read

    ghost predicate Facts(at: nat)
      reads `window, `left, input
    {
      input.Valid() && at <= |window| && (window != [] ==> window == input.piece[input.offset..input.windowEnd]) &&
      at <= |input.Rest().text| && left == Dropped(input.Rest(), at)
    }

    /** Where the lexer stands in its window and what is left, to be taken apart only where Facts is named. */
    ghost predicate Valid()
      reads `window, `offset, `left, input
    {
      forall at {:trigger Facts(at)} :: at == offset ==> Facts(at)
    }

    /** Where the lexer is in the current piece. */
    ghost function Position(): nat
      reads `offset, input
    {
      input.offset + offset
    }

    /** The capture holds `text`. If a new piece has come since it was last brought up to date, none of it has been
        passed yet. */
    ghost predicate Holds(c: Capture, text: seq<Byte>)
      reads `window, `offset, `scratch, input
    {
      (!c.owned ==> scratch == []) &&
      if c.generation == input.pieceGeneration then
        c.piece == input.piece && c.start <= Position() <= |input.piece| && scratch + input.piece[c.start..Position()] == text
      else
        c.start <= |c.piece| && Position() == 0 && window != [] && scratch + c.piece[c.start..] == text
    }

    /** The same for a capture that may not be there, to be taken apart only where Holds is named. */
    ghost predicate Tracks(capture: Option<Capture>, text: seq<Byte>)
      reads `window, `offset, `scratch, input
    {
      capture.Some? ==> forall c {:trigger Holds(c, text)} :: c == capture.value ==> Holds(c, text)
    }

    /** The input has been asked for more and has none; if it failed it says so. */
    ghost predicate Exhausted()
      reads `left, input
    {
      left.text == [] && (input.failure.Some? <==> left.ending.Broken?) && (input.failure.Some? ==> left.ending == Broken(input.failure.value))
    }

    ghost predicate InSync(c: Capture)
      reads input
    {
      c.generation == input.pieceGeneration
    }

    constructor (input: ChunkInput, parse: seq<Byte> -> Option<nat>)
      requires input.Valid()
      ensures Valid() && this.input == input && this.parse == parse && line == 1 && left == input.Rest() && lookahead == None
    {
      this.input, this.parse := input, parse;
      window, offset, line, scratch, lookahead := [], 0, 1, [], None;
      left := input.Rest();
      new;
      DroppedNone(input.Rest());
    }

    // ----- looking and advancing -----

    /** Since some time nothing has changed but that n bytes of the same piece have been passed, or a new piece has come. */
    ghost predicate Moved(generation: nat, piece: seq<Byte>, position: nat, n: nat)
      reads `offset, input
    {
      generation <= input.pieceGeneration && (generation == input.pieceGeneration ==> input.piece == piece && Position() == position + n)
    }

    /** The window has been passed. */
    method ReleaseWindow(ghost capture: Option<Capture>, ghost text: seq<Byte>)
      requires Valid() && offset == |window| > 0 && Tracks(capture, text)
      modifies this`window, this`offset, input`offset
      ensures Valid() && window == [] && offset == 0 && Tracks(capture, text)
      ensures Moved(old(input.pieceGeneration), old(input.piece), old(Position()), 0)
    {
      assert Facts(offset);
      if capture.Some? { assert Holds(capture.value, text); }
      DroppedNone(left);
      input.Advance(|window|);
      window, offset := [], 0;
    }

    method TakeWindow(ghost capture: Option<Capture>, ghost text: seq<Byte>) returns (w: seq<Byte>)
      requires Valid() && window == [] && Tracks(capture, text)
      modifies this`window, this`offset, input
      ensures Valid() && w == window && offset == 0 && w <= left.text && (w == [] ==> Exhausted()) && Tracks(capture, text)
      ensures Moved(old(input.pieceGeneration), old(input.piece), old(Position()), 0)
    {
      assert Facts(offset);
      DroppedNone(input.Rest());
      if capture.Some? { assert Holds(capture.value, text); }
      w := input.Window();
      window, offset := w, 0;
    }

    /** A part of what is left, empty only if nothing is. */
    method InputWindow(ghost capture: Option<Capture>, ghost text: seq<Byte>) returns (w: seq<Byte>)
      requires Valid() && Tracks(capture, text)
      modifies this`window, this`offset, input
      ensures Valid() && offset <= |window| && w == window[offset..] && w <= left.text && (w == [] ==> Exhausted()) && Tracks(capture, text)
      ensures Moved(old(input.pieceGeneration), old(input.piece), old(Position()), 0)
    {
      assert Facts(offset);
      if offset != |window| {
        WindowLeft();
        return window[offset..];
      }
      if |window| != 0 {
        ReleaseWindow(capture, text);
      }
      w := TakeWindow(capture, text);
    }

    lemma WindowLeft()
      requires Valid() && window != []
      ensures offset <= |window| && window[offset..] <= left.text && Position() + |window[offset..]| <= |input.piece|
      ensures window[offset..] == input.piece[Position()..Position() + |window[offset..]|]
    {
      assert Facts(offset);
      assert window <= input.piece[input.offset..] <= input.Rest().text;
    }

    /** The next byte, if there is one. */
    method CurrentCode(ghost capture: Option<Capture>, ghost text: seq<Byte>) returns (code: Option<Byte>)
      requires Valid() && Tracks(capture, text)
      modifies this`window, this`offset, input
      ensures Valid() && Tracks(capture, text)
      ensures code.None? ==> left.text == [] && Exhausted()
      ensures code.Some? ==> left.text != [] && code.value == left.text[0] && offset < |window|
      ensures Moved(old(input.pieceGeneration), old(input.piece), old(Position()), 0)
    {
      var w := InputWindow(capture, text);
      if |w| == 0 {
        return None;
      }
      return Some(w[0]);
    }

    /** What the end of the input means when nothing more is there. */
    method InputError() returns (err: Option<Failure>)
      requires Exhausted()
      ensures err == BrokenHere(left)
    {
      if input.failure.Some? {
        return Some(InputFailed(input.failure.value));
      }
      return None;
    }

    // ----- captures -----

    method BeginTextCapture() returns (c: Capture)
      requires Valid()
      modifies this`scratch
      ensures Valid() && Tracks(Some(c), []) && InSync(c)
    {
      assert Facts(offset);
      scratch := [];
      c := Capture(input.piece, input.pieceGeneration, input.offset + offset, false);
    }

    /** When a new piece has come, what the old one had of the token goes to the scratch buffer. */
    method Sync(c0: Capture, ghost text: seq<Byte>) returns (c: Capture)
      requires Valid() && Tracks(Some(c0), text)
      modifies this`scratch
      ensures Valid() && Tracks(Some(c), text) && InSync(c)
    {
      assert Facts(offset) && Holds(c0, text);
      c := c0;
      if c.generation == input.pieceGeneration {
        return;
      }
      if c.start != |c.piece| {
        scratch := scratch + c.piece[c.start..];
        c := c.(owned := true);
      }
      c := Capture(input.piece, input.pieceGeneration, input.offset + offset, c.owned);
      assert scratch + [] == scratch;
    }

    /** Brings a capture up to date if there is one. */
    method SyncAny(c0: Option<Capture>, ghost text: seq<Byte>) returns (c: Option<Capture>)
      requires Valid() && Tracks(c0, text)
      modifies this`scratch
      ensures Valid() && Tracks(c, text) && (c.Some? <==> c0.Some?) && (c.Some? ==> InSync(c.value))
      ensures c0.None? ==> scratch == old(scratch)
    {
      if c0.None? {
        return None;
      }
      var synced := Sync(c0.value, text);
      return Some(synced);
    }

    /** The capture has `text` up to the mark, which is where the lexer was when it was made. */
    ghost predicate Marks(c: Capture, mark: Mark, text: seq<Byte>)
      reads `scratch
    {
      mark.generation == c.generation && c.start <= mark.offset <= |c.piece| && scratch + c.piece[c.start..mark.offset] == text &&
      (!c.owned ==> scratch == [])
    }

    method MakeMark(c0: Capture, ghost text: seq<Byte>) returns (c: Capture, mark: Mark)
      requires Valid() && Tracks(Some(c0), text)
      modifies this`scratch
      ensures Valid() && Tracks(Some(c), text) && InSync(c) && Marks(c, mark, text)
    {
      c := Sync(c0, text);
      assert Holds(c, text);
      mark := Mark(c.generation, input.offset + offset);
    }

    /** Everything up to the mark goes to the scratch buffer. */
    method FlushTo(c0: Capture, mark: Mark, ghost text: seq<Byte>) returns (c: Capture)
      requires Valid() && Marks(c0, mark, text)
      modifies this`scratch
      ensures Valid() && scratch == text && c == c0.(start := mark.offset, owned := true)
    {
      assert Facts(offset);
      scratch := scratch + c0.piece[c0.start..mark.offset];
      c := c0.(start := mark.offset, owned := true);
    }

    /** The capture goes on from here with what the scratch buffer has. */
    method Reset(c0: Capture) returns (c: Capture)
      requires Valid() && c0.owned
      ensures c.owned && InSync(c) && Tracks(Some(c), scratch)
    {
      assert Facts(offset);
      c := Capture(input.piece, input.pieceGeneration, input.offset + offset, true);
      assert scratch + [] == scratch;
    }

    method FinishAt(c: Capture, mark: Mark, ghost text: seq<Byte>) returns (r: seq<Byte>, owned: bool)
      requires Valid() && Marks(c, mark, text)
      modifies this`scratch
      ensures Valid() && r == text
    {
      assert Facts(offset);
      if !c.owned {
        assert [] + c.piece[c.start..mark.offset] == c.piece[c.start..mark.offset];
        return c.piece[c.start..mark.offset], false;
      }
      scratch := scratch + c.piece[c.start..mark.offset];
      return scratch, true;
    }

    method Finish(c: Capture, ghost text: seq<Byte>) returns (r: seq<Byte>, owned: bool)
      requires Valid() && Tracks(Some(c), text)
      modifies this`scratch
      ensures Valid() && r == text
    {
      var synced, mark := MakeMark(c, text);
      r, owned := FinishAt(synced, mark, text);
    }

    /** Passing over bytes adds them to a capture that is up to date. */
    lemma PassedTracks(c: Capture, text: seq<Byte>, count: nat)
      requires Valid() && window != [] && offset + count <= |window| && InSync(c) && Tracks(Some(c), text)
      ensures c.start <= Position() + count <= |input.piece|
      ensures scratch + input.piece[c.start..Position() + count] == text + window[offset..offset + count]
    {
      assert Facts(offset) && Holds(c, text);
      assert window[offset..offset + count] == input.piece[Position()..Position() + count];
      assert input.piece[c.start..Position() + count] == input.piece[c.start..Position()] + input.piece[Position()..Position() + count];
    }

    lemma PassedFacts(count: nat)
      requires Valid() && window != [] && offset + count <= |window|
      ensures Facts(offset) && count <= |left.text| && window[offset..offset + count] == left.text[..count]
      ensures offset + count <= |input.Rest().text| && Dropped(left, count) == Dropped(input.Rest(), offset + count)
    {
      assert Facts(offset);
      WindowLeft();
      assert window[offset..][..count] == left.text[..count];
      DroppedTwice(input.Rest(), offset, count);
    }

    /** Passes over the next bytes of the window. */
    method Pass(ghost capture: Option<Capture>, count: nat, ghost text: seq<Byte>)
      requires Valid() && window != [] && offset + count <= |window| && Tracks(capture, text) && (capture.Some? ==> InSync(capture.value))
      modifies this`offset, this`left
      ensures Valid() && count <= |old(left).text| && left == Dropped(old(left), count) && offset == old(offset) + count
      ensures Tracks(capture, text + old(left).text[..count])
    {
      PassedFacts(count);
      if capture.Some? { assert Holds(capture.value, text); PassedTracks(capture.value, text, count); }
      left := Dropped(left, count);
      offset := offset + count;
    }

    // ----- spans -----

    method CountSpan(kind: ScanClass, w: seq<Byte>) returns (count: nat)
      ensures count == Span(kind, w)
    {
      count := 0;
      while count < |w| && InClass(kind, w[count])
        invariant count <= |w| && forall i :: 0 <= i < count ==> InClass(kind, w[i])
      {
        count := count + 1;
      }
      SpanIs(kind, w, count);
    }

    /** One window of the span. */
    method AdvanceSome(c0: Option<Capture>, kind: ScanClass, ghost text: seq<Byte>)
      returns (c: Option<Capture>, err: Option<Failure>, done: bool, n: nat)
      requires Valid() && Tracks(c0, text)
      modifies this`window, this`offset, this`scratch, this`left, input
      ensures Valid() && (c.Some? <==> c0.Some?) && (c0.None? ==> scratch == old(scratch))
      ensures n <= |old(left).text| && left == Dropped(old(left), n) && Tracks(c, text + old(left).text[..n])
      ensures SpanSome(kind, old(left).text, n, done) && err == if done then BrokenHere(left) else None
      ensures Moved(old(input.pieceGeneration), old(input.piece), old(Position()), n)
    {
      var w := InputWindow(c0, text);
      n := 0;
      if |w| == 0 {
        err := InputError();
        DroppedNone(left);
        assert text + left.text[..0] == text;
        return c0, err, true, 0;
      }
      c := SyncAny(c0, text);
      var count := CountSpan(kind, w);
      n := count;
      WindowSpan(kind, w, left.text);
      Pass(c, count, text);
      err, done := None, count != |w|;
    }

    /** The next window of a span that has been passed up to here. */
    method AdvanceFurther(c0: Option<Capture>, kind: ScanClass, ghost text: seq<Byte>, ghost start: Stream, passed: nat)
      returns (c: Option<Capture>, err: Option<Failure>, done: bool, further: nat)
      requires Valid() && SpanTo(kind, start, passed, left, false) && Tracks(c0, text + start.text[..passed])
      modifies this`window, this`offset, this`scratch, this`left, input
      ensures Valid() && (c.Some? <==> c0.Some?) && (c0.None? ==> scratch == old(scratch))
      ensures passed <= further && SpanTo(kind, start, further, left, done) && Tracks(c, text + start.text[..further]) && (done || further > passed)
      ensures err == if done then BrokenHere(left) else None
      ensures Moved(old(input.pieceGeneration), old(input.piece), old(Position()), further - passed)
    {
      ghost var before := left;
      var n;
      c, err, done, n := AdvanceSome(c0, kind, text + start.text[..passed]);
      SpanOn(kind, start, passed, before, n, done, text);
      further := passed + n;
    }

    /** Passes over all bytes of a class that come next. */
    method AdvanceWhile(c0: Option<Capture>, kind: ScanClass, ghost text: seq<Byte>) returns (c: Option<Capture>, err: Option<Failure>)
      requires Valid() && Tracks(c0, text)
      modifies this`window, this`offset, this`scratch, this`left, input
      ensures Valid() && (c.Some? <==> c0.Some?) && (c0.None? ==> scratch == old(scratch))
      ensures left == Dropped(old(left), Span(kind, old(left).text)) && err == BrokenHere(left)
      ensures Tracks(c, text + old(left).text[..Span(kind, old(left).text)])
    {
      ghost var start := left;
      var passed: nat := 0;
      c, err := c0, None;
      var done := false;
      DroppedNone(start);
      assert text + start.text[..0] == text;
      while !done
        invariant Valid() && (c.Some? <==> c0.Some?) && (c0.None? ==> scratch == old(scratch))
        invariant SpanTo(kind, start, passed, left, done) && Tracks(c, text + start.text[..passed])
        invariant err == if done then BrokenHere(left) else None
        decreases !done, |start.text| - passed
      {
        c, err, done, passed := AdvanceFurther(c, kind, text, start, passed);
      }
    }

    /** Counts equal signs and passes them. */
    method ConsumeEquals() returns (total: nat, err: Option<Failure>)
      requires Valid()
      modifies this`window, this`offset, this`scratch, this`left, input
      ensures Valid() && scratch == old(scratch) && total == Span(EqualSigns, old(left).text)
      ensures left == Dropped(old(left), total) && err == BrokenHere(left)
      ensures Moved(old(input.pieceGeneration), old(input.piece), old(Position()), total)
    {
      ghost var start := left;
      total, err := 0, None;
      var done, c := false, None;
      DroppedNone(start);
      while !done
        invariant Valid() && scratch == old(scratch) && c == None && SpanTo(EqualSigns, start, total, left, done)
        invariant Moved(old(input.pieceGeneration), old(input.piece), old(Position()), total)
        invariant err == if done then BrokenHere(left) else None
        decreases !done, |start.text| - total
      {
        c, err, done, total := AdvanceFurther(None, EqualSigns, [], start, total);
      }
    }

    // ----- line breaks -----

    /** Passes a line break. A capture that is up to date stays right if the break is a single newline. */
    method ConsumeNewline(ghost c: Option<Capture>, ghost text: seq<Byte>) returns (normalize: bool, err: Option<Failure>)
      requires Valid() && left.text != [] && IsNewline(left.text[0]) && offset < |window|
      requires Tracks(c, text) && (c.Some? ==> InSync(c.value))
      modifies this`window, this`offset, this`left, this`line, input
      ensures Valid() && Agrees(LineBreak(old(left).text, old(left).ending, old(line)), err, left, old(left).ending, line)
      ensures err.None? ==> (normalize <==> old(left).text[0] == RETURN || BreakLength(old(left).text) == 2)
      ensures err.None? && !normalize ==> Tracks(c, text + [NEWLINE])
    {
      ghost var s := left.text;
      WindowLeft();
      var first := window[offset];
      assert first == s[0] && s[..1] == [first];
      Pass(c, 1, text);
      var second := CurrentCode(c, text + [first]);
      var mixedPair := false;
      if second.None? {
        err := InputError();
        if err.Some? {
          return false, err;
        }
      } else if IsNewline(second.value) && second.value != first {
        PassOne();
        mixedPair := true;
      }
      line := line + 1;
      if line >= MAX_LINE {
        return false, Some(TooManyLines(line));
      }
      return first == RETURN || mixedPair, None;
    }

    /** Passes a byte that no capture takes. */
    method PassOne()
      requires Valid() && offset < |window|
      modifies this`offset, this`left
      ensures Valid() && |old(left).text| > 0 && left == Dropped(old(left), 1) && offset == old(offset) + 1
    {
      Pass(None, 1, []);
    }

    // ----- quoted strings -----

    /** Up to three digits after a backslash. */
    method ReadDecimal() returns (value: nat, err: Option<Failure>)
      requires Valid()
      modifies this`window, this`offset, this`left, input
      ensures Valid() && var r := Decimal(0, 3, old(left).text, old(left).ending);
        if r.Fails? then err == Some(r.failure) else err == None && value == r.value && left == Stream(r.rest, old(left).ending)
    {
      ghost var start := left;
      value, err := 0, None;
      var digits := 0;
      while digits < 3
        invariant Valid() && digits <= 3 && left.ending == start.ending
        invariant Decimal(value, 3 - digits, left.text, left.ending) == Decimal(0, 3, start.text, start.ending)
      {
        var digit := CurrentCode(None, []);
        if digit.None? {
          err := InputError();
          return;
        }
        if !IsDigit(digit.value) {
          return;
        }
        value := value * 10 + (digit.value - 48);
        PassOne();
        digits := digits + 1;
      }
    }

    /** What a backslash stands for. */
    method ReadEscape() returns (decoded: Byte, err: Option<Failure>)
      requires Valid()
      modifies this`window, this`offset, this`left, this`line, input
      ensures Valid() && Agrees(Escape(old(left).text, old(left).ending, old(line)), err, left, old(left).ending, line)
      ensures err.None? ==> decoded == Escape(old(left).text, old(left).ending, old(line)).value
    {
      decoded := 0;
      var code := CurrentCode(None, []);
      if code.None? {
        err := InputError();
        if err.None? {
          err := Some(UnfinishedString(line));
        }
        return;
      }
      if IsNewline(code.value) {
        var normalize;
        normalize, err := ConsumeNewline(None, []);
        return NEWLINE, err;
      }
      if !IsDigit(code.value) {
        PassOne();
        return Letter(code.value), None;
      }
      var value;
      value, err := ReadDecimal();
      if err.Some? {
        return;
      }
      if value > 255 {
        return 0, Some(EscapeTooLarge(line));
      }
      decoded := value;
    }

    method CountPlain(w: seq<Byte>, delimiter: Byte) returns (count: nat)
      ensures count <= |w| && (forall i :: 0 <= i < count ==> IsPlain(w[i], delimiter)) && (count < |w| ==> !IsPlain(w[count], delimiter))
    {
      count := 0;
      while count < |w| && IsPlain(w[count], delimiter)
        invariant count <= |w| && forall i :: 0 <= i < count ==> IsPlain(w[i], delimiter)
      {
        count := count + 1;
      }
    }

    /** The plain bytes of one window. */
    method QuotedPlain(c0: Capture, delimiter: Byte, ghost text: seq<Byte>) returns (c: Capture, code: Option<Byte>, more: bool, ghost longer: seq<Byte>)
      requires Valid() && Tracks(Some(c0), text)
      modifies this`window, this`offset, this`scratch, this`left, input
      ensures Valid() && Tracks(Some(c), longer) && left.ending == old(left).ending && |left.text| <= |old(left).text|
      ensures Quoted(text, old(left).text, delimiter, left.ending, line) == Quoted(longer, left.text, delimiter, left.ending, line)
      ensures more ==> |left.text| < |old(left).text|
      ensures !more ==> if code.None? then Exhausted()
                        else InSync(c) && left.text != [] && code.value == left.text[0] && offset < |window| && !IsPlain(code.value, delimiter)
    {
      var w := InputWindow(Some(c0), text);
      if |w| == 0 {
        return c0, None, false, text;
      }
      c := Sync(c0, text);
      var count := CountPlain(w, delimiter);
      QuotedRun(text, left.text, count, delimiter, left.ending, line);
      longer := text + left.text[..count];
      ghost var s := left.text;
      Pass(Some(c), count, text);
      if count == |w| {
        return c, None, true, longer;
      }
      assert w[count] == s[count] == left.text[0];
      return c, Some(w[count]), false, longer;
    }

    /** One escape sequence, the backslash of which comes next. */
    method QuotedEscape(c0: Capture, ghost text: seq<Byte>) returns (c: Capture, err: Option<Failure>, ghost longer: seq<Byte>)
      requires Valid() && Tracks(Some(c0), text) && InSync(c0) && left.text != [] && left.text[0] == BACKSLASH && offset < |window|
      modifies this`window, this`offset, this`scratch, this`left, this`line, input
      ensures Valid() && var r := Escape(old(left).text[1..], old(left).ending, old(line));
        Agrees(r, err, left, old(left).ending, line) && (err.None? ==> longer == text + [r.value] && Tracks(Some(c), longer))
    {
      var mark, decoded;
      c, mark := MakeMark(c0, text);
      c := FlushTo(c, mark, text);
      PassOne();
      decoded, err := ReadEscape();
      longer := text;
      if err.None? {
        scratch := scratch + [decoded];
        c := Reset(c);
        longer := text + [decoded];
      }
    }

    /** One step of a quoted string: plain bytes and what ends them. */
    method QuotedStep(c0: Capture, delimiter: Byte, ghost text: seq<Byte>)
      returns (c: Capture, done: bool, r: seq<Byte>, err: Option<Failure>, ghost longer: seq<Byte>)
      requires Valid() && Tracks(Some(c0), text) && delimiter != BACKSLASH && !IsNewline(delimiter)
      modifies this`window, this`offset, this`scratch, this`left, this`line, input
      ensures Valid() && var whole := Quoted(text, old(left).text, delimiter, old(left).ending, old(line));
        if done then Agrees(whole, err, left, old(left).ending, line) && (err.None? ==> r == whole.value)
        else Tracks(Some(c), longer) && whole == Quoted(longer, left.text, delimiter, left.ending, line) &&
             left.ending == old(left).ending && |left.text| < |old(left).text|
    {
      var code, more;
      done, r, err := false, [], None;
      c, code, more, longer := QuotedPlain(c0, delimiter, text);
      if more {
        return;
      }
      if code.None? {
        err := InputError();
        if err.None? {
          err := Some(UnfinishedString(line));
        }
        done := true;
        return;
      }
      if code.value == delimiter {
        var mark, owned;
        c, mark := MakeMark(c, longer);
        r, owned := FinishAt(c, mark, longer);
        PassOne();
        done := true;
        return;
      }
      if IsNewline(code.value) {
        err, done := Some(UnfinishedString(line)), true;
        return;
      }
      c, err, longer := QuotedEscape(c, longer);
      done := err.Some?;
    }

    /** A string up to its delimiter. */
    method ReadQuoted(delimiter: Byte) returns (r: seq<Byte>, err: Option<Failure>)
      requires Valid() && delimiter != BACKSLASH && !IsNewline(delimiter)
      modifies this`window, this`offset, this`scratch, this`left, this`line, input
      ensures Valid() && var whole := Quoted([], old(left).text, delimiter, old(left).ending, old(line));
        Agrees(whole, err, left, old(left).ending, line) && (err.None? ==> r == whole.value)
    {
      ghost var start, line0, text := left, line, [];
      var c := BeginTextCapture();
      var done := false;
      r, err := [], None;
      while !done
        invariant Valid() && var whole := Quoted([], start.text, delimiter, start.ending, line0);
          if done then Agrees(whole, err, left, start.ending, line) && (err.None? ==> r == whole.value)
          else Tracks(Some(c), text) && whole == Quoted(text, left.text, delimiter, left.ending, line) && left.ending == start.ending
        decreases !done, |left.text|
      {
        c, done, r, err, text := QuotedStep(c, delimiter, text);
      }
    }

    // ----- long brackets -----

    /** A bracket that may close, and whether it does; either way with its equal signs. */
    method TryLongClose(level: nat) returns (closed: bool, equals: nat, err: Option<Failure>)
      requires Valid() && left.text != [] && left.text[0] == CLOSE && offset < |window|
      modifies this`window, this`offset, this`scratch, this`left, input
      ensures Valid() && scratch == old(scratch) && equals == Span(EqualSigns, old(left).text[1..])
      ensures err == BrokenHere(Dropped(old(left), 1 + equals))
      ensures err.None? ==> (closed <==> Closes(old(left).text[1..], level))
      ensures err.None? ==> |old(left).text| >= (if closed then 2 else 1) + equals && left == Dropped(old(left), if closed then 2 + equals else 1 + equals)
      ensures !closed ==> Moved(old(input.pieceGeneration), old(input.piece), old(Position()), 1 + equals)
    {
      ghost var start := left;
      closed := false;
      PassOne();
      equals, err := ConsumeEquals();
      DroppedTwice(start, 1, equals);
      if err.Some? {
        return;
      }
      var code := CurrentCode(None, []);
      if code.None? {
        err := InputError();
        return;
      }
      assert start.text[1 + equals] == start.text[1..][equals] == left.text[0];
      if code.value != CLOSE || equals != level {
        return;
      }
      PassOne();
      DroppedTwice(start, 1 + equals, 1);
      closed := true;
    }

    /** The text that is left starts with the rest of the piece. */
    lemma PieceLeft()
      requires Valid()
      ensures Position() <= |input.piece| && input.piece[Position()..] <= left.text
    {
      assert Facts(offset);
      assert input.piece[input.offset..] <= input.Rest().text;
      assert input.piece[input.offset..][offset..] == input.piece[Position()..];
    }

    /** A capture that was not told of n bytes of its piece has them all the same. */
    lemma StillHolds(c: Capture, text: seq<Byte>, s: seq<Byte>, piece: seq<Byte>, position: nat, n: nat)
      requires Valid() && c.generation == input.pieceGeneration && input.piece == piece == c.piece && Position() == position + n
      requires c.start <= position <= |piece| && scratch + piece[c.start..position] == text && (!c.owned ==> scratch == [])
      requires piece[position..] <= s && n <= |s|
      ensures Tracks(Some(c), text + s[..n])
    {
      PieceLeft();
      PieceText(scratch, piece, c.start, position, n, s);
    }

    method CountLongPlain(w: seq<Byte>, level: nat) returns (count: nat)
      ensures count <= |w| && (forall i :: 0 <= i < count ==> IsLongPlain(w[i], level)) && (count < |w| ==> !IsLongPlain(w[count], level))
    {
      count := 0;
      while count < |w| && IsLongPlain(w[count], level)
        invariant count <= |w| && forall i :: 0 <= i < count ==> IsLongPlain(w[i], level)
      {
        count := count + 1;
      }
    }

    /** The plain bytes of one window. */
    method LongPlain(c0: Option<Capture>, level: nat, ghost text: seq<Byte>)
      returns (c: Option<Capture>, code: Option<Byte>, more: bool, ghost longer: seq<Byte>)
      requires Valid() && Tracks(c0, text)
      modifies this`window, this`offset, this`scratch, this`left, input
      ensures Valid() && Tracks(c, longer) && (c.Some? <==> c0.Some?) && left.ending == old(left).ending && |left.text| <= |old(left).text|
      ensures LongBody(text, old(left).text, level, c0.None?, left.ending, line) == LongBody(longer, left.text, level, c0.None?, left.ending, line)
      ensures more ==> |left.text| < |old(left).text|
      ensures !more ==> if code.None? then Exhausted()
                        else (c.Some? ==> InSync(c.value)) && left.text != [] && code.value == left.text[0] && offset < |window| && !IsLongPlain(code.value, level)
    {
      var w := InputWindow(c0, text);
      if |w| == 0 {
        return c0, None, false, text;
      }
      c := SyncAny(c0, text);
      var count := CountLongPlain(w, level);
      LongRun(text, left.text, count, level, c0.None?, left.ending, line);
      longer := text + left.text[..count];
      ghost var s := left.text;
      Pass(c, count, text);
      if count == |w| {
        return c, None, true, longer;
      }
      assert w[count] == s[count] == left.text[0];
      return c, Some(w[count]), false, longer;
    }

    /** A bracket inside a long string. */
    method LongOpen(c: Option<Capture>, ghost text: seq<Byte>) returns (err: Option<Failure>)
      requires Valid() && Tracks(c, text) && (c.Some? ==> InSync(c.value)) && left.text != [] && left.text[0] == OPEN && offset < |window|
      modifies this`window, this`offset, this`left, input
      ensures Valid() && left == Dropped(old(left), 1) && Tracks(c, text + [OPEN])
      ensures err == if BrokenHere(left).Some? then BrokenHere(left) else if left.text != [] && left.text[0] == OPEN then Some(NestedBracket(line)) else None
    {
      assert left.text[..1] == [OPEN];
      Pass(c, 1, text);
      var code := CurrentCode(c, text + [OPEN]);
      if code.None? {
        err := InputError();
        return;
      }
      if code.value == OPEN {
        return Some(NestedBracket(line));
      }
      return None;
    }

    /** A line break inside a long string; it counts as a newline. */
    method LongBreak(c0: Option<Capture>, ghost text: seq<Byte>) returns (c: Option<Capture>, err: Option<Failure>)
      requires Valid() && Tracks(c0, text) && (c0.Some? ==> InSync(c0.value)) && left.text != [] && IsNewline(left.text[0]) && offset < |window|
      modifies this`window, this`offset, this`scratch, this`left, this`line, input
      ensures Valid() && Agrees(LineBreak(old(left).text, old(left).ending, old(line)), err, left, old(left).ending, line)
      ensures (c.Some? <==> c0.Some?) && (err.None? ==> Tracks(c, text + [NEWLINE]))
    {
      c := c0;
      var normalize;
      if c.None? {
        normalize, err := ConsumeNewline(None, []);
        return;
      }
      var synced, mark := MakeMark(c.value, text);
      c := Some(synced);
      normalize, err := ConsumeNewline(c, text);
      if err.None? && normalize {
        synced := FlushTo(synced, mark, text);
        scratch := scratch + [NEWLINE];
        synced := Reset(synced);
        c := Some(synced);
      }
    }

    /** A closing bracket and its equal signs, which do not close this string, are part of it. */
    lemma BracketText(s: seq<Byte>, text: seq<Byte>)
      requires s != [] && s[0] == CLOSE
      ensures var k := Span(EqualSigns, s[1..]); text + s[..1 + k] == text + [CLOSE] + Repeated(EQUAL, k)
    {
      var k := Span(EqualSigns, s[1..]);
      assert s[..1 + k] == [s[0]] + s[1..][..k];
      assert s[1..][..k] == Repeated(EQUAL, k);
    }

    /** A bracket that did not close: the capture takes it, with the help of the scratch buffer if a new piece came. */
    method KeepBracket(c0: Capture, mark: Mark, generation: nat, equals: nat, ghost text: seq<Byte>, ghost s: seq<Byte>, ghost piece: seq<Byte>, ghost position: nat)
      returns (c: Capture)
      requires Valid() && Marks(c0, mark, text) && c0.generation == generation && c0.piece == piece && mark.offset == position
      requires s != [] && s[0] == CLOSE && equals == Span(EqualSigns, s[1..]) && position <= |piece| && piece[position..] <= s
      requires Moved(generation, piece, position, 1 + equals)
      modifies this`scratch
      ensures Valid() && Tracks(Some(c), text + [CLOSE] + Repeated(EQUAL, equals))
    {
      BracketText(s, text);
      c := c0;
      if input.pieceGeneration != generation {
        c := FlushTo(c, mark, text);
        scratch := scratch + [CLOSE];
        scratch := scratch + Repeated(EQUAL, equals);
        c := Reset(c);
      } else {
        StillHolds(c, text, s, piece, position, 1 + equals);
      }
    }

    /** A closing bracket inside a long string. */
    method LongClose(c0: Option<Capture>, level: nat, ghost text: seq<Byte>)
      returns (c: Option<Capture>, closed: bool, r: seq<Byte>, err: Option<Failure>, ghost longer: seq<Byte>)
      requires Valid() && Tracks(c0, text) && (c0.Some? ==> InSync(c0.value)) && left.text != [] && left.text[0] == CLOSE && offset < |window|
      modifies this`window, this`offset, this`scratch, this`left, input
      ensures Valid() && (c.Some? <==> c0.Some?)
      ensures var whole := LongBody(text, old(left).text, level, c0.None?, old(left).ending, line);
        if closed || err.Some? then Agrees(whole, err, left, old(left).ending, line) && (err.None? && c0.Some? ==> r == whole.value)
        else Tracks(c, longer) && whole == LongBody(longer, left.text, level, c0.None?, left.ending, line) &&
             left.ending == old(left).ending && |left.text| < |old(left).text|
    {
      ghost var s, piece, position := left.text, input.piece, Position();
      c, r, longer := c0, [], text;
      var synced, mark := Capture([], 0, 0, false), Mark(0, 0);
      if c.Some? {
        synced, mark := MakeMark(c.value, text);
        c := Some(synced);
        assert Holds(synced, text);
      }
      PieceLeft();
      var generation := input.pieceGeneration;
      var equals;
      closed, equals, err := TryLongClose(level);
      if err.Some? {
        return;
      }
      longer := text + [CLOSE] + Repeated(EQUAL, equals);
      if c.Some? {
        if closed {
          var owned;
          r, owned := FinishAt(synced, mark, text);
        } else {
          synced := KeepBracket(synced, mark, generation, equals, text, s, piece, position);
          c := Some(synced);
        }
      }
    }

    /** What stops the plain bytes of a long string. */
    method LongSpecial(c0: Option<Capture>, code: Byte, level: nat, ghost text: seq<Byte>)
      returns (c: Option<Capture>, closed: bool, r: seq<Byte>, err: Option<Failure>, ghost longer: seq<Byte>)
      requires Valid() && Tracks(c0, text) && (c0.Some? ==> InSync(c0.value))
      requires left.text != [] && code == left.text[0] && offset < |window| && !IsLongPlain(code, level)
      modifies this`window, this`offset, this`scratch, this`left, this`line, input
      ensures Valid() && (c.Some? <==> c0.Some?)
      ensures var whole := LongBody(text, old(left).text, level, c0.None?, old(left).ending, old(line));
        if closed || err.Some? then Agrees(whole, err, left, old(left).ending, line) && (err.None? && c0.Some? ==> r == whole.value)
        else Tracks(c, longer) && whole == LongBody(longer, left.text, level, c0.None?, left.ending, line) &&
             left.ending == old(left).ending && |left.text| < |old(left).text|
    {
      closed, r := false, [];
      if code == OPEN {
        c, longer := c0, text + [OPEN];
        err := LongOpen(c, text);
      } else if code == CLOSE {
        c, closed, r, err, longer := LongClose(c0, level, text);
      } else {
        longer := text + [NEWLINE];
        c, err := LongBreak(c0, text);
      }
    }

    /** One step of a long string or comment: plain bytes and what stops them. */
    method LongStep(c0: Option<Capture>, level: nat, ghost text: seq<Byte>)
      returns (c: Option<Capture>, done: bool, r: seq<Byte>, err: Option<Failure>, ghost longer: seq<Byte>)
      requires Valid() && Tracks(c0, text)
      modifies this`window, this`offset, this`scratch, this`left, this`line, input
      ensures Valid() && (c.Some? <==> c0.Some?)
      ensures var whole := LongBody(text, old(left).text, level, c0.None?, old(left).ending, old(line));
        if done then Agrees(whole, err, left, old(left).ending, line) && (err.None? && c0.Some? ==> r == whole.value)
        else Tracks(c, longer) && whole == LongBody(longer, left.text, level, c0.None?, left.ending, line) &&
             left.ending == old(left).ending && |left.text| < |old(left).text|
    {
      var code, more;
      done, r, err := false, [], None;
      c, code, more, longer := LongPlain(c0, level, text);
      if more {
        return;
      }
      if code.None? {
        err := InputError();
        if err.None? {
          err := Some(UnfinishedLong(line, c.None?));
        }
        done := true;
        return;
      }
      c, done, r, err, longer := LongSpecial(c, code.value, level, longer);
      done := done || err.Some?;
    }

    /** A line break right after the opening bracket. */
    method SkipFirstBreak(ghost level: nat, ghost comment: bool) returns (err: Option<Failure>)
      requires Valid()
      modifies this`window, this`offset, this`left, this`line, input
      ensures Valid() && (err.None? ==> left.ending == old(left).ending)
      ensures var whole := Long(old(left).text, level, comment, old(left).ending, old(line));
        if err.Some? then whole == Fails(err.value) else whole == LongBody([], left.text, level, comment, left.ending, line)
    {
      var code := CurrentCode(None, []);
      if code.None? {
        err := InputError();
        return;
      }
      err := None;
      if IsNewline(code.value) {
        var normalize;
        normalize, err := ConsumeNewline(None, []);
      }
    }

    /** The rest of a long string or comment. */
    method ReadLong(level: nat, keepText: bool) returns (r: seq<Byte>, err: Option<Failure>)
      requires Valid()
      modifies this`window, this`offset, this`scratch, this`left, this`line, input
      ensures Valid() && var whole := Long(old(left).text, level, !keepText, old(left).ending, old(line));
        Agrees(whole, err, left, old(left).ending, line) && (err.None? && keepText ==> r == whole.value)
    {
      ghost var start, line0, text := left, line, [];
      r := [];
      err := SkipFirstBreak(level, !keepText);
      ghost var whole := LongBody([], left.text, level, !keepText, left.ending, line);
      if err.Some? {
        return;
      }
      var c: Option<Capture> := None;
      if keepText {
        var begun := BeginTextCapture();
        c := Some(begun);
      }
      var done := false;
      while !done
        invariant Valid() && (c.Some? <==> keepText)
        invariant if done then Agrees(whole, err, left, start.ending, line) && (err.None? && keepText ==> r == whole.value)
          else Tracks(c, text) && whole == LongBody(text, left.text, level, !keepText, left.ending, line) && left.ending == start.ending
        decreases !done, |left.text|
      {
        c, done, r, err, text := LongStep(c, level, text);
      }
    }

    /** After an opening bracket: equal signs, and the second bracket if there is one. */
    method LongDelimiterTail() returns (level: nat, matched: bool, err: Option<Failure>)
      requires Valid()
      modifies this`window, this`offset, this`scratch, this`left, input
      ensures Valid() && level == Span(EqualSigns, old(left).text) && err == BrokenHere(Dropped(old(left), level))
      ensures err.None? ==> (matched <==> LongLevel(old(left).text).Some?)
      ensures err.None? ==> |old(left).text| >= (if matched then 1 else 0) + level && left == Dropped(old(left), if matched then level + 1 else level)
    {
      ghost var start := left;
      matched := false;
      level, err := ConsumeEquals();
      if err.Some? {
        return;
      }
      var code := CurrentCode(None, []);
      if code.None? {
        err := InputError();
        return;
      }
      assert left.text[0] == start.text[level];
      if code.value != OPEN {
        return;
      }
      PassOne();
      DroppedTwice(start, level, 1);
      matched := true;
    }

    // ----- numbers -----

    method CountClass(w: seq<Byte>, from: nat, kind: ScanClass) returns (n: nat)
      requires from <= |w|
      ensures n == from + Span(kind, w[from..])
    {
      n := from;
      while n < |w| && InClass(kind, w[n])
        invariant from <= n <= |w| && forall i :: from <= i < n ==> InClass(kind, w[i])
      {
        n := n + 1;
      }
      SpanIs(kind, w[from..], n - from);
    }

    /** How much of a window is a numeral. */
    method CountNumeral(w: seq<Byte>, start: nat) returns (n: nat)
      requires start <= |w|
      ensures n == start + NumeralLength(w[start..])
    {
      n := CountClass(w, start, NumberBody);
      assert w[start..][n - start..] == w[n..];
      ghost var body := n;
      if n < |w| && (w[n] == 101 || w[n] == 69) {
        n := n + 1;
        if n < |w| && (w[n] == PLUS || w[n] == MINUS) {
          n := n + 1;
        }
      }
      assert n == body + ExponentLength(w[body..]) && w[start..][n - start..] == w[n..];
      n := CountClass(w, n, NameBody);
    }

    /** A numeral that ends inside the window. */
    method ReadNumberWindow(w: seq<Byte>) returns (kind: Kind, complete: bool, err: Option<Failure>)
      requires Valid() && w != [] && offset < |window| && w == window[offset..] && w <= left.text && (w[0] == DOT || IsDigit(w[0]))
      modifies this`offset, this`left
      ensures Valid() && (complete || (err == None && left == old(left) && offset == old(offset)))
      ensures complete ==> var whole := Number(old(left).text, if w[0] == DOT then 1 else 0, parse, old(left).ending, line);
        Agrees(whole, err, left, old(left).ending, line) && (err.None? ==> kind == whole.value)
    {
      kind, complete, err := EndOfText, false, None;
      var start := if w[0] == DOT then 1 else 0;
      var n := CountNumeral(w, start);
      if n == |w| {
        return;
      }
      complete := true;
      NumberThere(w, left.text, start, n);
      kind, err := TakeNumeral(n, start);
    }

    /** Reads a numeral of the window. */
    method TakeNumeral(n: nat, ghost start: nat) returns (kind: Kind, err: Option<Failure>)
      requires Valid() && window != [] && offset + n < |window| && window[offset..] <= left.text
      requires start <= n < |left.text| && n == start + NumeralLength(left.text[start..])
      modifies this`offset, this`left
      ensures Valid() && var whole := Number(old(left).text, start, parse, old(left).ending, line);
        Agrees(whole, err, left, old(left).ending, line) && (err.None? ==> kind == whole.value)
    {
      var literal := window[offset..offset + n];
      assert literal == left.text[..n];
      var number := parse(literal);
      if number.None? {
        return EndOfText, Some(MalformedNumber(line, literal));
      }
      Pass(None, n, []);
      return Numeral(number.value), None;
    }

    /** An exponent mark and its sign. */
    method PassExponent(c0: Capture, ghost text: seq<Byte>) returns (c: Capture, err: Option<Failure>)
      requires Valid() && Tracks(Some(c0), text)
      modifies this`window, this`offset, this`scratch, this`left, input
      ensures Valid() && (err.Some? ==> err == BrokenHere(left))
      ensures left == Dropped(old(left), ExponentLength(old(left).text)) && Tracks(Some(c), text + old(left).text[..ExponentLength(old(left).text)])
    {
      ghost var start := left;
      DroppedNone(left);
      assert text + left.text[..0] == text;
      c := c0;
      var code := CurrentCode(Some(c), text);
      if code.None? {
        err := InputError();
        return;
      }
      err := None;
      c := Sync(c, text);
      if code.value != 101 && code.value != 69 {
        return;
      }
      Pass(Some(c), 1, text);
      ghost var longer := text + start.text[..1];
      code := CurrentCode(Some(c), longer);
      if code.None? {
        err := InputError();
        return;
      }
      c := Sync(c, longer);
      if code.value == PLUS || code.value == MINUS {
        assert longer + left.text[..1] == text + start.text[..2];
        Pass(Some(c), 1, longer);
        DroppedTwice(start, 1, 1);
      }
    }

    /** Passes the digits of a numeral and its exponent mark. */
    method PassMantissa(c0: Capture, ghost text: seq<Byte>) returns (c: Capture, err: Option<Failure>)
      requires Valid() && Tracks(Some(c0), text)
      modifies this`window, this`offset, this`scratch, this`left, input
      ensures Valid() && (err.Some? ==> err == BrokenHere(Dropped(old(left), MantissaLength(old(left).text))))
      ensures err.None? ==> left == Dropped(old(left), MantissaLength(old(left).text))
      ensures err.None? ==> Tracks(Some(c), text + old(left).text[..MantissaLength(old(left).text)])
    {
      ghost var t, n := left, Span(NumberBody, left.text);
      var body;
      body, err := AdvanceWhile(Some(c0), NumberBody, text);
      if err.Some? {
        return c0, err;
      }
      PassedOn(t, n, ExponentLength(left.text), text);
      c, err := PassExponent(body.value, text + t.text[..n]);
    }

    /** Passes the rest of a numeral. */
    method PassNumeral(c0: Capture, ghost text: seq<Byte>) returns (c: Capture, err: Option<Failure>)
      requires Valid() && Tracks(Some(c0), text)
      modifies this`window, this`offset, this`scratch, this`left, input
      ensures Valid() && err == BrokenHere(Dropped(old(left), NumeralLength(old(left).text)))
      ensures err.None? ==> left == Dropped(old(left), NumeralLength(old(left).text))
      ensures err.None? ==> Tracks(Some(c), text + old(left).text[..NumeralLength(old(left).text)])
    {
      ghost var t, m := left, MantissaLength(left.text);
      c, err := PassMantissa(c0, text);
      if err.Some? {
        assert t.text[m..] == [];
        return;
      }
      PassedOn(t, m, Span(NameBody, left.text), text);
      var rest;
      rest, err := AdvanceWhile(Some(c), NameBody, text + t.text[..m]);
      c := rest.value;
    }

    /** A numeral, of which `start` bytes have been passed. */
    method ReadNumber(c0: Capture, ghost s: seq<Byte>, ghost start: nat) returns (kind: Kind, err: Option<Failure>)
      requires Valid() && start <= |s| && left.text == s[start..] && Tracks(Some(c0), s[..start])
      modifies this`window, this`offset, this`scratch, this`left, input
      ensures Valid() && var whole := Number(s, start, parse, old(left).ending, line);
        Agrees(whole, err, left, old(left).ending, line) && (err.None? ==> kind == whole.value)
    {
      ghost var n := NumeralLength(left.text);
      assert s[..start] + s[start..][..n] == s[..start + n] && s[start..][n..] == s[start + n..];
      kind := EndOfText;
      var c;
      c, err := PassNumeral(c0, s[..start]);
      if err.Some? {
        return;
      }
      var literal, owned := Finish(c, s[..start + n]);
      var number := parse(literal);
      if number.None? {
        err := Some(MalformedNumber(line, literal));
        return;
      }
      kind := Numeral(number.value);
    }

    // ----- tokens -----

    /** Takes the next byte if it is the expected one. */
    method AcceptByte(expected: Byte) returns (matched: bool, err: Option<Failure>)
      requires Valid()
      modifies this`window, this`offset, this`left, input
      ensures Valid() && err == BrokenHere(old(left)) && (err.None? ==> (matched <==> old(left).text != [] && old(left).text[0] == expected))
      ensures err.None? ==> left == if matched then Dropped(old(left), 1) else old(left)
    {
      var code := CurrentCode(None, []);
      if code.None? {
        err := InputError();
        return false, err;
      }
      if code.value != expected {
        return false, None;
      }
      PassOne();
      return true, None;
    }

    /** A symbol that one more byte makes a longer one. */
    method ReadPair(first: Byte, second: Byte) returns (kind: Kind, err: Option<Failure>)
      requires Valid() && offset < |window| && left.text != [] && left.text[0] == first
      modifies this`window, this`offset, this`left, input
      ensures Valid() && var whole := Pair(old(left).text, second, old(left).ending, line);
        Agrees(whole, err, left, old(left).ending, line) && (err.None? ==> kind == whole.value)
    {
      DroppedTwice(left, 1, if |left.text| > 1 then 1 else 0);
      PassOne();
      var matched;
      matched, err := AcceptByte(second);
      kind := if matched then Longer([first, second]) else Symbol(first);
    }

    /** A name or keyword. */
    method ReadName(w: seq<Byte>) returns (kind: Kind, err: Option<Failure>)
      requires Valid() && w != [] && offset < |window| && w == window[offset..] && w <= left.text
      modifies this`window, this`offset, this`scratch, this`left, input
      ensures Valid() && var whole := Name(old(left).text, old(left).ending, line);
        Agrees(whole, err, left, old(left).ending, line) && (err.None? ==> kind == whole.value)
    {
      ghost var s := left;
      var count := CountClass(w, 1, NameBody);
      if count != |w| {
        NameThere(w, s.text, count);
        Pass(None, count, []);
        return Word(w[..count]), None;
      }
      kind := EndOfText;
      var c := BeginTextCapture();
      Pass(Some(c), count, []);
      assert [] + s.text[..count] == s.text[..count];
      kind, err := FinishName(c, s, count);
    }

    /** A name that goes on in the next window. */
    method FinishName(c0: Capture, ghost s: Stream, ghost count: nat) returns (kind: Kind, err: Option<Failure>)
      requires Valid() && 1 <= count <= |s.text| && left == Dropped(s, count) && Tracks(Some(c0), s.text[..count])
      requires forall i :: 1 <= i < count ==> IsNameContinue(s.text[i])
      modifies this`window, this`offset, this`scratch, this`left, input
      ensures Valid() && var whole := Name(s.text, s.ending, line);
        Agrees(whole, err, left, s.ending, line) && (err.None? ==> kind == whole.value)
    {
      kind := EndOfText;
      NameOn(s, count);
      ghost var n := Span(NameBody, left.text);
      var c;
      c, err := AdvanceWhile(Some(c0), NameBody, s.text[..count]);
      if err.Some? {
        return;
      }
      var text, owned := Finish(c.value, s.text[..count + n]);
      kind := Word(text);
    }

    /** One dot, two, three, or the start of a numeral. */
    method ReadDots(w: seq<Byte>) returns (kind: Kind, err: Option<Failure>)
      requires Valid() && w != [] && offset < |window| && w == window[offset..] && w <= left.text && w[0] == DOT
      modifies this`window, this`offset, this`scratch, this`left, input
      ensures Valid() && var whole := Dots(old(left).text, parse, old(left).ending, line);
        Agrees(whole, err, left, old(left).ending, line) && (err.None? ==> kind == whole.value)
    {
      if |w| > 1 && w[1] != DOT && IsDigit(w[1]) {
        var complete;
        kind, complete, err := ReadNumberWindow(w);
        if complete {
          return;
        }
      }
      kind, err := ReadDotsSlow();
    }

    method ReadDotsSlow() returns (kind: Kind, err: Option<Failure>)
      requires Valid() && left.text != [] && offset < |window| && left.text[0] == DOT
      modifies this`window, this`offset, this`scratch, this`left, input
      ensures Valid() && var whole := Dots(old(left).text, parse, old(left).ending, line);
        Agrees(whole, err, left, old(left).ending, line) && (err.None? ==> kind == whole.value)
    {
      ghost var s := left.text;
      kind := Symbol(DOT);
      var c := BeginTextCapture();
      assert [] + s[..1] == s[..1];
      Pass(Some(c), 1, []);
      var next := CurrentCode(Some(c), s[..1]);
      if next.None? {
        err := InputError();
        return;
      }
      err := None;
      if next.value == DOT {
        kind, err := ReadThirdDot(s);
      } else if IsDigit(next.value) {
        kind, err := ReadNumber(c, s, 1);
      }
    }

    method ReadThirdDot(ghost s: seq<Byte>) returns (kind: Kind, err: Option<Failure>)
      requires Valid() && offset < |window| && |s| > 1 && s[0] == s[1] == DOT && left.text == s[1..]
      modifies this`window, this`offset, this`left, input
      ensures Valid() && var whole := Dots(s, parse, old(left).ending, line);
        Agrees(whole, err, left, old(left).ending, line) && (err.None? ==> kind == whole.value)
    {
      PassOne();
      var matched;
      matched, err := AcceptByte(DOT);
      kind := if matched then Longer([DOT, DOT, DOT]) else Longer([DOT, DOT]);
    }

    /** A long string or a bracket. */
    method ReadBracket() returns (kind: Kind, err: Option<Failure>)
      requires Valid() && offset < |window| && left.text != [] && left.text[0] == OPEN
      modifies this`window, this`offset, this`scratch, this`left, this`line, input
      ensures Valid() && var whole := Bracket(old(left).text, old(left).ending, old(line));
        Agrees(whole, err, left, old(left).ending, line) && (err.None? ==> kind == whole.value)
    {
      ghost var s := left;
      kind := Symbol(OPEN);
      PassOne();
      var level, matched;
      level, matched, err := LongDelimiterTail();
      DroppedTwice(s, 1, level);
      if err.Some? {
        return;
      }
      if matched {
        DroppedTwice(s, 1, level + 1);
        var text;
        text, err := ReadLong(level, true);
        kind := String(text);
      } else if level != 0 {
        err := Some(InvalidDelimiter(line));
      }
    }

    /** The token that starts with the first byte of the window. */
    method ReadLexeme(w: seq<Byte>) returns (kind: Kind, err: Option<Failure>)
      requires Valid() && w != [] && offset < |window| && w == window[offset..] && w <= left.text
      modifies this`window, this`offset, this`scratch, this`left, this`line, input
      ensures Valid() && var whole := Lexeme(old(left).text, parse, old(left).ending, old(line));
        Agrees(whole, err, left, old(left).ending, line) && (err.None? ==> kind == whole.value)
    {
      var b := w[0];
      if b == OPEN {
        kind, err := ReadBracket();
      } else if b == QUOTE || b == APOSTROPHE {
        PassOne();
        var text;
        text, err := ReadQuoted(b);
        kind := String(text);
      } else if b == DOT {
        kind, err := ReadDots(w);
      } else if b == COLON {
        kind, err := ReadPair(b, COLON);
      } else if b == EQUAL || b == LESS || b == GREATER || b == TILDE {
        kind, err := ReadPair(b, EQUAL);
      } else if IsDigit(b) {
        kind, err := ReadNumeral(w);
      } else if IsNameStart(b) {
        kind, err := ReadName(w);
      } else {
        PassOne();
        kind, err := Symbol(b), None;
      }
    }

    method ReadNumeral(w: seq<Byte>) returns (kind: Kind, err: Option<Failure>)
      requires Valid() && w != [] && offset < |window| && w == window[offset..] && w <= left.text && IsDigit(w[0])
      modifies this`window, this`offset, this`scratch, this`left, input
      ensures Valid() && var whole := Number(old(left).text, 0, parse, old(left).ending, line);
        Agrees(whole, err, left, old(left).ending, line) && (err.None? ==> kind == whole.value)
    {
      var complete;
      kind, complete, err := ReadNumberWindow(w);
      if complete {
        return;
      }
      var c := BeginTextCapture();
      ghost var s := left.text;
      assert s[0..] == s && s[..0] == [];
      kind, err := ReadNumber(c, s, 0);
    }

    /** A comment, after its two dashes. */
    method SkipComment() returns (err: Option<Failure>)
      requires Valid()
      modifies this`window, this`offset, this`scratch, this`left, this`line, input
      ensures Valid() && Agrees(Comment(old(left).text, old(left).ending, old(line)), err, left, old(left).ending, line)
    {
      ghost var s := left;
      var code := CurrentCode(None, []);
      if code.None? {
        err := InputError();
        if err.Some? {
          return;
        }
      } else if code.value == OPEN {
        PassOne();
        var level, matched;
        level, matched, err := LongDelimiterTail();
        DroppedTwice(s, 1, level);
        if err.Some? {
          return;
        }
        if matched {
          DroppedTwice(s, 1, level + 1);
          var text;
          text, err := ReadLong(level, false);
          return;
        }
      }
      err := SkipLine();
    }

    method SkipLine() returns (err: Option<Failure>)
      requires Valid()
      modifies this`window, this`offset, this`scratch, this`left, input
      ensures Valid() && Agrees(LineRest(old(left).text, old(left).ending, line), err, left, old(left).ending, line)
    {
      var c;
      c, err := AdvanceWhile(None, LineBody, []);
    }

    /** A dash that is a token, or a comment. */
    method ReadDash() returns (alone: bool, err: Option<Failure>)
      requires Valid() && offset < |window| && left.text != [] && left.text[0] == MINUS
      modifies this`window, this`offset, this`scratch, this`left, this`line, input
      ensures Valid() && var whole := Dash(old(left).text, old(left).ending, old(line));
        Agrees(whole, err, left, old(left).ending, line) && (err.None? ==> alone == whole.value)
    {
      ghost var s := left;
      PassOne();
      alone, err := true, None;
      var code := CurrentCode(None, []);
      if code.None? {
        err := InputError();
        return;
      }
      if code.value != MINUS {
        return;
      }
      PassOne();
      DroppedTwice(s, 1, 1);
      alone := false;
      err := SkipComment();
    }

    /** Spaces, and one line break, one comment, or the token. */
    method ScanStep() returns (found: Option<Token>, err: Option<Failure>)
      requires Valid()
      modifies this`window, this`offset, this`scratch, this`left, this`line, input
      ensures Valid() && var whole := Scan(old(left).text, parse, old(left).ending, old(line));
        if err.Some? || found.Some? then Agrees(whole, err, left, old(left).ending, line) && (err.None? ==> found == Some(whole.value))
        else whole == Scan(left.text, parse, left.ending, line) && left.ending == old(left).ending && |left.text| < |old(left).text|
    {
      found := None;
      var c;
      c, err := AdvanceWhile(None, HorizontalSpace, []);
      if err.Some? {
        return;
      }
      var w := InputWindow(None, []);
      if |w| == 0 {
        err := InputError();
        if err.None? {
          found := Some(Token(EndOfText, line));
        }
        return;
      }
      if IsNewline(w[0]) {
        var normalize;
        normalize, err := ConsumeNewline(None, []);
        return;
      }
      var at := line;
      if w[0] == MINUS {
        var alone;
        alone, err := ReadDash();
        if err.None? && alone {
          found := Some(Token(Symbol(MINUS), at));
        }
        return;
      }
      var kind;
      kind, err := ReadLexeme(w);
      if err.None? {
        found := Some(Token(kind, at));
      }
    }

    /** The next token of the text. */
    method ScanToken() returns (found: Option<Token>, err: Option<Failure>)
      requires Valid()
      modifies this`window, this`offset, this`scratch, this`left, this`line, input
      ensures Valid() && var whole := Scan(old(left).text, parse, old(left).ending, old(line));
        Agrees(whole, err, left, old(left).ending, line) && (err.None? ==> found == Some(whole.value))
    {
      ghost var start, line0 := left, line;
      found, err := None, None;
      while found.None? && err.None?
        invariant Valid() && var whole := Scan(start.text, parse, start.ending, line0);
          if err.Some? || found.Some? then Agrees(whole, err, left, start.ending, line) && (err.None? ==> found == Some(whole.value))
          else whole == Scan(left.text, parse, left.ending, line) && left.ending == start.ending
        decreases found.None? && err.None?, |left.text|
      {
        found, err := ScanStep();
      }
    }

    /** What the next call of Next will see. */
    ghost function Coming(): Scanned<Token>
      reads `lookahead, `left, `line
    {
      if lookahead.Some? then Read(lookahead.value, left.text, line) else Scan(left.text, parse, left.ending, line)
    }

    /** Takes the next token. */
    method Next() returns (token: Token, err: Option<Failure>)
      requires Valid()
      modifies this`window, this`offset, this`scratch, this`left, this`line, this`lookahead, input
      ensures Valid() && Agrees(old(Coming()), err, left, old(left).ending, line)
      ensures err.None? ==> token == old(Coming()).value && lookahead == None
    {
      token, err := Token(EndOfText, line), None;
      if lookahead.Some? {
        token, lookahead := lookahead.value, None;
        return;
      }
      var found;
      found, err := ScanToken();
      if err.None? {
        token := found.value;
      }
    }

    /** Looks at the next token. The call of Next that follows sees the same one. */
    method Peek() returns (token: Token, err: Option<Failure>)
      requires Valid()
      modifies this`window, this`offset, this`scratch, this`left, this`line, this`lookahead, input
      ensures Valid() && if old(Coming()).Fails? then err == Some(old(Coming()).failure) else err == None && token == old(Coming()).value
      ensures err.None? ==> Coming() == old(Coming()) && left.ending == old(left).ending
    {
      token, err := Token(EndOfText, line), None;
      if lookahead.None? {
        var found;
        found, err := ScanToken();
        if err.Some? {
          return;
        }
        lookahead := found;
      }
      token := lookahead.value;
    }
  }

  /** Takes one token, after a look at it if asked to. */
  method Take(lexer: Lexer, look: bool) returns (token: Token, err: Option<Failure>)
    requires lexer.Valid()
    modifies lexer, lexer.input
    ensures lexer.Valid() && Agrees(old(lexer.Coming()), err, lexer.left, old(lexer.left).ending, lexer.line)
    ensures err.None? ==> token == old(lexer.Coming()).value && lexer.lookahead == None
  {
    if look {
      token, err := lexer.Peek();
      if err.Some? {
        return;
      }
    }
    token, err := lexer.Next();
  }

  /** All tokens of an input that comes in pieces, with looks ahead wherever the reader wants them: those of the whole
      text, whatever the pieces are and whenever the reader looks. */
  method ReadTokens(refills: seq<Refill>, controlled: bool, parse: seq<Byte> -> Option<nat>, looks: set<nat>) returns (tokens: seq<Token>, err: Option<Failure>)
    ensures (tokens, err) == Tokens(Unread(refills).text, parse, Unread(refills).ending, 1)
  {
    var input := new ChunkInput.FromRefills(refills, controlled);
    var lexer := new Lexer(input, parse);
    ghost var whole, ending := Tokens(lexer.left.text, parse, lexer.left.ending, 1), lexer.left.ending;
    tokens, err := [], None;
    assert [] + whole.0 == whole.0;
    var done := false;
    while !done
      invariant lexer.Valid() && fresh(lexer) && fresh(lexer.input) && lexer.parse == parse
      invariant if done then (tokens, err) == whole
        else err == None && lexer.lookahead == None && lexer.left.ending == ending &&
             var rest := Tokens(lexer.left.text, parse, ending, lexer.line); whole == (tokens + rest.0, rest.1)
      decreases !done, |lexer.left.text|
    {
      TokensOn(tokens, lexer.left.text, parse, ending, lexer.line, lexer.Coming());
      var token;
      token, err := Take(lexer, |tokens| in looks);
      done := err.Some? || token.kind.EndOfText?;
      if err.None? {
        tokens := tokens + [token];
      }
    }
  }
}
