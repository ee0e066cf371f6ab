/** Sequential input that arrives in pieces. */
module ChunkInputs {
  import opened Wrappers

  type Byte = x: int | 0 <= x < 256

  /** Most bytes that a controlled load looks at before it polls. */
  const POLL_BYTES: nat := 0x1_0000

  /** How a refill call, or the input, ends: it goes on, the input is over, or the callback failed. */
  datatype Ending = Continues | AtEnd | Broken(cause: nat)

  /** What one call of the refill callback returns. */
  datatype Refill = Refill(piece: seq<Byte>, ending: Ending)

  /** All that is still to be read, and how the input ends then. */
  datatype Stream = Stream(text: seq<Byte>, ending: Ending)

  function After(text: seq<Byte>, rest: Stream): Stream {
    Stream(text + rest.text, rest.ending)
  }

  /** The pieces up to the first empty one or the first ending, in a row. */
  function Unread(refills: seq<Refill>): Stream {
    if refills == [] then Stream([], AtEnd)
    else if refills[0].piece == [] then Stream([], if refills[0].ending.Broken? then refills[0].ending else AtEnd)
    else if !refills[0].ending.Continues? then Stream(refills[0].piece, refills[0].ending)
    else After(refills[0].piece, Unread(refills[1..]))
  }

  /** A text in pieces of the given sizes, as a refill callback may return it. */
  function Cut(text: seq<Byte>, sizes: seq<nat>): seq<Refill> {
    if text == [] then []
    else if sizes == [] || sizes[0] == 0 || sizes[0] >= |text| then [Refill(text, Continues)]
    else [Refill(text[..sizes[0]], Continues)] + Cut(text[sizes[0]..], sizes[1..])
  }

  lemma {:induction false} CutUnread(text: seq<Byte>, sizes: seq<nat>)
    ensures Unread(Cut(text, sizes)) == Stream(text, AtEnd)
    decreases sizes
  {
    if text == [] {
    } else if sizes == [] || sizes[0] == 0 || sizes[0] >= |text| {
      assert [Refill(text, Continues)][1..] == [] && text + [] == text;
    } else {
      var rest := Cut(text[sizes[0]..], sizes[1..]);
      CutUnread(text[sizes[0]..], sizes[1..]);
      assert ([Refill(text[..sizes[0]], Continues)] + rest)[1..] == rest;
      assert text[..sizes[0]] + text[sizes[0]..] == text;
    }
  }

  function Dropped(s: Stream, count: nat): Stream
    requires count <= |s.text|
  {
    Stream(s.text[count..], s.ending)
  }

  /** The first bytes of a stream have been read, and the rest has not. */
  predicate ReadUpTo(start: Stream, read: seq<Byte>, rest: Stream) {
    read <= start.text && rest == Dropped(start, |read|)
  }

  lemma ReadMore(start: Stream, read: seq<Byte>, rest: Stream, part: seq<Byte>)
    requires ReadUpTo(start, read, rest) && part <= rest.text
    ensures ReadUpTo(start, read + part, Dropped(rest, |part|))
  {
    assert start.text[|read|..][|part|..] == start.text[|read + part|..];
    assert start.text[..|read|] + start.text[|read|..][..|part|] == start.text[..|read + part|];
  }

  class ChunkInput {
    const controlled: bool
    var refills: seq<Refill>
    var piece: seq<Byte>
    var offset: nat
    var windowEnd: nat
    var pieceGeneration: nat
    var failure: Option<nat>
    var pendingFailure: Ending
    var ended: bool

    ghost predicate Valid()
      reads this
    {
      offset <= windowEnd <= |piece| && (failure.Some? ==> offset == |piece|) && (ended ==> pendingFailure.Continues?)
    }

    /** What comes after the piece. */
    ghost function Later(): Stream
      reads this
    {
      if failure.Some? then Stream([], Broken(failure.value))
      else if !pendingFailure.Continues? then Stream([], pendingFailure)
      else if ended then Stream([], AtEnd)
      else Unread(refills)
    }

    ghost function Rest(): Stream
      requires Valid()
      reads this
    {
      After(piece[offset..], Later())
    }

    /** All of a string at once. */
    constructor FromString(text: seq<Byte>, controlled: bool)
      ensures Valid() && Rest() == Stream(text, AtEnd)
    {
      this.controlled := controlled;
      refills, piece, offset, pieceGeneration, failure, pendingFailure, ended := [], text, 0, 1, None, Continues, true;
      windowEnd := if controlled && |text| > POLL_BYTES then POLL_BYTES else |text|;
      new;
      assert text[0..] == text && text + [] == text;
    }

    /** Whatever the callback will return. */
    constructor FromRefills(refills: seq<Refill>, controlled: bool)
      ensures Valid() && Rest() == Unread(refills)
    {
      this.controlled, this.refills := controlled, refills;
      piece, offset, windowEnd, pieceGeneration, failure, pendingFailure, ended := [], 0, 0, 0, None, Continues, false;
      new;
      assert [] + Unread(refills).text == Unread(refills).text;
    }

    /** Gets the next piece when this one is used up. */
    method EnsurePiece() returns (ok: bool)
      requires Valid() && offset == |piece|
      modifies this
      ensures Valid() && Rest() == old(Rest())
      ensures ok ==> offset == 0 < |piece| && pieceGeneration == old(pieceGeneration) + 1
      ensures !ok ==> Rest().text == [] && offset == |piece| && piece == old(piece) && offset == old(offset) && windowEnd == old(windowEnd)
      ensures !ok ==> pieceGeneration == old(pieceGeneration) && (failure.Some? <==> Rest().ending.Broken?)
      ensures !ok && failure.Some? ==> Rest().ending == Broken(failure.value)
    {
      assert piece[offset..] == [];
      if failure.Some? {
        return false;
      }
      if !pendingFailure.Continues? {
        if pendingFailure.AtEnd? {
          ended := true;
        } else {
          failure := Some(pendingFailure.cause);
        }
        pendingFailure := Continues;
        return false;
      }
      if ended || refills == [] {
        return false;
      }
      var next := refills[0];
      refills := refills[1..];
      if next.piece == [] {
        if next.ending.Broken? {
          failure := Some(next.ending.cause);
        } else {
          ended := true;
        }
        return false;
      }
      piece, offset, windowEnd := next.piece, 0, 0;
      pieceGeneration := pieceGeneration + 1;
      pendingFailure := next.ending;
      assert piece[0..] == piece;
      return true;
    }

    method SetWindowEnd()
      requires Valid() && offset < |piece|
      modifies this`windowEnd
      ensures Valid() && offset < windowEnd
    {
      windowEnd := |piece|;
      if controlled && windowEnd - offset > POLL_BYTES {
        windowEnd := offset + POLL_BYTES;
      }
    }

    /** A part of what is left, empty only if nothing is. Looking at it changes nothing that is left. */
    method Window() returns (w: seq<Byte>)
      requires Valid()
      modifies this
      ensures Valid() && Rest() == old(Rest()) && w == piece[offset..windowEnd] && w <= Rest().text
      ensures w == [] ==> Rest().text == [] && (failure.Some? <==> Rest().ending.Broken?)
      ensures w == [] && failure.Some? ==> Rest().ending == Broken(failure.value)
      ensures pieceGeneration >= old(pieceGeneration) && (w == [] ==> pieceGeneration == old(pieceGeneration))
      ensures pieceGeneration == old(pieceGeneration) ==> piece == old(piece) && offset == old(offset)
      ensures pieceGeneration != old(pieceGeneration) ==> old(offset) == |old(piece)| && offset == 0
    {
      if offset != windowEnd {
        return piece[offset..windowEnd];
      }
      if failure.Some? {
        assert piece[offset..] == [];
        return [];
      }
      if offset == |piece| {
        var ok := EnsurePiece();
        if !ok {
          return [];
        }
      }
      SetWindowEnd();
      return piece[offset..windowEnd];
    }

    method Advance(count: nat)
      requires Valid() && count <= windowEnd - offset
      modifies this`offset
      ensures Valid() && count <= |old(Rest()).text| && Rest() == Dropped(old(Rest()), count) && offset == old(offset) + count
    {
      assert piece[offset..][count..] == piece[offset + count..];
      offset := offset + count;
    }

    /** The next byte, if there is one. */
    method ReadByte() returns (value: Option<Byte>)
      requires Valid()
      modifies this
      ensures Valid()
      ensures value.None? <==> old(Rest()).text == []
      ensures value.None? ==> Rest() == old(Rest())
      ensures value.Some? ==> value.value == old(Rest()).text[0] && Rest() == Dropped(old(Rest()), 1)
    {
      var window := Window();
      if |window| == 0 {
        return None;
      }
      value := Some(window[0]);
      Advance(1);
    }

    /** As much of what is next as the window has, `most` bytes at most. */
    method ReadSome(most: nat) returns (part: seq<Byte>)
      requires Valid() && most > 0
      modifies this
      ensures Valid() && |part| <= most && part <= old(Rest()).text && Rest() == Dropped(old(Rest()), |part|)
      ensures part == [] ==> old(Rest()).text == []
    {
      var window := Window();
      var take := if most > |window| then |window| else most;
      part := window[..take];
      Advance(take);
    }

    /** The next `count` bytes, wherever the pieces were cut. */
    method ReadFull(count: nat) returns (bytes: Option<seq<Byte>>)
      requires Valid()
      modifies this
      ensures Valid()
      ensures bytes.Some? <==> count <= |old(Rest()).text|
      ensures bytes.Some? ==> bytes.value == old(Rest()).text[..count] && Rest() == Dropped(old(Rest()), count)
      ensures bytes.None? ==> Rest() == Stream([], old(Rest()).ending)
    {
      ghost var start := Rest();
      var read: seq<Byte> := [];
      assert start.text[0..] == start.text;
      while |read| < count
        invariant Valid() && |read| <= count && ReadUpTo(start, read, Rest())
        decreases count - |read|
      {
        var part := ReadSome(count - |read|);
        if part == [] {
          return None;
        }
        ReadMore(start, read, Dropped(start, |read|), part);
        read := read + part;
      }
      return Some(read);
    }

    /** Passes over bytes of this piece, window by window. */
    method PassOver(count: nat)
      requires Valid() && count <= |piece| - offset
      modifies this
      ensures Valid() && count <= |old(Rest()).text| && Rest() == Dropped(old(Rest()), count)
    {
      ghost var start := Rest();
      var remaining := count;
      while remaining != 0
        invariant Valid() && 0 <= remaining <= count <= |start.text| && remaining <= |piece| - offset
        invariant Rest() == Dropped(start, count - remaining)
      {
        assert piece[offset..] != [];
        var window := Window();
        var step := if remaining > |window| then |window| else remaining;
        Advance(step);
        remaining := remaining - step;
      }
    }

    /** The same as one text: borrowed from the piece when it is all there, put together otherwise. */
    method ReadSpan(count: nat) returns (text: Option<seq<Byte>>, owned: bool)
      requires Valid()
      modifies this
      ensures Valid()
      ensures text.Some? <==> count <= |old(Rest()).text|
      ensures text.Some? ==> text.value == old(Rest()).text[..count] && Rest() == Dropped(old(Rest()), count)
    {
      if count == 0 {
        return Some([]), false;
      }
      ghost var start := Rest();
      var window := Window();
      if |window| == 0 {
        return None, false;
      }
      if count <= |piece| - offset {
        var whole, first := piece, offset;
        assert whole[first..][..count] == start.text[..count] && whole[first..first + count] == whole[first..][..count];
        PassOver(count);
        return Some(whole[first..first + count]), false;
      }
      text := ReadFull(count);
      return text, true;
    }
  }
}
