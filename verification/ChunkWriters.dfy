/** Writing a prototype as a binary chunk. */
module ChunkWriters {
  import opened Wrappers
  import opened ChunkInputs
  import opened ChunkFormat
  import ChunkLaws

  /** After an error nothing more is written. Each method writes the bytes of its part; `tail` is what will follow. */
  class ChunkWriter {
    const layout: Layout
    var output: seq<Byte>
    var failed: bool

    constructor (layout: Layout)
      ensures this.layout == layout && output == [] && !failed
    {
      this.layout, output, failed := layout, [], false;
    }

    method WriteBytes(bytes: seq<Byte>, ghost tail: seq<Byte>)
      modifies this`output
      ensures !failed ==> output + tail == old(output) + (bytes + tail)
    {
      if !failed {
        output := output + bytes;
        assert old(output) + bytes + tail == old(output) + (bytes + tail);
      }
    }

    method WriteWord(width: nat, value: nat, ghost tail: seq<Byte>)
      modifies this`output
      ensures !failed ==> output + tail == old(output) + PutWord(layout, width, value, tail)
    {
      WriteBytes(WordBytes(layout, width, value), tail);
    }

    method WriteInt(value: nat, ghost tail: seq<Byte>)
      modifies this
      ensures failed <==> old(failed) || value > MAX_INT
      ensures !failed ==> output + tail == old(output) + PutInt(layout, value, tail)
    {
      if value > MAX_INT {
        failed := true;
        return;
      }
      WriteWord(4, value, tail);
    }

    method WriteText(text: Text, ghost tail: seq<Byte>)
      modifies this
      ensures failed <==> old(failed) || !FitsText(layout, text)
      ensures !failed ==> output + tail == old(output) + PutText(layout, text, tail)
    {
      if |text| + 1 >= Power(layout.wordSize) {
        failed := true;
        return;
      }
      WriteWord(layout.wordSize, |text| + 1, text + ([0] + tail));
      WriteBytes(text, [0] + tail);
      WriteBytes([0], tail);
    }

    method WriteString(text: Option<Text>, ghost tail: seq<Byte>)
      modifies this
      ensures failed <==> old(failed) || (text.Some? && !FitsText(layout, text.value))
      ensures !failed ==> output + tail == old(output) + PutString(layout, text, tail)
    {
      if text.None? {
        WriteWord(layout.wordSize, 0, tail);
        return;
      }
      WriteText(text.value, tail);
    }

    method WriteConstant(constant: Constant, ghost tail: seq<Byte>)
      modifies this
      ensures failed <==> old(failed) || !DumpableConstant(layout, constant)
      ensures !failed ==> output + tail == old(output) + PutConstant(layout, constant, tail)
    {
      match constant {
        case NilValue =>
          WriteBytes([0], tail);
        case BoolValue(truth) =>
          var b: Byte := if truth then 1 else 0;
          WriteBytes([1], [b] + tail);
          WriteBytes([b], tail);
        case NumberValue(bits) =>
          WriteBytes([3], PutWord(layout, 8, bits, tail));
          WriteWord(8, bits, tail);
        case StringValue(text) =>
          WriteBytes([4], PutText(layout, text, tail));
          WriteText(text, tail);
        case OtherValue =>
          failed := true;
      }
    }

    /** Instructions in their canonical form; the word after an extended SETLIST is written as it is. */
    method WriteCode(code: seq<nat>, ghost tail: seq<Byte>)
      modifies this
      ensures failed <==> old(failed) || !DumpableCode(code)
      ensures !failed ==> output + tail == old(output) + PutWords(layout, Lowered(code), tail)
    {
      var pc := 0;
      while pc < |code|
        invariant 0 <= pc <= |code| && failed == old(failed)
        invariant DumpableCode(code) <==> DumpableCode(code[pc..])
        invariant !failed ==> output + PutWords(layout, Lowered(code[pc..]), tail) == old(output) + PutWords(layout, Lowered(code), tail)
      {
        ghost var left := code[pc..];
        assert left[0] == code[pc] && left[1..] == code[pc + 1..];
        var canonical := Canonical(code[pc]);
        if Opcode(canonical) >= LUA51_OPCODES {
          failed := true;
          return;
        }
        if IsExtended(code[pc]) {
          if pc + 1 >= |code| {
            failed := true;
            return;
          }
          ghost var rest := PutWords(layout, Lowered(code[pc + 2..]), tail);
          assert left[2..] == code[pc + 2..] && left[1] == code[pc + 1];
          WordsTwo(code[pc], code[pc + 1], Lowered(code[pc + 2..]), tail);
          WriteWord(4, canonical, PutWord(layout, 4, code[pc + 1], rest));
          WriteWord(4, code[pc + 1], rest);
          pc := pc + 2;
        } else {
          ghost var rest := PutWords(layout, Lowered(code[pc + 1..]), tail);
          WordsOne(canonical, Lowered(code[pc + 1..]), tail);
          WriteWord(4, canonical, rest);
          pc := pc + 1;
        }
      }
      assert code[pc..] == [];
    }

    lemma WordsOne(word: nat, words: seq<nat>, tail: seq<Byte>)
      ensures PutWords(layout, [word] + words, tail) == PutWord(layout, 4, word, PutWords(layout, words, tail))
    {
      assert ([word] + words)[1..] == words;
    }

    lemma WordsTwo(word: nat, word': nat, words: seq<nat>, tail: seq<Byte>)
      ensures PutWords(layout, [word, word'] + words, tail) ==
        PutWord(layout, 4, word, PutWord(layout, 4, word', PutWords(layout, words, tail)))
    {
      assert [word, word'] + words == [word] + ([word'] + words);
      WordsOne(word, [word'] + words, tail);
      WordsOne(word', words, tail);
    }

    method WriteConstants(constants: seq<Constant>, ghost tail: seq<Byte>)
      modifies this
      ensures failed <==> old(failed) || !(forall i :: 0 <= i < |constants| ==> DumpableConstant(layout, constants[i]))
      ensures !failed ==> output + tail == old(output) + PutConstants(layout, constants, tail)
    {
      var i := 0;
      while i < |constants|
        invariant 0 <= i <= |constants|
        invariant failed <==> old(failed) || !(forall k :: 0 <= k < i ==> DumpableConstant(layout, constants[k]))
        invariant !failed ==> output + PutConstants(layout, constants[i..], tail) == old(output) + PutConstants(layout, constants, tail)
      {
        ConstantsAt(layout, constants, i, tail);
        WriteConstant(constants[i], PutConstants(layout, constants[i + 1..], tail));
        i := i + 1;
      }
      assert constants[i..] == [];
    }

    method WriteLines(lines: seq<nat>, ghost tail: seq<Byte>)
      modifies this
      ensures failed <==> old(failed) || !(forall i :: 0 <= i < |lines| ==> lines[i] <= MAX_INT)
      ensures !failed ==> output + tail == old(output) + PutWords(layout, lines, tail)
    {
      var i := 0;
      while i < |lines|
        invariant 0 <= i <= |lines|
        invariant failed <==> old(failed) || !(forall k :: 0 <= k < i ==> lines[k] <= MAX_INT)
        invariant !failed ==> output + PutWords(layout, lines[i..], tail) == old(output) + PutWords(layout, lines, tail)
      {
        WordsAt(layout, lines, i, tail);
        WriteInt(lines[i], PutWords(layout, lines[i + 1..], tail));
        i := i + 1;
      }
      assert lines[i..] == [];
    }

    method WriteLocal(local: LocalInfo, ghost tail: seq<Byte>)
      modifies this
      ensures failed <==> old(failed) || !DumpableLocal(layout, local)
      ensures !failed ==> output + tail == old(output) + PutLocal(layout, local, tail)
    {
      WriteText(local.name, PutInt(layout, local.startPC, PutInt(layout, local.endPC, tail)));
      WriteInt(local.startPC, PutInt(layout, local.endPC, tail));
      WriteInt(local.endPC, tail);
    }

    method WriteLocals(locals: seq<LocalInfo>, ghost tail: seq<Byte>)
      modifies this
      ensures failed <==> old(failed) || !(forall i :: 0 <= i < |locals| ==> DumpableLocal(layout, locals[i]))
      ensures !failed ==> output + tail == old(output) + PutLocals(layout, locals, tail)
    {
      var i := 0;
      while i < |locals|
        invariant 0 <= i <= |locals|
        invariant failed <==> old(failed) || !(forall k :: 0 <= k < i ==> DumpableLocal(layout, locals[k]))
        invariant !failed ==> output + PutLocals(layout, locals[i..], tail) == old(output) + PutLocals(layout, locals, tail)
      {
        LocalsAt(layout, locals, i, tail);
        WriteLocal(locals[i], PutLocals(layout, locals[i + 1..], tail));
        i := i + 1;
      }
      assert locals[i..] == [];
    }

    method WriteNames(names: seq<Text>, ghost tail: seq<Byte>)
      modifies this
      ensures failed <==> old(failed) || !(forall i :: 0 <= i < |names| ==> FitsText(layout, names[i]))
      ensures !failed ==> output + tail == old(output) + PutNames(layout, names, tail)
    {
      var i := 0;
      while i < |names|
        invariant 0 <= i <= |names|
        invariant failed <==> old(failed) || !(forall k :: 0 <= k < i ==> FitsText(layout, names[k]))
        invariant !failed ==> output + PutNames(layout, names[i..], tail) == old(output) + PutNames(layout, names, tail)
      {
        NamesAt(layout, names, i, tail);
        WriteText(names[i], PutNames(layout, names[i + 1..], tail));
        i := i + 1;
      }
      assert names[i..] == [];
    }

    method WriteDebug(debug: Debug, ghost tail: seq<Byte>)
      modifies this
      ensures failed <==> old(failed) || !DumpableDebug(layout, debug)
      ensures !failed ==> output + tail == old(output) + PutDebug(layout, debug, tail)
    {
      ghost var names := PutNames(layout, debug.upvalues, tail);
      ghost var locals := PutLocals(layout, debug.locals, PutInt(layout, |debug.upvalues|, names));
      WriteInt(|debug.lines|, PutWords(layout, debug.lines, PutInt(layout, |debug.locals|, locals)));
      WriteLines(debug.lines, PutInt(layout, |debug.locals|, locals));
      WriteInt(|debug.locals|, locals);
      WriteLocals(debug.locals, PutInt(layout, |debug.upvalues|, names));
      WriteInt(|debug.upvalues|, names);
      WriteNames(debug.upvalues, tail);
    }

    method WriteHeader(p: Prototype, parentSource: Option<Text>, ghost tail: seq<Byte>)
      modifies this
      ensures failed <==> old(failed) || !DumpableHeader(layout, p, parentSource)
      ensures !failed ==> output + tail == old(output) + PutHeader(layout, p, parentSource, tail)
    {
      ghost var t1 := [p.registers] + tail;
      ghost var t2 := [p.varargFlags] + t1;
      ghost var t3 := [p.parameters] + t2;
      ghost var t4 := [p.upvalues] + t3;
      ghost var t5 := PutInt(layout, p.lastLine, t4);
      WriteString(if p.source == parentSource then None else p.source, PutInt(layout, p.lineDefined, t5));
      WriteInt(p.lineDefined, t5);
      WriteInt(p.lastLine, t4);
      WriteBytes([p.upvalues], t3);
      WriteBytes([p.parameters], t2);
      WriteBytes([p.varargFlags], t1);
      WriteBytes([p.registers], tail);
    }

    method WriteChildren(p: Prototype, ghost tail: seq<Byte>)
      modifies this
      ensures failed <==> old(failed) || !DumpableChildren(layout, p, 0)
      ensures !failed ==> output + tail == old(output) + PutChildren(layout, p, 0, tail)
      decreases p, 0
    {
      var i := 0;
      while i < |p.children|
        invariant 0 <= i <= |p.children|
        invariant failed || !DumpableChildren(layout, p, i) <==> old(failed) || !DumpableChildren(layout, p, 0)
        invariant !failed ==> output + PutChildren(layout, p, i, tail) == old(output) + PutChildren(layout, p, 0, tail)
      {
        WriteFunction(p.children[i], p.source, PutChildren(layout, p, i + 1, tail));
        i := i + 1;
      }
    }

    /** A function with those in it, unless something in it has no place in the format. */
    method WriteFunction(p: Prototype, parentSource: Option<Text>, ghost tail: seq<Byte>)
      modifies this
      ensures failed <==> old(failed) || !Dumpable(layout, p, parentSource)
      ensures !failed ==> output + tail == old(output) + PutFunction(layout, p, parentSource, tail)
      decreases p, 1
    {
      if failed {
        return;
      }
      ghost var debug := PutDebug(layout, DebugOf(p), tail);
      ghost var children := PutInt(layout, |p.children|, PutChildren(layout, p, 0, debug));
      ghost var constants := PutInt(layout, |p.constants|, PutConstants(layout, p.constants, children));
      WriteHeader(p, parentSource, PutInt(layout, |p.code|, PutWords(layout, Lowered(p.code), constants)));
      WriteInt(|p.code|, PutWords(layout, Lowered(p.code), constants));
      WriteCode(p.code, constants);
      WriteInt(|p.constants|, PutConstants(layout, p.constants, children));
      WriteConstants(p.constants, children);
      WriteInt(|p.children|, PutChildren(layout, p, 0, debug));
      WriteChildren(p, debug);
      WriteDebug(DebugOf(p), tail);
    }
  }

  /** The chunk of a prototype, if it can be written. */
  method DumpPrototype(layout: Layout, p: Prototype) returns (chunk: Option<seq<Byte>>)
    requires layout.wordSize < 256
    ensures chunk.Some? <==> Dumpable(layout, p, None)
    ensures chunk.Some? ==> chunk.value == PutChunk(layout, p, [])
    ensures chunk.Some? ==> ChunkLaws.IsChunk(chunk.value, layout, p)
  {
    var writer := new ChunkWriter(layout);
    writer.WriteBytes(ChunkHeader(layout), PutFunction(layout, p, None, []));
    writer.WriteFunction(p, None, []);
    if writer.failed {
      return None;
    }
    ChunkLaws.PutChunkIs(layout, p);
    assert [] + PutChunk(layout, p, []) == PutChunk(layout, p, []) && writer.output + [] == writer.output;
    return Some(writer.output);
  }
}
