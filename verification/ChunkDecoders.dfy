/** Reading a prototype back from a binary chunk that arrives in any pieces. */
module ChunkDecoders {
  import opened Wrappers
  import opened ChunkInputs
  import opened ChunkFormat

  datatype ChunkError = BadHeader | UnexpectedEnd | BadInteger | BadString | BadConstant | BadCode | TooDeep

  datatype Result<T> = Ok(value: T) | Err(error: ChunkError) {
    predicate IsFailure() { Err? }
    function PropagateFailure<U>(): Result<U> requires Err? { Err(error) }
    function Extract(): T requires Ok? { value }
  }

  lemma {:induction false} LoweredFits(code: seq<nat>)
    requires forall i :: 0 <= i < |code| ==> code[i] < Power(4)
    ensures forall i :: 0 <= i < |code| ==> Lowered(code)[i] < Power(4)
    decreases |code|
  {
    if code != [] {
      assert Power(4) == 0x1_0000_0000;
      OpcodeReplaced(code[0], OP_GETTABLE);
      OpcodeReplaced(code[0], OP_SETTABLE);
      OpcodeReplaced(code[0], OP_SELF);
      if IsExtended(code[0]) && |code| > 1 {
        LoweredFits(code[2..]);
      } else {
        LoweredFits(code[1..]);
      }
    }
  }

  lemma DecodedChild(p: Prototype, parentSource: Text, i: nat)
    requires i < |p.children|
    ensures |Decoded(p, parentSource).children| == |p.children|
    ensures Decoded(p, parentSource).children[i] == Decoded(p.children[i], SourceOf(p, parentSource))
  {
  }

  /** Each method reads its part from any input. When `known`, the input starts with the bytes of a given value, and
      `tail` comes after them. */
  class ChunkDecoder {
    const layout: Layout
    const canonical: nat -> nat
    const verified: Prototype -> bool
    const input: ChunkInput

    constructor (layout: Layout, canonical: nat -> nat, verified: Prototype -> bool, input: ChunkInput)
      requires input.Valid() && (layout.wordSize == 4 || layout.wordSize == 8)
      ensures Valid() && this.layout == layout && this.canonical == canonical && this.verified == verified && this.input == input
    {
      this.layout, this.canonical, this.verified, this.input := layout, canonical, verified, input;
    }

    ghost predicate Valid()
      reads this, input
    {
      input.Valid() && (layout.wordSize == 4 || layout.wordSize == 8)
    }

    ghost function Left(): seq<Byte>
      requires Valid()
      reads this, input
    {
      input.Rest().text
    }

    method ReadWord(width: nat, ghost known: bool, ghost value: nat, ghost tail: seq<Byte>) returns (r: Result<nat>)
      requires Valid() && (known ==> Left() == PutWord(layout, width, value, tail) && value < Power(width))
      modifies input
      ensures Valid() && (known ==> r == Ok(value) && Left() == tail)
    {
      var bytes := input.ReadFull(width);
      if bytes.None? {
        return Err(UnexpectedEnd);
      }
      if known {
        WordRoundTrip(layout, width, value);
        assert (WordBytes(layout, width, value) + tail)[..width] == WordBytes(layout, width, value);
        assert (WordBytes(layout, width, value) + tail)[width..] == tail;
      }
      return Ok(WordValue(layout, bytes.value));
    }

    method ReadByte(ghost known: bool, ghost value: Byte, ghost tail: seq<Byte>) returns (r: Result<Byte>)
      requires Valid() && (known ==> Left() == [value] + tail)
      modifies input
      ensures Valid() && (known ==> r == Ok(value) && Left() == tail)
    {
      var b := input.ReadByte();
      if b.None? {
        return Err(UnexpectedEnd);
      }
      return Ok(b.value);
    }

    method ReadInteger(ghost known: bool, ghost value: nat, ghost tail: seq<Byte>) returns (r: Result<nat>)
      requires Valid() && (known ==> Left() == PutInt(layout, value, tail) && value <= MAX_INT)
      modifies input
      ensures Valid() && (known ==> r == Ok(value) && Left() == tail)
    {
      assert Power(4) == 0x1_0000_0000;
      var v :- ReadWord(4, known, value, tail);
      if v > MAX_INT {
        return Err(BadInteger);
      }
      return Ok(v);
    }

    method ReadString(ghost known: bool, ghost text: Option<Text>, ghost tail: seq<Byte>) returns (r: Result<Option<Text>>)
      requires Valid() && (known ==> Left() == PutString(layout, text, tail) && (text.Some? ==> FitsText(layout, text.value)))
      modifies input
      ensures Valid() && (known ==> r == Ok(text) && Left() == tail)
    {
      ghost var bytes := if text.None? then tail else text.value + ([0] + tail);
      var size :- ReadWord(layout.wordSize, known, if text.None? then 0 else |text.value| + 1, bytes);
      if size == 0 {
        return Ok(None);
      }
      if size > MAX_TEXT {
        return Err(BadString);
      }
      if known {
        assert bytes[..size] == text.value + [0] && bytes[size..] == tail;
      }
      var encoded, owned := input.ReadSpan(size);
      if encoded.None? {
        return Err(UnexpectedEnd);
      }
      if encoded.value[size - 1] != 0 {
        return Err(BadString);
      }
      var read: Text := encoded.value[..size - 1];
      return Ok(Some(read));
    }

    /** A string that has to be there. */
    method ReadText(missing: ChunkError, ghost known: bool, ghost text: Text, ghost tail: seq<Byte>) returns (r: Result<Text>)
      requires Valid() && (known ==> Left() == PutText(layout, text, tail) && FitsText(layout, text))
      modifies input
      ensures Valid() && (known ==> r == Ok(text) && Left() == tail)
    {
      var found :- ReadString(known, Some(text), tail);
      if found.None? {
        return Err(missing);
      }
      return Ok(found.value);
    }

    method ReadWords(count: nat, ghost known: bool, ghost words: seq<nat>, ghost tail: seq<Byte>) returns (r: Result<seq<nat>>)
      requires Valid() && (known ==> Left() == PutWords(layout, words, tail) && |words| == count)
      requires known ==> forall i :: 0 <= i < |words| ==> words[i] < Power(4)
      modifies input
      ensures Valid() && (known ==> r == Ok(words) && Left() == tail) && (r.Ok? ==> |r.value| == count)
    {
      var read: seq<nat> := [];
      while |read| < count
        invariant Valid() && |read| <= count
        invariant known ==> read == words[..|read|] && Left() == PutWords(layout, words[|read|..], tail)
      {
        ghost var n := |read|;
        if known { WordsAt(layout, words, n, tail); }
        var word :- ReadWord(4, known, if known then words[n] else 0, if known then PutWords(layout, words[n + 1..], tail) else []);
        read := read + [word];
      }
      if known { assert words[..count] == words && words[count..] == []; }
      return Ok(read);
    }

    method ReadConstant(ghost known: bool, ghost constant: Constant, ghost tail: seq<Byte>) returns (r: Result<Constant>)
      requires Valid() && (known ==> Left() == PutConstant(layout, constant, tail))
      requires known ==> DumpableConstant(layout, constant) && ReadableConstant(canonical, constant)
      modifies input
      ensures Valid() && (known ==> r == Ok(constant) && Left() == tail)
    {
      ghost var tag: Byte, rest := 0, tail;
      if known {
        if constant.BoolValue? { tag, rest := 1, [if constant.truth then 1 else 0] + tail; }
        else if constant.NumberValue? { tag, rest := 3, PutWord(layout, 8, constant.bits, tail); }
        else if constant.StringValue? { tag, rest := 4, PutText(layout, constant.text, tail); }
      }
      var t :- ReadByte(known, tag, rest);
      if t == 0 {
        return Ok(NilValue);
      } else if t == 1 {
        var b :- ReadByte(known, if known && constant.truth then 1 else 0, tail);
        return Ok(BoolValue(b != 0));
      } else if t == 3 {
        var bits :- ReadWord(8, known, if known then constant.bits else 0, tail);
        return Ok(NumberValue(canonical(bits)));
      } else if t == 4 {
        var text :- ReadText(BadConstant, known, if known then constant.text else [], tail);
        return Ok(StringValue(text));
      }
      return Err(BadConstant);
    }

    method ReadConstants(ghost known: bool, ghost constants: seq<Constant>, ghost tail: seq<Byte>) returns (r: Result<seq<Constant>>)
      requires Valid() && (known ==> Left() == PutInt(layout, |constants|, PutConstants(layout, constants, tail)))
      requires known ==> |constants| <= MAX_BX + 1 && forall i :: 0 <= i < |constants| ==>
        DumpableConstant(layout, constants[i]) && ReadableConstant(canonical, constants[i])
      modifies input
      ensures Valid() && (known ==> r == Ok(constants) && Left() == tail)
    {
      var count :- ReadInteger(known, |constants|, PutConstants(layout, constants, tail));
      if count > MAX_BX + 1 {
        return Err(BadCode);
      }
      var read: seq<Constant> := [];
      while |read| < count
        invariant Valid() && |read| <= count && (known ==> count == |constants|)
        invariant known ==> read == constants[..|read|] && Left() == PutConstants(layout, constants[|read|..], tail)
      {
        ghost var n := |read|;
        if known { ConstantsAt(layout, constants, n, tail); }
        var constant :- ReadConstant(known, if known then constants[n] else NilValue,
          if known then PutConstants(layout, constants[n + 1..], tail) else []);
        read := read + [constant];
      }
      if known { assert constants[..count] == constants && constants[count..] == []; }
      return Ok(read);
    }

    /** Whether the words are instructions of the format, apart from raw ones. */
    method IsChunkCode(code: seq<nat>) returns (ok: bool)
      ensures ok <==> ChunkCode(code)
    {
      var pc := 0;
      while pc < |code|
        invariant 0 <= pc <= |code| && (ChunkCode(code) <==> ChunkCode(code[pc..]))
      {
        ghost var left := code[pc..];
        assert left[0] == code[pc] && left[1..] == code[pc + 1..];
        if Opcode(code[pc]) >= LUA51_OPCODES {
          return false;
        }
        if IsExtended(code[pc]) {
          if pc + 1 >= |code| {
            return false;
          }
          assert left[2..] == code[pc + 2..];
          pc := pc + 2;
        } else {
          pc := pc + 1;
        }
      }
      return true;
    }

    lemma NextSpecialised(done: seq<nat>, left: seq<nat>, constants: seq<Constant>)
      requires left != [] && ChunkCode(left)
      ensures if IsExtended(left[0]) then
          |left| > 1 && ChunkCode(left[2..]) && done + Specialised(left, constants) == (done + [left[0], left[1]]) + Specialised(left[2..], constants)
        else
          ChunkCode(left[1..]) && done + Specialised(left, constants) == (done + [Special(left[0], constants)]) + Specialised(left[1..], constants)
    {
    }

    /** Rewrites table accesses by string constants in place. */
    method SpecializeStringTableInstructions(code: array<nat>, constants: seq<Constant>)
      requires ChunkCode(code[..])
      modifies code
      ensures code[..] == Specialised(old(code[..]), constants)
    {
      var pc := 0;
      while pc < code.Length
        invariant 0 <= pc <= code.Length && ChunkCode(code[pc..])
        invariant code[..pc] + Specialised(code[pc..], constants) == Specialised(old(code[..]), constants)
      {
        ghost var done, left := code[..pc], code[pc..];
        NextSpecialised(done, left, constants);
        if IsExtended(code[pc]) {
          assert code[pc + 2..] == left[2..] && code[..pc + 2] == done + [left[0], left[1]];
          pc := pc + 2;
          continue;
        }
        code[pc] := Special(code[pc], constants);
        assert code[pc + 1..] == left[1..] && code[..pc + 1] == done + [Special(left[0], constants)];
        pc := pc + 1;
      }
      assert code[..pc] == code[..] && Specialised([], constants) == [];
    }

    method ReadLines(count: nat, ghost known: bool, ghost lines: seq<nat>, ghost tail: seq<Byte>) returns (r: Result<seq<nat>>)
      requires Valid() && (known ==> Left() == PutWords(layout, lines, tail) && |lines| == count)
      requires known ==> forall i :: 0 <= i < |lines| ==> lines[i] <= MAX_INT
      modifies input
      ensures Valid() && (known ==> r == Ok(lines) && Left() == tail)
    {
      var read: seq<nat> := [];
      while |read| < count
        invariant Valid() && |read| <= count
        invariant known ==> read == lines[..|read|] && Left() == PutWords(layout, lines[|read|..], tail)
      {
        ghost var n := |read|;
        if known { WordsAt(layout, lines, n, tail); }
        var line :- ReadInteger(known, if known then lines[n] else 0, if known then PutWords(layout, lines[n + 1..], tail) else []);
        read := read + [line];
      }
      if known { assert lines[..count] == lines && lines[count..] == []; }
      return Ok(read);
    }

    method ReadLocal(ghost known: bool, ghost local: LocalInfo, ghost tail: seq<Byte>) returns (r: Result<LocalInfo>)
      requires Valid() && (known ==> Left() == PutLocal(layout, local, tail) && DumpableLocal(layout, local))
      modifies input
      ensures Valid() && (known ==> r == Ok(local) && Left() == tail)
    {
      var name :- ReadText(BadCode, known, local.name, PutInt(layout, local.startPC, PutInt(layout, local.endPC, tail)));
      var startPC :- ReadInteger(known, local.startPC, PutInt(layout, local.endPC, tail));
      var endPC :- ReadInteger(known, local.endPC, tail);
      return Ok(LocalInfo(name, startPC, endPC));
    }

    method ReadLocals(count: nat, ghost known: bool, ghost locals: seq<LocalInfo>, ghost tail: seq<Byte>) returns (r: Result<seq<LocalInfo>>)
      requires Valid() && (known ==> Left() == PutLocals(layout, locals, tail) && |locals| == count)
      requires known ==> forall i :: 0 <= i < |locals| ==> DumpableLocal(layout, locals[i])
      modifies input
      ensures Valid() && (known ==> r == Ok(locals) && Left() == tail)
    {
      var read: seq<LocalInfo> := [];
      while |read| < count
        invariant Valid() && |read| <= count
        invariant known ==> read == locals[..|read|] && Left() == PutLocals(layout, locals[|read|..], tail)
      {
        ghost var n := |read|;
        if known { LocalsAt(layout, locals, n, tail); }
        var local :- ReadLocal(known, if known then locals[n] else LocalInfo([], 0, 0),
          if known then PutLocals(layout, locals[n + 1..], tail) else []);
        read := read + [local];
      }
      if known { assert locals[..count] == locals && locals[count..] == []; }
      return Ok(read);
    }

    method ReadNames(count: nat, ghost known: bool, ghost names: seq<Text>, ghost tail: seq<Byte>) returns (r: Result<seq<Text>>)
      requires Valid() && (known ==> Left() == PutNames(layout, names, tail) && |names| == count)
      requires known ==> forall i :: 0 <= i < |names| ==> FitsText(layout, names[i])
      modifies input
      ensures Valid() && (known ==> r == Ok(names) && Left() == tail)
    {
      var read: seq<Text> := [];
      while |read| < count
        invariant Valid() && |read| <= count
        invariant known ==> read == names[..|read|] && Left() == PutNames(layout, names[|read|..], tail)
      {
        ghost var n := |read|;
        if known { NamesAt(layout, names, n, tail); }
        var name :- ReadText(BadCode, known, if known then names[n] else [], if known then PutNames(layout, names[n + 1..], tail) else []);
        read := read + [name];
      }
      if known { assert names[..count] == names && names[count..] == []; }
      return Ok(read);
    }

    method ReadDebug(codeCount: nat, upvalueCount: nat, ghost known: bool, ghost debug: Debug, ghost tail: seq<Byte>)
      returns (r: Result<Option<Debug>>)
      requires Valid() && (known ==> Left() == PutDebug(layout, debug, tail) && DumpableDebug(layout, debug))
      requires known ==> |debug.upvalues| <= upvalueCount && (debug.lines == [] || |debug.lines| == codeCount)
      modifies input
      ensures Valid() && (known ==> r == Ok(if debug == Debug([], [], []) then None else Some(debug)) && Left() == tail)
    {
      ghost var names := PutNames(layout, debug.upvalues, tail);
      ghost var locals := PutLocals(layout, debug.locals, PutInt(layout, |debug.upvalues|, names));
      var lineCount :- ReadInteger(known, |debug.lines|, PutWords(layout, debug.lines, PutInt(layout, |debug.locals|, locals)));
      if lineCount != 0 && lineCount != codeCount {
        return Err(BadCode);
      }
      var readLines :- ReadLines(lineCount, known, debug.lines, PutInt(layout, |debug.locals|, locals));
      var localCount :- ReadInteger(known, |debug.locals|, locals);
      var readLocals :- ReadLocals(localCount, known, debug.locals, PutInt(layout, |debug.upvalues|, names));
      var nameCount :- ReadInteger(known, |debug.upvalues|, names);
      if nameCount > upvalueCount {
        return Err(BadCode);
      }
      var readNames :- ReadNames(nameCount, known, debug.upvalues, tail);
      if |readLines| == 0 && |readLocals| == 0 && |readNames| == 0 {
        return Ok(None);
      }
      return Ok(Some(Debug(readLines, readLocals, readNames)));
    }

    method ReadCode(ghost known: bool, ghost code: seq<nat>, ghost tail: seq<Byte>) returns (r: Result<seq<nat>>)
      requires Valid() && (known ==> Left() == PutInt(layout, |code|, PutWords(layout, code, tail)) && |code| <= MAX_INT)
      requires known ==> forall i :: 0 <= i < |code| ==> code[i] < Power(4)
      modifies input
      ensures Valid() && (known && ChunkCode(code) ==> r == Ok(code) && Left() == tail) && (r.Ok? ==> ChunkCode(r.value))
    {
      var count :- ReadInteger(known, |code|, PutWords(layout, code, tail));
      var words :- ReadWords(count, known, code, tail);
      var ok := IsChunkCode(words);
      if !ok {
        return Err(BadCode);
      }
      return Ok(words);
    }

    /** The fields before the code, with the source name filled in. */
    method ReadHeader(parentSource: Text, ghost known: bool, ghost p: Prototype, ghost parentOwn: Option<Text>, ghost tail: seq<Byte>)
      returns (r: Result<Prototype>)
      requires Valid() && (known ==> Left() == PutHeader(layout, p, parentOwn, tail) && DumpableHeader(layout, p, parentOwn))
      requires known && parentOwn.Some? ==> parentOwn.value == parentSource
      modifies input
      ensures Valid() && (r.Ok? ==> r.value.source.Some?)
      ensures known ==> Left() == tail && r == Ok(Prototype(Some(SourceOf(p, parentSource)), p.lineDefined, p.lastLine,
        p.upvalues, p.parameters, p.varargFlags, p.registers, [], [], [], None))
    {
      ghost var t1 := [p.registers] + tail;
      ghost var t2 := [p.varargFlags] + t1;
      ghost var t3 := [p.parameters] + t2;
      ghost var t4 := [p.upvalues] + t3;
      ghost var t5 := PutInt(layout, p.lastLine, t4);
      var source :- ReadString(known, if p.source == parentOwn then None else p.source, PutInt(layout, p.lineDefined, t5));
      var lineDefined :- ReadInteger(known, p.lineDefined, t5);
      var lastLine :- ReadInteger(known, p.lastLine, t4);
      var upvalues :- ReadByte(known, p.upvalues, t3);
      var parameters :- ReadByte(known, p.parameters, t2);
      var varargFlags :- ReadByte(known, p.varargFlags, t1);
      var registers :- ReadByte(known, p.registers, tail);
      var name: Text := if source.None? then parentSource else source.value;
      return Ok(Prototype(Some(name), lineDefined, lastLine, upvalues, parameters, varargFlags, registers, [], [], [], None));
    }

    /** The children with the functions in them, unless they nest too deeply. */
    method ReadChildren(parentSource: Text, depth: nat, ghost known: bool, ghost p: Prototype, ghost root: Text, ghost tail: seq<Byte>)
      returns (r: Result<seq<Prototype>>)
      requires Valid() && depth <= MAX_DEPTH && (known ==> parentSource == SourceOf(p, root) && |p.children| <= MAX_BX + 1)
      requires known ==> Left() == PutInt(layout, |p.children|, PutChildren(layout, p, 0, tail))
      requires known ==> DumpableChildren(layout, p, 0) && ReadableChildren(canonical, verified, p, root, 0)
      modifies input
      ensures Valid()
      ensures known && depth + ChildrenHeight(p, 0) <= MAX_DEPTH ==> r == Ok(Decoded(p, root).children) && Left() == tail
      ensures known && depth + ChildrenHeight(p, 0) > MAX_DEPTH ==> r == Err(TooDeep)
      decreases MAX_DEPTH + 1 - depth, 2
    {
      var count :- ReadInteger(known, |p.children|, if known then PutChildren(layout, p, 0, tail) else []);
      if count > MAX_BX + 1 {
        return Err(BadCode);
      }
      r := ReadChildList(count, parentSource, depth, known, p, root, tail);
    }

    /** What is left to read are the children from the n-th on. */
    ghost predicate ChildFacts(p: Prototype, root: Text, n: nat, tail: seq<Byte>, left: seq<Byte>) {
      n <= |p.children| && left == PutChildren(layout, p, n, tail) && DumpableChildren(layout, p, n) &&
      ReadableChildren(canonical, verified, p, root, n)
    }

    /** The same, to be taken apart only where ChildFacts is named. */
    ghost predicate AtChild(p: Prototype, root: Text, n: nat, tail: seq<Byte>, left: seq<Byte>) {
      forall k {:trigger ChildFacts(p, root, k, tail, left)} :: k == n ==> ChildFacts(p, root, k, tail, left)
    }

    lemma NextChild(p: Prototype, root: Text, n: nat, tail: seq<Byte>, left: seq<Byte>) returns (after: seq<Byte>)
      requires AtChild(p, root, n, tail, left) && n < |p.children|
      ensures left == PutFunction(layout, p.children[n], p.source, after) && AtChild(p, root, n + 1, tail, after)
      ensures Dumpable(layout, p.children[n], p.source) && Readable(canonical, verified, p.children[n], SourceOf(p, root))
    {
      assert ChildFacts(p, root, n, tail, left);
      after := PutChildren(layout, p, n + 1, tail);
    }

    lemma NextHeight(p: Prototype, n: nat, limit: int)
      requires n < |p.children|
      ensures ChildrenHeight(p, n) <= limit <==> Height(p.children[n]) <= limit && ChildrenHeight(p, n + 1) <= limit
    {
    }

    method ReadChild(ghost n: nat, parentSource: Text, depth: nat, ghost known: bool, ghost p: Prototype, ghost root: Text, ghost tail: seq<Byte>)
      returns (r: Result<Prototype>)
      requires Valid() && depth <= MAX_DEPTH
      requires known ==> parentSource == SourceOf(p, root) && n < |p.children| && AtChild(p, root, n, tail, Left())
      modifies input
      ensures Valid()
      ensures known && depth + Height(p.children[n]) <= MAX_DEPTH ==>
        r == Ok(Decoded(p.children[n], parentSource)) && AtChild(p, root, n + 1, tail, Left())
      ensures known && depth + Height(p.children[n]) > MAX_DEPTH ==> r == Err(TooDeep)
      decreases MAX_DEPTH + 1 - depth, 0
    {
      ghost var child, after := p, [];
      if known {
        child := p.children[n];
        after := NextChild(p, root, n, tail, Left());
      }
      r := ReadFunction(parentSource, depth + 1, known, child, p.source, after);
    }

    method ReadChildList(count: nat, parentSource: Text, depth: nat, ghost known: bool, ghost p: Prototype, ghost root: Text, ghost tail: seq<Byte>)
      returns (r: Result<seq<Prototype>>)
      requires Valid() && depth <= MAX_DEPTH
      requires known ==> parentSource == SourceOf(p, root) && count == |p.children| && AtChild(p, root, 0, tail, Left())
      modifies input
      ensures Valid()
      ensures known && depth + ChildrenHeight(p, 0) <= MAX_DEPTH ==> r == Ok(Decoded(p, root).children) && Left() == tail
      ensures known && depth + ChildrenHeight(p, 0) > MAX_DEPTH ==> r == Err(TooDeep)
      decreases MAX_DEPTH + 1 - depth, 1
    {
      var read: seq<Prototype> := [];
      ghost var all, limit := Decoded(p, root).children, MAX_DEPTH - depth;
      while |read| < count
        invariant Valid() && |read| <= count
        invariant known ==> AtChild(p, root, |read|, tail, Left()) && read == all[..|read|]
        invariant known ==> (ChildrenHeight(p, 0) <= limit <==> ChildrenHeight(p, |read|) <= limit)
      {
        if known {
          NextHeight(p, |read|, limit);
          DecodedChild(p, root, |read|);
        }
        var next :- ReadChild(|read|, parentSource, depth, known, p, root, tail);
        read := read + [next];
      }
      if known {
        assert ChildFacts(p, root, count, tail, Left());
        assert all[..count] == all && ChildrenHeight(p, count) == 0;
      }
      return Ok(read);
    }

    /** A function with those in it. The bytes of a prototype that the loader accepts give back that prototype with the
        names it inherits; deeper nesting than the limit is refused. */
    method ReadFunction(parentSource: Text, depth: nat, ghost known: bool, ghost p: Prototype, ghost parentOwn: Option<Text>, ghost tail: seq<Byte>)
      returns (r: Result<Prototype>)
      requires Valid() && depth <= MAX_DEPTH + 1 && (known && parentOwn.Some? ==> parentOwn.value == parentSource)
      requires known ==> Left() == PutFunction(layout, p, parentOwn, tail)
      requires known ==> Dumpable(layout, p, parentOwn) && Readable(canonical, verified, p, parentSource)
      modifies input
      ensures Valid()
      ensures known && depth + Height(p) <= MAX_DEPTH + 1 ==> r == Ok(Decoded(p, parentSource)) && Left() == tail
      ensures known && depth + Height(p) > MAX_DEPTH + 1 ==> r == Err(TooDeep)
      decreases MAX_DEPTH + 1 - depth, 3
    {
      if depth > MAX_DEPTH {
        return Err(TooDeep);
      }
      ghost var debug, children, constants, code := [], [], [], [];
      if known {
        debug := PutDebug(layout, DebugOf(p), tail);
        children := PutInt(layout, |p.children|, PutChildren(layout, p, 0, debug));
        constants := PutInt(layout, |p.constants|, PutConstants(layout, p.constants, children));
        code := PutInt(layout, |p.code|, PutWords(layout, Lowered(p.code), constants));
        SpecialisedLowered(p.code, p.constants);
        LoweredFits(p.code);
      }
      var header :- ReadHeader(parentSource, known, p, parentOwn, code);
      var words :- ReadCode(known, Lowered(p.code), constants);
      var readConstants :- ReadConstants(known, p.constants, children);
      var specialised := SpecialisedCopy(words, readConstants);
      var readChildren :- ReadChildren(header.source.value, depth, known, p, parentSource, debug);
      var readDebug :- ReadDebug(|words|, header.upvalues, known, DebugOf(p), tail);
      var prototype := header.(code := specialised, constants := readConstants, children := readChildren, debug := readDebug);
      if !verified(prototype) {
        return Err(BadCode);
      }
      return Ok(prototype);
    }

    /** The words in an array of their own, specialised there. */
    method SpecialisedCopy(words: seq<nat>, constants: seq<Constant>) returns (r: seq<nat>)
      requires ChunkCode(words)
      ensures r == Specialised(words, constants)
    {
      var code := new nat[|words|](i requires 0 <= i < |words| => words[i]);
      assert code[..] == words;
      SpecializeStringTableInstructions(code, constants);
      return code[..];
    }

    method DecodeBinaryChunk(ghost known: bool, ghost p: Prototype, ghost tail: seq<Byte>) returns (r: Result<Prototype>)
      requires Valid() && (known ==> Left() == PutChunk(layout, p, tail))
      requires known ==> Dumpable(layout, p, None) && Readable(canonical, verified, p, FALLBACK_SOURCE)
      modifies input
      ensures Valid()
      ensures known ==> r == if Height(p) <= MAX_DEPTH then Ok(Decoded(p, FALLBACK_SOURCE)) else Err(TooDeep)
      ensures known && Height(p) <= MAX_DEPTH ==> Left() == tail
    {
      ghost var body := if known then PutFunction(layout, p, None, tail) else [];
      if known { assert PutChunk(layout, p, tail)[..12] == ChunkHeader(layout) && PutChunk(layout, p, tail)[12..] == body; }
      var header := input.ReadFull(12);
      if header.None? {
        return Err(UnexpectedEnd);
      }
      if header.value != ChunkHeader(layout) {
        return Err(BadHeader);
      }
      r := ReadFunction(FALLBACK_SOURCE, 1, known, p, None, tail);
    }
  }
}
