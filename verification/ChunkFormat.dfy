/** The binary chunk format of Lua 5.1: what the bytes of a prototype are. */
module ChunkFormat {
  import opened Wrappers
  import opened ChunkInputs

  const MAX_INT: nat := 0x7fff_ffff
  const MAX_DEPTH: nat := 200
  const MAX_BX: nat := 0x3ffff

  /** Lengths of strings fit a signed machine word. */
  const MAX_TEXT: nat := 0x7fff_ffff_ffff_ffff

  type Text = s: seq<Byte> | |s| < MAX_TEXT

  datatype Constant = NilValue | BoolValue(truth: bool) | NumberValue(bits: nat) | StringValue(text: Text) | OtherValue

  datatype LocalInfo = LocalInfo(name: Text, startPC: nat, endPC: nat)

  datatype Debug = Debug(lines: seq<nat>, locals: seq<LocalInfo>, upvalues: seq<Text>)

  datatype Prototype = Prototype(source: Option<Text>, lineDefined: nat, lastLine: nat,
                                 upvalues: Byte, parameters: Byte, varargFlags: Byte, registers: Byte,
                                 code: seq<nat>, constants: seq<Constant>, children: seq<Prototype>, debug: Option<Debug>)

  /** The byte order and the width of size_t on the machine. */
  datatype Layout = Layout(littleEndian: bool, wordSize: nat)

  // ----- instructions -----

  const OP_GETTABLE: nat := 6
  const OP_SETTABLE: nat := 9
  const OP_SELF: nat := 11
  const OP_SETLIST: nat := 34
  const OP_GETFIELD: nat := 38
  const OP_SETFIELD: nat := 39
  const OP_SELFFIELD: nat := 40

  /** Opcodes that the format knows. */
  const LUA51_OPCODES: nat := 38

  function Opcode(code: nat): nat { code % 64 }

  function OperandC(code: nat): nat { code / 0x4000 % 512 }

  function OperandB(code: nat): nat { code / 0x80_0000 % 512 }

  function WithOpcode(code: nat, op: nat): nat
    requires op < 64
  {
    code - code % 64 + op
  }

  lemma OpcodeReplaced(code: nat, op: nat)
    requires op < 64
    ensures Opcode(WithOpcode(code, op)) == op && WithOpcode(WithOpcode(code, op), Opcode(code)) == code
    ensures OperandC(WithOpcode(code, op)) == OperandC(code) && OperandB(WithOpcode(code, op)) == OperandB(code)
    ensures code < 0x1_0000_0000 ==> WithOpcode(code, op) < 0x1_0000_0000
  {
    var q := code / 64;
    assert code == 64 * q + code % 64 && WithOpcode(code, op) == 64 * q + op;
    assert WithOpcode(code, op) / 64 == q && WithOpcode(code, op) % 64 == op;
    assert code / 0x4000 == q / 0x100 && code / 0x80_0000 == q / 0x2_0000;
    assert WithOpcode(code, op) / 0x4000 == q / 0x100 && WithOpcode(code, op) / 0x80_0000 == q / 0x2_0000;
  }

  /** The next word is data. */
  predicate IsExtended(code: nat) {
    Opcode(code) == OP_SETLIST && OperandC(code) == 0
  }

  /** The form of an instruction in a chunk. */
  function Canonical(code: nat): nat {
    if Opcode(code) == OP_GETFIELD then WithOpcode(code, OP_GETTABLE)
    else if Opcode(code) == OP_SETFIELD then WithOpcode(code, OP_SETTABLE)
    else if Opcode(code) == OP_SELFFIELD then WithOpcode(code, OP_SELF)
    else code
  }

  predicate StringOperand(operand: nat, constants: seq<Constant>) {
    operand / 256 % 2 == 1 && operand % 256 < |constants| && constants[operand % 256].StringValue?
  }

  /** A table access by a string constant has an instruction of its own. */
  function Special(code: nat, constants: seq<Constant>): nat {
    if Opcode(code) == OP_GETTABLE && StringOperand(OperandC(code), constants) then WithOpcode(code, OP_GETFIELD)
    else if Opcode(code) == OP_SETTABLE && StringOperand(OperandB(code), constants) then WithOpcode(code, OP_SETFIELD)
    else if Opcode(code) == OP_SELF && StringOperand(OperandC(code), constants) then WithOpcode(code, OP_SELFFIELD)
    else code
  }

  /** The special instructions are used just where they can be. */
  predicate IsSpecialised(code: nat, constants: seq<Constant>) {
    (Opcode(code) == OP_GETFIELD || Opcode(code) == OP_SELFFIELD ==> StringOperand(OperandC(code), constants)) &&
    (Opcode(code) == OP_SETFIELD ==> StringOperand(OperandB(code), constants)) &&
    (Opcode(code) == OP_GETTABLE || Opcode(code) == OP_SELF ==> !StringOperand(OperandC(code), constants)) &&
    (Opcode(code) == OP_SETTABLE ==> !StringOperand(OperandB(code), constants))
  }

  lemma SpecialOfCanonical(code: nat, constants: seq<Constant>)
    requires IsSpecialised(code, constants)
    ensures Special(Canonical(code), constants) == code
  {
    OpcodeReplaced(code, OP_GETTABLE);
    OpcodeReplaced(code, OP_SETTABLE);
    OpcodeReplaced(code, OP_SELF);
  }

  lemma CanonicalOfSpecial(code: nat, constants: seq<Constant>)
    requires Opcode(code) < LUA51_OPCODES
    ensures Canonical(Special(code, constants)) == code && IsSpecialised(Special(code, constants), constants)
  {
    OpcodeReplaced(code, OP_GETFIELD);
    OpcodeReplaced(code, OP_SETFIELD);
    OpcodeReplaced(code, OP_SELFFIELD);
  }

  /** Code as a chunk has it: raw words stay as they are. */
  function Lowered(code: seq<nat>): (r: seq<nat>)
    ensures |r| == |code|
  {
    if code == [] then []
    else if IsExtended(code[0]) && |code| > 1 then [code[0], code[1]] + Lowered(code[2..])
    else [Canonical(code[0])] + Lowered(code[1..])
  }

  function Specialised(code: seq<nat>, constants: seq<Constant>): (r: seq<nat>)
    ensures |r| == |code|
  {
    if code == [] then []
    else if IsExtended(code[0]) && |code| > 1 then [code[0], code[1]] + Specialised(code[2..], constants)
    else [Special(code[0], constants)] + Specialised(code[1..], constants)
  }

  /** Code that can be written: opcodes of the format when lowered, and no raw word missing. */
  predicate DumpableCode(code: seq<nat>) {
    code != [] ==>
      Opcode(Canonical(code[0])) < LUA51_OPCODES &&
      if IsExtended(code[0]) then |code| > 1 && DumpableCode(code[2..]) else DumpableCode(code[1..])
  }

  predicate SpecialisedCode(code: seq<nat>, constants: seq<Constant>) {
    code != [] ==>
      IsSpecialised(code[0], constants) &&
      if IsExtended(code[0]) && |code| > 1 then SpecialisedCode(code[2..], constants) else SpecialisedCode(code[1..], constants)
  }

  /** Code as it may come out of a chunk. */
  predicate ChunkCode(code: seq<nat>) {
    code != [] ==>
      Opcode(code[0]) < LUA51_OPCODES && if IsExtended(code[0]) then |code| > 1 && ChunkCode(code[2..]) else ChunkCode(code[1..])
  }

  /** Specialising undoes lowering on specialised code. */
  lemma {:induction false} SpecialisedLowered(code: seq<nat>, constants: seq<Constant>)
    requires DumpableCode(code) && SpecialisedCode(code, constants)
    ensures ChunkCode(Lowered(code)) && Specialised(Lowered(code), constants) == code
    decreases |code|
  {
    if code != [] {
      var low := Lowered(code);
      OpcodeReplaced(code[0], OP_GETTABLE);
      OpcodeReplaced(code[0], OP_SETTABLE);
      OpcodeReplaced(code[0], OP_SELF);
      if IsExtended(code[0]) {
        SpecialisedLowered(code[2..], constants);
        assert low[2..] == Lowered(code[2..]) && low[0] == code[0];
      } else {
        SpecialisedLowered(code[1..], constants);
        SpecialOfCanonical(code[0], constants);
        assert low[1..] == Lowered(code[1..]) && low[0] == Canonical(code[0]);
      }
    }
  }

  /** Lowering undoes specialising on chunk code. */
  lemma {:induction false} LoweredSpecialised(code: seq<nat>, constants: seq<Constant>)
    requires ChunkCode(code)
    ensures Lowered(Specialised(code, constants)) == code && SpecialisedCode(Specialised(code, constants), constants)
    decreases |code|
  {
    if code != [] {
      var special := Specialised(code, constants);
      OpcodeReplaced(code[0], OP_GETFIELD);
      OpcodeReplaced(code[0], OP_SETFIELD);
      OpcodeReplaced(code[0], OP_SELFFIELD);
      CanonicalOfSpecial(code[0], constants);
      if IsExtended(code[0]) {
        LoweredSpecialised(code[2..], constants);
        assert special[2..] == Specialised(code[2..], constants) && special[0] == code[0];
      } else {
        LoweredSpecialised(code[1..], constants);
        assert special[1..] == Specialised(code[1..], constants) && special[0] == Special(code[0], constants);
      }
    }
  }

  // ----- bytes -----

  function Power(width: nat): (r: nat)
    ensures r > 0
  {
    if width == 0 then 1 else 256 * Power(width - 1)
  }

  function LittleBytes(width: nat, value: nat): (r: seq<Byte>)
    ensures |r| == width
  {
    if width == 0 then [] else [value % 256] + LittleBytes(width - 1, value / 256)
  }

  function Reversed(s: seq<Byte>): (r: seq<Byte>)
    ensures |r| == |s|
  {
    if s == [] then [] else Reversed(s[1..]) + [s[0]]
  }

  function WordBytes(layout: Layout, width: nat, value: nat): (r: seq<Byte>)
    ensures |r| == width
  {
    if layout.littleEndian then LittleBytes(width, value) else Reversed(LittleBytes(width, value))
  }

  function LittleValue(bytes: seq<Byte>): nat {
    if bytes == [] then 0 else bytes[0] + 256 * LittleValue(bytes[1..])
  }

  function WordValue(layout: Layout, bytes: seq<Byte>): nat {
    if layout.littleEndian then LittleValue(bytes) else LittleValue(Reversed(bytes))
  }

  lemma {:induction false} LittleRoundTrip(width: nat, value: nat)
    requires value < Power(width)
    ensures LittleValue(LittleBytes(width, value)) == value
  {
    if width > 0 {
      assert value / 256 < Power(width - 1);
      LittleRoundTrip(width - 1, value / 256);
      assert LittleBytes(width, value)[1..] == LittleBytes(width - 1, value / 256);
    }
  }

  lemma {:induction false} ReversedAppend(s: seq<Byte>, b: Byte)
    ensures Reversed(s + [b]) == [b] + Reversed(s)
  {
    if s != [] {
      assert (s + [b])[1..] == s[1..] + [b];
      ReversedAppend(s[1..], b);
    }
  }

  lemma {:induction false} ReversedTwice(s: seq<Byte>)
    ensures Reversed(Reversed(s)) == s
  {
    if s != [] {
      ReversedTwice(s[1..]);
      ReversedAppend(Reversed(s[1..]), s[0]);
    }
  }

  /** A word that fits its width is read back in either byte order. */
  lemma WordRoundTrip(layout: Layout, width: nat, value: nat)
    requires value < Power(width)
    ensures WordValue(layout, WordBytes(layout, width, value)) == value
  {
    LittleRoundTrip(width, value);
    ReversedTwice(LittleBytes(width, value));
  }

  // ----- the format: each part in front of what follows it -----

  function PutWord(layout: Layout, width: nat, value: nat, tail: seq<Byte>): seq<Byte> {
    WordBytes(layout, width, value) + tail
  }

  function PutInt(layout: Layout, value: nat, tail: seq<Byte>): seq<Byte> {
    PutWord(layout, 4, value, tail)
  }

  /** A string has its size, counting the zero at its end, in front. No string has size zero. */
  function PutText(layout: Layout, text: Text, tail: seq<Byte>): seq<Byte> {
    PutWord(layout, layout.wordSize, |text| + 1, text + ([0] + tail))
  }

  function PutString(layout: Layout, text: Option<Text>, tail: seq<Byte>): seq<Byte> {
    if text.None? then PutWord(layout, layout.wordSize, 0, tail) else PutText(layout, text.value, tail)
  }

  function PutWords(layout: Layout, words: seq<nat>, tail: seq<Byte>): seq<Byte> {
    if words == [] then tail else PutWord(layout, 4, words[0], PutWords(layout, words[1..], tail))
  }

  function PutConstant(layout: Layout, constant: Constant, tail: seq<Byte>): seq<Byte> {
    match constant
    case NilValue => [0] + tail
    case BoolValue(truth) => [1] + ([if truth then 1 else 0] + tail)
    case NumberValue(bits) => [3] + PutWord(layout, 8, bits, tail)
    case StringValue(text) => [4] + PutText(layout, text, tail)
    case OtherValue => tail
  }

  function PutConstants(layout: Layout, constants: seq<Constant>, tail: seq<Byte>): seq<Byte> {
    if constants == [] then tail else PutConstant(layout, constants[0], PutConstants(layout, constants[1..], tail))
  }

  function PutLocal(layout: Layout, local: LocalInfo, tail: seq<Byte>): seq<Byte> {
    PutText(layout, local.name, PutInt(layout, local.startPC, PutInt(layout, local.endPC, tail)))
  }

  function PutLocals(layout: Layout, locals: seq<LocalInfo>, tail: seq<Byte>): seq<Byte> {
    if locals == [] then tail else PutLocal(layout, locals[0], PutLocals(layout, locals[1..], tail))
  }

  function PutNames(layout: Layout, names: seq<Text>, tail: seq<Byte>): seq<Byte> {
    if names == [] then tail else PutText(layout, names[0], PutNames(layout, names[1..], tail))
  }

  lemma WordsAt(layout: Layout, words: seq<nat>, n: nat, tail: seq<Byte>)
    requires n < |words|
    ensures PutWords(layout, words[n..], tail) == PutWord(layout, 4, words[n], PutWords(layout, words[n + 1..], tail))
    ensures words[..n + 1] == words[..n] + [words[n]]
  {
    assert words[n..][1..] == words[n + 1..];
  }

  lemma ConstantsAt(layout: Layout, constants: seq<Constant>, n: nat, tail: seq<Byte>)
    requires n < |constants|
    ensures PutConstants(layout, constants[n..], tail) == PutConstant(layout, constants[n], PutConstants(layout, constants[n + 1..], tail))
    ensures constants[..n + 1] == constants[..n] + [constants[n]]
  {
    assert constants[n..][1..] == constants[n + 1..];
  }

  lemma LocalsAt(layout: Layout, locals: seq<LocalInfo>, n: nat, tail: seq<Byte>)
    requires n < |locals|
    ensures PutLocals(layout, locals[n..], tail) == PutLocal(layout, locals[n], PutLocals(layout, locals[n + 1..], tail))
    ensures locals[..n + 1] == locals[..n] + [locals[n]]
  {
    assert locals[n..][1..] == locals[n + 1..];
  }

  lemma NamesAt(layout: Layout, names: seq<Text>, n: nat, tail: seq<Byte>)
    requires n < |names|
    ensures PutNames(layout, names[n..], tail) == PutText(layout, names[n], PutNames(layout, names[n + 1..], tail))
    ensures names[..n + 1] == names[..n] + [names[n]]
  {
    assert names[n..][1..] == names[n + 1..];
  }

  function DebugOf(p: Prototype): Debug {
    if p.debug.Some? then p.debug.value else Debug([], [], [])
  }

  function PutDebug(layout: Layout, debug: Debug, tail: seq<Byte>): seq<Byte> {
    PutInt(layout, |debug.lines|, PutWords(layout, debug.lines,
      PutInt(layout, |debug.locals|, PutLocals(layout, debug.locals,
        PutInt(layout, |debug.upvalues|, PutNames(layout, debug.upvalues, tail))))))
  }

  function PutHeader(layout: Layout, p: Prototype, parentSource: Option<Text>, tail: seq<Byte>): seq<Byte> {
    PutString(layout, if p.source == parentSource then None else p.source,
      PutInt(layout, p.lineDefined, PutInt(layout, p.lastLine,
        [p.upvalues] + ([p.parameters] + ([p.varargFlags] + ([p.registers] + tail))))))
  }

  function PutFunction(layout: Layout, p: Prototype, parentSource: Option<Text>, tail: seq<Byte>): seq<Byte>
    decreases p, |p.children| + 1
  {
    PutHeader(layout, p, parentSource,
      PutInt(layout, |p.code|, PutWords(layout, Lowered(p.code),
        PutInt(layout, |p.constants|, PutConstants(layout, p.constants,
          PutInt(layout, |p.children|, PutChildren(layout, p, 0, PutDebug(layout, DebugOf(p), tail))))))))
  }

  /** The children from the i-th on. */
  function PutChildren(layout: Layout, p: Prototype, i: nat, tail: seq<Byte>): seq<Byte>
    requires i <= |p.children|
    decreases p, |p.children| - i
  {
    if i == |p.children| then tail
    else PutFunction(layout, p.children[i], p.source, PutChildren(layout, p, i + 1, tail))
  }

  // ----- what can be written -----

  predicate FitsText(layout: Layout, text: Text) {
    |text| + 1 < Power(layout.wordSize)
  }

  predicate DumpableConstant(layout: Layout, constant: Constant) {
    !constant.OtherValue? && (constant.StringValue? ==> FitsText(layout, constant.text))
  }

  predicate DumpableLocal(layout: Layout, local: LocalInfo) {
    FitsText(layout, local.name) && local.startPC <= MAX_INT && local.endPC <= MAX_INT
  }

  predicate DumpableDebug(layout: Layout, debug: Debug) {
    |debug.lines| <= MAX_INT && |debug.locals| <= MAX_INT && |debug.upvalues| <= MAX_INT &&
    (forall i :: 0 <= i < |debug.lines| ==> debug.lines[i] <= MAX_INT) &&
    (forall i :: 0 <= i < |debug.locals| ==> DumpableLocal(layout, debug.locals[i])) &&
    forall i :: 0 <= i < |debug.upvalues| ==> FitsText(layout, debug.upvalues[i])
  }

  predicate DumpableHeader(layout: Layout, p: Prototype, parentSource: Option<Text>) {
    (p.source == parentSource || p.source.None? || FitsText(layout, p.source.value)) && p.lineDefined <= MAX_INT && p.lastLine <= MAX_INT
  }

  predicate Dumpable(layout: Layout, p: Prototype, parentSource: Option<Text>)
    decreases p, |p.children| + 1
  {
    DumpableHeader(layout, p, parentSource) && |p.code| <= MAX_INT && DumpableCode(p.code) &&
    |p.constants| <= MAX_INT && (forall i :: 0 <= i < |p.constants| ==> DumpableConstant(layout, p.constants[i])) &&
    |p.children| <= MAX_INT && DumpableChildren(layout, p, 0) && DumpableDebug(layout, DebugOf(p))
  }

  predicate DumpableChildren(layout: Layout, p: Prototype, i: nat)
    requires i <= |p.children|
    decreases p, |p.children| - i
  {
    i < |p.children| ==> Dumpable(layout, p.children[i], p.source) && DumpableChildren(layout, p, i + 1)
  }

  // ----- what can be read -----

  predicate ReadableConstant(canonical: nat -> nat, constant: Constant) {
    constant.NumberValue? ==> constant.bits < Power(8) && canonical(constant.bits) == constant.bits
  }

  predicate ReadableDebug(p: Prototype) {
    |DebugOf(p).upvalues| <= p.upvalues &&
    (DebugOf(p).lines == [] || |DebugOf(p).lines| == |p.code|)
  }

  /** A prototype that the loader accepts: its counts are in range, its numbers are canonical, its table accesses are
      specialised and the verifier approves it with the source name that it will have. */
  predicate Readable(canonical: nat -> nat, verified: Prototype -> bool, p: Prototype, parentSource: Text)
    decreases p, |p.children| + 1
  {
    verified(Decoded(p, parentSource)) && SpecialisedCode(p.code, p.constants) && ReadableDebug(p) &&
    (forall i :: 0 <= i < |p.code| ==> p.code[i] < Power(4)) &&
    |p.constants| <= MAX_BX + 1 && (forall i :: 0 <= i < |p.constants| ==> ReadableConstant(canonical, p.constants[i])) &&
    |p.children| <= MAX_BX + 1 && ReadableChildren(canonical, verified, p, parentSource, 0)
  }

  predicate ReadableChildren(canonical: nat -> nat, verified: Prototype -> bool, p: Prototype, parentSource: Text, i: nat)
    requires i <= |p.children|
    decreases p, |p.children| - i
  {
    i < |p.children| ==>
      Readable(canonical, verified, p.children[i], SourceOf(p, parentSource)) && ReadableChildren(canonical, verified, p, parentSource, i + 1)
  }

  // ----- what comes back -----

  function SourceOf(p: Prototype, parentSource: Text): Text {
    if p.source.None? then parentSource else p.source.value
  }

  /** A function without a source name has its parent's, and a debug record with nothing in it is none. */
  function Decoded(p: Prototype, parentSource: Text): (r: Prototype)
    ensures r.source.Some? && |r.children| == |p.children|
    decreases p
  {
    var source := SourceOf(p, parentSource);
    p.(source := Some(source), debug := if p.debug == Some(Debug([], [], [])) then None else p.debug,
       children := seq(|p.children|, i requires 0 <= i < |p.children| => Decoded(p.children[i], source)))
  }

  predicate Explicit(p: Prototype)
    decreases p
  {
    p.source.Some? && p.debug != Some(Debug([], [], [])) && forall i :: 0 <= i < |p.children| ==> Explicit(p.children[i])
  }

  /** The tree comes back as it was just when every function in it has a name of its own and no empty debug record. */
  lemma {:induction false} DecodedSame(p: Prototype, parentSource: Text)
    ensures Decoded(p, parentSource) == p <==> Explicit(p)
    decreases p
  {
    var source := SourceOf(p, parentSource);
    var q := Decoded(p, parentSource);
    forall i | 0 <= i < |p.children| ensures q.children[i] == p.children[i] <==> Explicit(p.children[i]) {
      DecodedSame(p.children[i], source);
      assert q.children[i] == Decoded(p.children[i], source);
    }
    if Explicit(p) {
      assert q.children == p.children;
    }
  }

  /** How many functions are nested. */
  function Height(p: Prototype): (r: nat)
    ensures r > 0
    decreases p, |p.children| + 1
  {
    1 + ChildrenHeight(p, 0)
  }

  function ChildrenHeight(p: Prototype, i: nat): (r: nat)
    requires i <= |p.children|
    ensures forall k :: i <= k < |p.children| ==> Height(p.children[k]) <= r
    decreases p, |p.children| - i
  {
    if i == |p.children| then 0
    else
      var first, rest := Height(p.children[i]), ChildrenHeight(p, i + 1);
      if first > rest then first else rest
  }

  // ----- the chunk -----

  function ChunkHeader(layout: Layout): (r: seq<Byte>)
    requires layout.wordSize < 256
    ensures |r| == 12
  {
    [0x1b, 0x4c, 0x75, 0x61, 0x51, 0, if layout.littleEndian then 1 else 0, 4, layout.wordSize, 4, 8, 0]
  }

  /** The name that a chunk without one is given. */
  const FALLBACK_SOURCE: Text := [0x3d, 0x3f]

  function PutChunk(layout: Layout, p: Prototype, tail: seq<Byte>): seq<Byte>
    requires layout.wordSize < 256
  {
    ChunkHeader(layout) + PutFunction(layout, p, None, tail)
  }
}
