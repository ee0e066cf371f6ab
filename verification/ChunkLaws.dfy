/** The bytes of a chunk by position: every part where it is, in the byte order and with the opcodes of the format. */
module ChunkLaws {
  import opened Wrappers
  import opened ChunkInputs
  import opened ChunkFormat

  // ----- words -----

  function Weight(k: nat): (r: nat)
    ensures r > 0
  {
    if k == 0 then 1 else 256 * Weight(k - 1)
  }

  /** The k-th least significant byte of a word comes k-th in little-endian order and k-th from the end otherwise. */
  predicate ByteAt(b: seq<Byte>, i: nat, little: bool, width: nat, value: nat, k: nat)
    requires i + width <= |b| && k < width
  {
    b[if little then i + k else i + width - 1 - k] == value / Weight(k) % 256
  }

  ghost predicate WordAt(b: seq<Byte>, i: nat, little: bool, width: nat, value: nat) {
    i + width <= |b| && forall k :: 0 <= k < width ==> ByteAt(b, i, little, width, value, k)
  }

  lemma {:induction false} LittleByte(width: nat, value: nat, k: nat)
    requires k < width
    ensures LittleBytes(width, value)[k] == value / Weight(k) % 256
  {
    if k > 0 {
      LittleByte(width - 1, value / 256, k - 1);
      Quotients(value, Weight(k - 1));
    }
  }

  lemma Quotients(value: nat, w: nat)
    requires w > 0
    ensures value / 256 / w == value / (256 * w)
  {
    var q, r := value / 256, value % 256;
    var p, s := q / w, q % w;
    assert value == 256 * (p * w + s) + r && 0 <= 256 * s + r < 256 * w;
    assert value == p * (256 * w) + (256 * s + r);
    Quotient(value, 256 * w, p, 256 * s + r);
  }

  lemma Quotient(value: nat, d: nat, p: nat, r: nat)
    requires value == p * d + r && r < d
    ensures value / d == p
  {
    var q, s := value / d, value % d;
    assert q * d + s == p * d + r;
    NotBelow(p, q, d, r, s);
    NotBelow(q, p, d, s, r);
  }

  lemma NotBelow(p: nat, q: nat, d: nat, r: nat, s: nat)
    requires p * d + r == q * d + s && r < d
    ensures q <= p
  {
    if q > p {
      var n := q - p;
      assert q * d == (p + n) * d == p * d + n * d;
      AtLeast(n, d);
    }
  }

  lemma AtLeast(n: nat, d: nat)
    requires n > 0
    ensures n * d >= d
  {
  }

  lemma {:induction false} ReversedByte(s: seq<Byte>, k: nat)
    requires k < |s|
    ensures Reversed(s)[|s| - 1 - k] == s[k]
  {
    if k > 0 { ReversedByte(s[1..], k - 1); }
  }

  /** The bytes of a word by position. */
  lemma WordByte(layout: Layout, width: nat, value: nat, k: nat)
    requires k < width
    ensures WordBytes(layout, width, value)[if layout.littleEndian then k else width - 1 - k] == value / Weight(k) % 256
  {
    LittleByte(width, value, k);
    ReversedByte(LittleBytes(width, value), k);
  }

  lemma WordBytesAt(layout: Layout, width: nat, value: nat)
    ensures WordAt(WordBytes(layout, width, value), 0, layout.littleEndian, width, value)
  {
    forall k | 0 <= k < width ensures ByteAt(WordBytes(layout, width, value), 0, layout.littleEndian, width, value, k) {
      WordByte(layout, width, value, k);
    }
  }

  /** What is in front of a word does not matter to it, nor what is behind. */
  lemma WordInside(a: seq<Byte>, w: seq<Byte>, c: seq<Byte>, little: bool, width: nat, value: nat)
    requires WordAt(w, 0, little, width, value)
    ensures WordAt(a + w + c, |a|, little, width, value)
  {
    forall k | 0 <= k < width ensures ByteAt(a + w + c, |a|, little, width, value, k) {
      assert ByteAt(w, 0, little, width, value, k);
    }
  }

  // ----- code -----

  /** Word k is the data of an extended SETLIST before it. */
  predicate IsData(code: seq<nat>, k: nat)
    requires k < |code|
  {
    k > 0 && !IsData(code, k - 1) && code[k - 1] % 64 == 34 && code[k - 1] / 0x4000 % 512 == 0
  }

  /** In a chunk an instruction for a string constant is the general one: 38 is written as 6, 39 as 9 and 40 as 11. */
  function InChunk(code: seq<nat>, k: nat): nat
    requires k < |code|
  {
    var op := code[k] % 64;
    if IsData(code, k) then code[k]
    else if op == 38 then code[k] - 32
    else if op == 39 then code[k] - 30
    else if op == 40 then code[k] - 29
    else code[k]
  }

  function WordsInChunk(code: seq<nat>): (r: seq<nat>)
    ensures |r| == |code| && forall k :: 0 <= k < |code| ==> r[k] == InChunk(code, k)
  {
    seq(|code|, k requires 0 <= k < |code| => InChunk(code, k))
  }

  /** The same words behind some others that end with an instruction. */
  lemma {:induction false} DataBehind(code: seq<nat>, n: nat, k: nat)
    requires n <= |code| && k < |code| - n
    requires n > 0 ==> IsData(code, n - 1) || !(code[n - 1] % 64 == 34 && code[n - 1] / 0x4000 % 512 == 0)
    ensures IsData(code, n + k) == IsData(code[n..], k) && InChunk(code, n + k) == InChunk(code[n..], k)
  {
    if k > 0 { DataBehind(code, n, k - 1); }
  }

  lemma {:induction false} LoweredWord(code: seq<nat>, k: nat)
    requires k < |code|
    ensures Lowered(code)[k] == InChunk(code, k)
    decreases |code|
  {
    if IsExtended(code[0]) && |code| > 1 {
      assert |code| > 1 ==> IsData(code, 1);
      if k > 1 {
        LoweredWord(code[2..], k - 2);
        DataBehind(code, 2, k - 2);
      }
    } else if k > 0 {
      LoweredWord(code[1..], k - 1);
      DataBehind(code, 1, k - 1);
    }
  }

  lemma LoweredIs(code: seq<nat>)
    ensures Lowered(code) == WordsInChunk(code)
  {
    forall k | 0 <= k < |code| ensures Lowered(code)[k] == InChunk(code, k) { LoweredWord(code, k); }
  }

  // ----- the parts of a chunk -----

  /** The source name, the lines and the counts of a function; numbers and names as they stand in lists; constants. */
  datatype Part =
    | IntPart(n: nat) | TextPart(text: Text) | StringPart(name: Option<Text>) | ConstantPart(constant: Constant)
    | LocalPart(local: LocalInfo)
    | CountsPart(upvalues: Byte, parameters: Byte, varargFlags: Byte, registers: Byte)

  /** A string: its size with the zero at its end, its bytes, and the zero. */
  ghost predicate TextAt(b: seq<Byte>, i: nat, layout: Layout, text: Text) {
    var at := i + layout.wordSize;
    WordAt(b, i, layout.littleEndian, layout.wordSize, |text| + 1) && at + |text| + 1 <= |b| &&
    b[at..at + |text|] == text && b[at + |text|] == 0
  }

  /** The bytes of a part by position. A constant starts with its type: nil is 0, a truth value 1, a number 3 and a
      string 4. No string has size zero. */
  ghost predicate PartIs(b: seq<Byte>, layout: Layout, part: Part) {
    match part
    case IntPart(n) => |b| == 4 && WordAt(b, 0, layout.littleEndian, 4, n)
    case TextPart(text) => |b| == layout.wordSize + |text| + 1 && TextAt(b, 0, layout, text)
    case StringPart(None) => |b| == layout.wordSize && WordAt(b, 0, layout.littleEndian, layout.wordSize, 0)
    case StringPart(Some(text)) => |b| == layout.wordSize + |text| + 1 && TextAt(b, 0, layout, text)
    case ConstantPart(NilValue) => b == [0]
    case ConstantPart(BoolValue(truth)) => b == [1, if truth then 1 else 0]
    case ConstantPart(NumberValue(bits)) => |b| == 9 && b[0] == 3 && WordAt(b, 1, layout.littleEndian, 8, bits)
    case ConstantPart(StringValue(text)) => |b| == 1 + layout.wordSize + |text| + 1 && b[0] == 4 && TextAt(b, 1, layout, text)
    case ConstantPart(OtherValue) => false
    case LocalPart(local) =>
      var at := layout.wordSize + |local.name| + 1;
      |b| == at + 8 && TextAt(b, 0, layout, local.name) && WordAt(b, at, layout.littleEndian, 4, local.startPC) &&
      WordAt(b, at + 4, layout.littleEndian, 4, local.endPC)
    case CountsPart(upvalues, parameters, varargFlags, registers) => b == [upvalues, parameters, varargFlags, registers]
  }

  /** One part after the other, and nothing else. */
  ghost predicate Consists(b: seq<Byte>, layout: Layout, parts: seq<Part>)
    decreases |parts|
  {
    if parts == [] then b == []
    else exists n: nat :: n <= |b| && PartIs(b[..n], layout, parts[0]) && Consists(b[n..], layout, parts[1..])
  }

  function IntParts(words: seq<nat>): (r: seq<Part>)
    ensures |r| == |words|
  {
    seq(|words|, k requires 0 <= k < |words| => IntPart(words[k]))
  }

  function ConstantParts(constants: seq<Constant>): (r: seq<Part>)
    ensures |r| == |constants|
  {
    seq(|constants|, k requires 0 <= k < |constants| => ConstantPart(constants[k]))
  }

  function LocalParts(locals: seq<LocalInfo>): (r: seq<Part>)
    ensures |r| == |locals|
  {
    seq(|locals|, k requires 0 <= k < |locals| => LocalPart(locals[k]))
  }

  function TextParts(texts: seq<Text>): (r: seq<Part>)
    ensures |r| == |texts|
  {
    seq(|texts|, k requires 0 <= k < |texts| => TextPart(texts[k]))
  }

  /** A list has its length in front. */
  function DebugParts(debug: Debug): seq<Part> {
    [IntPart(|debug.lines|)] + IntParts(debug.lines) +
    [IntPart(|debug.locals|)] + LocalParts(debug.locals) +
    [IntPart(|debug.upvalues|)] + TextParts(debug.upvalues)
  }

  /** A child with the source name of its parent has none in the chunk. */
  function HeadParts(p: Prototype, parentSource: Option<Text>): seq<Part> {
    [StringPart(if p.source == parentSource then None else p.source), IntPart(p.lineDefined), IntPart(p.lastLine),
     CountsPart(p.upvalues, p.parameters, p.varargFlags, p.registers)] +
    [IntPart(|p.code|)] + IntParts(WordsInChunk(p.code)) +
    [IntPart(|p.constants|)] + ConstantParts(p.constants) +
    [IntPart(|p.children|)]
  }

  /** A function: its head, its children and its debug record. */
  function FunctionParts(p: Prototype, parentSource: Option<Text>): seq<Part>
    decreases p, |p.children| + 1
  {
    HeadParts(p, parentSource) + ChildrenParts(p, 0) + DebugParts(DebugOf(p))
  }

  function ChildrenParts(p: Prototype, n: nat): seq<Part>
    requires n <= |p.children|
    decreases p, |p.children| - n
  {
    if n == |p.children| then [] else FunctionParts(p.children[n], p.source) + ChildrenParts(p, n + 1)
  }

  // ----- what is written consists of them -----

  function PartBytes(layout: Layout, part: Part): seq<Byte> {
    match part
    case IntPart(n) => PutInt(layout, n, [])
    case TextPart(text) => PutText(layout, text, [])
    case StringPart(name) => PutString(layout, name, [])
    case ConstantPart(constant) => PutConstant(layout, constant, [])
    case LocalPart(local) => PutLocal(layout, local, [])
    case CountsPart(upvalues, parameters, varargFlags, registers) => [upvalues, parameters, varargFlags, registers]
  }

  function Joined(pieces: seq<seq<Byte>>): seq<Byte> {
    if pieces == [] then [] else pieces[0] + Joined(pieces[1..])
  }

  lemma {:induction false} JoinedOn(a: seq<seq<Byte>>, b: seq<seq<Byte>>)
    ensures Joined(a + b) == Joined(a) + Joined(b)
    decreases |a|
  {
    if a == [] {
      assert a + b == b;
    } else {
      JoinedOn(a[1..], b);
      assert (a + b)[1..] == a[1..] + b;
    }
  }

  lemma JoinedOne(a: seq<Byte>)
    ensures Joined([a]) == a
  {
    assert [a][1..] == [];
  }

  function Pieces(layout: Layout, parts: seq<Part>): (r: seq<seq<Byte>>)
    ensures |r| == |parts| && forall k :: 0 <= k < |parts| ==> r[k] == PartBytes(layout, parts[k])
  {
    seq(|parts|, k requires 0 <= k < |parts| => PartBytes(layout, parts[k]))
  }

  function Flat(layout: Layout, parts: seq<Part>): seq<Byte> {
    Joined(Pieces(layout, parts))
  }

  /** Bytes that are those of the parts, and what follows them; to be taken apart only where SpellsIs is named. */
  ghost predicate Spells(bytes: seq<Byte>, layout: Layout, parts: seq<Part>, tail: seq<Byte>) {
    forall x {:trigger SpellsIs(x, layout, parts, tail)} :: x == bytes ==> SpellsIs(x, layout, parts, tail)
  }

  ghost predicate SpellsIs(bytes: seq<Byte>, layout: Layout, parts: seq<Part>, tail: seq<Byte>) {
    bytes == Flat(layout, parts) + tail
  }

  lemma Regroup(a: seq<Byte>, b: seq<Byte>, c: seq<Byte>)
    ensures a + (b + c) == a + b + c
  {
  }

  lemma PiecesOn(layout: Layout, a: seq<Part>, b: seq<Part>)
    ensures Pieces(layout, a + b) == Pieces(layout, a) + Pieces(layout, b)
  {
  }

  lemma FlatJoin(layout: Layout, a: seq<Part>, b: seq<Part>)
    ensures Flat(layout, a + b) == Flat(layout, a) + Flat(layout, b)
  {
    PiecesOn(layout, a, b);
    JoinedOn(Pieces(layout, a), Pieces(layout, b));
  }

  lemma SpellsThen(bytes: seq<Byte>, layout: Layout, a: seq<Part>, mid: seq<Byte>, b: seq<Part>, tail: seq<Byte>)
    requires Spells(bytes, layout, a, mid) && Spells(mid, layout, b, tail)
    ensures Spells(bytes, layout, a + b, tail)
  {
    assert SpellsIs(bytes, layout, a, mid) && SpellsIs(mid, layout, b, tail);
    FlatJoin(layout, a, b);
    Regroup(Flat(layout, a), Flat(layout, b), tail);
  }

  lemma SpellsOne(bytes: seq<Byte>, layout: Layout, part: Part, tail: seq<Byte>)
    requires bytes == PartBytes(layout, part) + tail
    ensures Spells(bytes, layout, [part], tail)
  {
    assert Pieces(layout, [part]) == [PartBytes(layout, part)];
    JoinedOne(PartBytes(layout, part));
  }

  lemma SpellsNone(bytes: seq<Byte>, layout: Layout)
    ensures Spells(bytes, layout, [], bytes)
  {
    assert Pieces(layout, []) == [] && [] + bytes == bytes;
  }

  lemma WordTail(layout: Layout, width: nat, value: nat, tail: seq<Byte>)
    ensures PutWord(layout, width, value, tail) == PutWord(layout, width, value, []) + tail
  {
  }

  lemma TextTail(layout: Layout, text: Text, tail: seq<Byte>)
    ensures PutText(layout, text, tail) == PutText(layout, text, []) + tail
  {
    WordTail(layout, layout.wordSize, |text| + 1, text + ([0] + tail));
    WordTail(layout, layout.wordSize, |text| + 1, text + ([0] + []));
    assert text + ([0] + tail) == text + ([0] + []) + tail;
  }

  lemma ConstantTail(layout: Layout, constant: Constant, tail: seq<Byte>)
    ensures PutConstant(layout, constant, tail) == PutConstant(layout, constant, []) + tail
  {
    match constant
    case NilValue =>
    case BoolValue(truth) =>
    case NumberValue(bits) => WordTail(layout, 8, bits, tail);
    case StringValue(text) => TextTail(layout, text, tail);
    case OtherValue =>
  }

  lemma LocalTail(layout: Layout, local: LocalInfo, tail: seq<Byte>)
    ensures PutLocal(layout, local, tail) == PutLocal(layout, local, []) + tail
  {
    var start, end := local.startPC, local.endPC;
    WordTail(layout, 4, end, tail);
    WordTail(layout, 4, start, PutInt(layout, end, tail));
    WordTail(layout, 4, start, PutInt(layout, end, []));
    assert PutInt(layout, start, PutInt(layout, end, tail)) == PutInt(layout, start, PutInt(layout, end, [])) + tail;
    TextTail(layout, local.name, PutInt(layout, start, PutInt(layout, end, tail)));
    TextTail(layout, local.name, PutInt(layout, start, PutInt(layout, end, [])));
  }

  lemma IntSpelled(layout: Layout, n: nat, tail: seq<Byte>)
    ensures Spells(PutInt(layout, n, tail), layout, [IntPart(n)], tail)
  {
    WordTail(layout, 4, n, tail);
    SpellsOne(PutInt(layout, n, tail), layout, IntPart(n), tail);
  }

  lemma {:induction false} WordsSpelled(layout: Layout, words: seq<nat>, tail: seq<Byte>)
    ensures Spells(PutWords(layout, words, tail), layout, IntParts(words), tail)
    decreases |words|
  {
    if words == [] {
      SpellsNone(tail, layout);
    } else {
      var rest := PutWords(layout, words[1..], tail);
      WordsSpelled(layout, words[1..], tail);
      IntSpelled(layout, words[0], rest);
      SpellsThen(PutInt(layout, words[0], rest), layout, [IntPart(words[0])], rest, IntParts(words[1..]), tail);
      assert IntParts(words) == [IntPart(words[0])] + IntParts(words[1..]);
    }
  }

  lemma {:induction false} ConstantsSpelled(layout: Layout, constants: seq<Constant>, tail: seq<Byte>)
    ensures Spells(PutConstants(layout, constants, tail), layout, ConstantParts(constants), tail)
    decreases |constants|
  {
    if constants == [] {
      SpellsNone(tail, layout);
    } else {
      var rest := PutConstants(layout, constants[1..], tail);
      ConstantsSpelled(layout, constants[1..], tail);
      ConstantTail(layout, constants[0], rest);
      SpellsOne(PutConstant(layout, constants[0], rest), layout, ConstantPart(constants[0]), rest);
      SpellsThen(PutConstant(layout, constants[0], rest), layout, [ConstantPart(constants[0])], rest, ConstantParts(constants[1..]), tail);
      assert ConstantParts(constants) == [ConstantPart(constants[0])] + ConstantParts(constants[1..]);
    }
  }

  lemma {:induction false} LocalsSpelled(layout: Layout, locals: seq<LocalInfo>, tail: seq<Byte>)
    ensures Spells(PutLocals(layout, locals, tail), layout, LocalParts(locals), tail)
    decreases |locals|
  {
    if locals == [] {
      SpellsNone(tail, layout);
    } else {
      var rest := PutLocals(layout, locals[1..], tail);
      LocalsSpelled(layout, locals[1..], tail);
      LocalTail(layout, locals[0], rest);
      SpellsOne(PutLocal(layout, locals[0], rest), layout, LocalPart(locals[0]), rest);
      SpellsThen(PutLocal(layout, locals[0], rest), layout, [LocalPart(locals[0])], rest, LocalParts(locals[1..]), tail);
      assert LocalParts(locals) == [LocalPart(locals[0])] + LocalParts(locals[1..]);
    }
  }

  lemma {:induction false} NamesSpelled(layout: Layout, names: seq<Text>, tail: seq<Byte>)
    ensures Spells(PutNames(layout, names, tail), layout, TextParts(names), tail)
    decreases |names|
  {
    if names == [] {
      SpellsNone(tail, layout);
    } else {
      var rest := PutNames(layout, names[1..], tail);
      NamesSpelled(layout, names[1..], tail);
      TextTail(layout, names[0], rest);
      SpellsOne(PutText(layout, names[0], rest), layout, TextPart(names[0]), rest);
      SpellsThen(PutText(layout, names[0], rest), layout, [TextPart(names[0])], rest, TextParts(names[1..]), tail);
      assert TextParts(names) == [TextPart(names[0])] + TextParts(names[1..]);
    }
  }

  lemma DebugSpelled(layout: Layout, debug: Debug, tail: seq<Byte>)
    ensures Spells(PutDebug(layout, debug, tail), layout, DebugParts(debug), tail)
  {
    var t5 := PutNames(layout, debug.upvalues, tail);
    var t4 := PutInt(layout, |debug.upvalues|, t5);
    var t3 := PutLocals(layout, debug.locals, t4);
    var t2 := PutInt(layout, |debug.locals|, t3);
    var t1 := PutWords(layout, debug.lines, t2);
    var t0 := PutInt(layout, |debug.lines|, t1);
    IntSpelled(layout, |debug.lines|, t1);
    WordsSpelled(layout, debug.lines, t2);
    var a1 := [IntPart(|debug.lines|)];
    SpellsThen(t0, layout, a1, t1, IntParts(debug.lines), t2);
    var a2 := a1 + IntParts(debug.lines);
    IntSpelled(layout, |debug.locals|, t3);
    SpellsThen(t0, layout, a2, t2, [IntPart(|debug.locals|)], t3);
    var a3 := a2 + [IntPart(|debug.locals|)];
    LocalsSpelled(layout, debug.locals, t4);
    SpellsThen(t0, layout, a3, t3, LocalParts(debug.locals), t4);
    var a4 := a3 + LocalParts(debug.locals);
    IntSpelled(layout, |debug.upvalues|, t5);
    SpellsThen(t0, layout, a4, t4, [IntPart(|debug.upvalues|)], t5);
    NamesSpelled(layout, debug.upvalues, tail);
    SpellsThen(t0, layout, a4 + [IntPart(|debug.upvalues|)], t5, TextParts(debug.upvalues), tail);
  }

  lemma StringTail(layout: Layout, name: Option<Text>, tail: seq<Byte>)
    ensures PutString(layout, name, tail) == PutString(layout, name, []) + tail
  {
    if name.None? { WordTail(layout, layout.wordSize, 0, tail); } else { TextTail(layout, name.value, tail); }
  }

  lemma HeaderSpelled(layout: Layout, p: Prototype, parentSource: Option<Text>, tail: seq<Byte>)
    ensures Spells(PutHeader(layout, p, parentSource, tail), layout,
      [StringPart(if p.source == parentSource then None else p.source), IntPart(p.lineDefined), IntPart(p.lastLine),
       CountsPart(p.upvalues, p.parameters, p.varargFlags, p.registers)], tail)
  {
    var source := if p.source == parentSource then None else p.source;
    var counts := CountsPart(p.upvalues, p.parameters, p.varargFlags, p.registers);
    var t3 := [p.upvalues] + ([p.parameters] + ([p.varargFlags] + ([p.registers] + tail)));
    var t2 := PutInt(layout, p.lastLine, t3);
    var t1 := PutInt(layout, p.lineDefined, t2);
    var t0 := PutString(layout, source, t1);
    StringTail(layout, source, t1);
    SpellsOne(t0, layout, StringPart(source), t1);
    IntSpelled(layout, p.lineDefined, t2);
    SpellsThen(t0, layout, [StringPart(source)], t1, [IntPart(p.lineDefined)], t2);
    IntSpelled(layout, p.lastLine, t3);
    SpellsThen(t0, layout, [StringPart(source)] + [IntPart(p.lineDefined)], t2, [IntPart(p.lastLine)], t3);
    assert t3 == [p.upvalues, p.parameters, p.varargFlags, p.registers] + tail;
    SpellsOne(t3, layout, counts, tail);
    SpellsThen(t0, layout, [StringPart(source)] + [IntPart(p.lineDefined)] + [IntPart(p.lastLine)], t3, [counts], tail);
    assert [StringPart(source)] + [IntPart(p.lineDefined)] + [IntPart(p.lastLine)] + [counts] ==
           [StringPart(source), IntPart(p.lineDefined), IntPart(p.lastLine), counts];
  }

  lemma HeadSpelled(layout: Layout, p: Prototype, parentSource: Option<Text>, kids: seq<Byte>)
    ensures Spells(PutHeader(layout, p, parentSource, PutInt(layout, |p.code|, PutWords(layout, Lowered(p.code),
      PutInt(layout, |p.constants|, PutConstants(layout, p.constants, PutInt(layout, |p.children|, kids)))))),
      layout, HeadParts(p, parentSource), kids)
  {
    LoweredIs(p.code);
    var t4 := PutInt(layout, |p.children|, kids);
    var t3 := PutConstants(layout, p.constants, t4);
    var t2 := PutInt(layout, |p.constants|, t3);
    var t1 := PutWords(layout, WordsInChunk(p.code), t2);
    var t := PutInt(layout, |p.code|, t1);
    var t0 := PutHeader(layout, p, parentSource, t);
    HeaderSpelled(layout, p, parentSource, t);
    var a1 := [StringPart(if p.source == parentSource then None else p.source), IntPart(p.lineDefined), IntPart(p.lastLine),
               CountsPart(p.upvalues, p.parameters, p.varargFlags, p.registers)];
    IntSpelled(layout, |p.code|, t1);
    SpellsThen(t0, layout, a1, t, [IntPart(|p.code|)], t1);
    var a2 := a1 + [IntPart(|p.code|)];
    WordsSpelled(layout, WordsInChunk(p.code), t2);
    SpellsThen(t0, layout, a2, t1, IntParts(WordsInChunk(p.code)), t2);
    var a3 := a2 + IntParts(WordsInChunk(p.code));
    IntSpelled(layout, |p.constants|, t3);
    SpellsThen(t0, layout, a3, t2, [IntPart(|p.constants|)], t3);
    var a4 := a3 + [IntPart(|p.constants|)];
    ConstantsSpelled(layout, p.constants, t4);
    SpellsThen(t0, layout, a4, t3, ConstantParts(p.constants), t4);
    IntSpelled(layout, |p.children|, kids);
    SpellsThen(t0, layout, a4 + ConstantParts(p.constants), t4, [IntPart(|p.children|)], kids);
  }

  /** The bytes of a function are those of its parts. */
  lemma {:induction false} FunctionSpelled(layout: Layout, p: Prototype, parentSource: Option<Text>, tail: seq<Byte>)
    ensures Spells(PutFunction(layout, p, parentSource, tail), layout, FunctionParts(p, parentSource), tail)
    decreases p, |p.children| + 1
  {
    var debug := PutDebug(layout, DebugOf(p), tail);
    var kids := PutChildren(layout, p, 0, debug);
    var all := PutFunction(layout, p, parentSource, tail);
    HeadSpelled(layout, p, parentSource, kids);
    ChildrenSpelled(layout, p, 0, debug);
    DebugSpelled(layout, DebugOf(p), tail);
    SpellsThen(all, layout, HeadParts(p, parentSource), kids, ChildrenParts(p, 0), debug);
    SpellsThen(all, layout, HeadParts(p, parentSource) + ChildrenParts(p, 0), debug, DebugParts(DebugOf(p)), tail);
  }

  lemma {:induction false} ChildrenSpelled(layout: Layout, p: Prototype, n: nat, tail: seq<Byte>)
    requires n <= |p.children|
    ensures Spells(PutChildren(layout, p, n, tail), layout, ChildrenParts(p, n), tail)
    decreases p, |p.children| - n
  {
    if n == |p.children| {
      SpellsNone(tail, layout);
    } else {
      var rest := PutChildren(layout, p, n + 1, tail);
      FunctionSpelled(layout, p.children[n], p.source, rest);
      ChildrenSpelled(layout, p, n + 1, tail);
      SpellsThen(PutFunction(layout, p.children[n], p.source, rest), layout, FunctionParts(p.children[n], p.source), rest,
                 ChildrenParts(p, n + 1), tail);
    }
  }

  lemma TextIs(layout: Layout, text: Text)
    ensures |PutText(layout, text, [])| == layout.wordSize + |text| + 1 && TextAt(PutText(layout, text, []), 0, layout, text)
  {
    var w := WordBytes(layout, layout.wordSize, |text| + 1);
    WordBytesAt(layout, layout.wordSize, |text| + 1);
    WordInside([], w, text + ([0] + []), layout.littleEndian, layout.wordSize, |text| + 1);
    assert [] + w + (text + ([0] + [])) == PutText(layout, text, []);
  }

  lemma TextBehind(a: seq<Byte>, w: seq<Byte>, c: seq<Byte>, layout: Layout, text: Text)
    requires |w| == layout.wordSize + |text| + 1 && TextAt(w, 0, layout, text)
    ensures TextAt(a + w + c, |a|, layout, text)
  {
    WordInside(a, w, c, layout.littleEndian, layout.wordSize, |text| + 1);
    var at := layout.wordSize;
    assert (a + w + c)[|a| + at..|a| + at + |text|] == w[at..at + |text|];
  }

  lemma LocalIs(layout: Layout, local: LocalInfo)
    ensures PartIs(PutLocal(layout, local, []), layout, LocalPart(local))
  {
    var name, start, end := PutText(layout, local.name, []), WordBytes(layout, 4, local.startPC), WordBytes(layout, 4, local.endPC);
    TextIs(layout, local.name);
    TextTail(layout, local.name, PutInt(layout, local.startPC, PutInt(layout, local.endPC, [])));
    Regroup(name, start, end);
    assert PutInt(layout, local.startPC, PutInt(layout, local.endPC, [])) == start + end;
    WordBytesAt(layout, 4, local.startPC);
    WordBytesAt(layout, 4, local.endPC);
    LocalInside(layout, local, name, start, end);
  }

  lemma LocalInside(layout: Layout, local: LocalInfo, name: seq<Byte>, start: seq<Byte>, end: seq<Byte>)
    requires |name| == layout.wordSize + |local.name| + 1 && TextAt(name, 0, layout, local.name) && |start| == |end| == 4
    requires WordAt(start, 0, layout.littleEndian, 4, local.startPC) && WordAt(end, 0, layout.littleEndian, 4, local.endPC)
    ensures PartIs(name + start + end, layout, LocalPart(local))
  {
    var all := name + start + end;
    TextBehind([], name, start + end, layout, local.name);
    assert [] + name + (start + end) == all;
    WordInside(name, start, end, layout.littleEndian, 4, local.startPC);
    WordInside(name + start, end, [], layout.littleEndian, 4, local.endPC);
    assert all + [] == all;
  }

  /** The bytes of a part are where they should be. */
  lemma PartLaw(layout: Layout, part: Part)
    requires !(part.ConstantPart? && part.constant.OtherValue?)
    ensures PartIs(PartBytes(layout, part), layout, part)
  {
    match part
    case IntPart(n) =>
      WordBytesAt(layout, 4, n);
      assert PutInt(layout, n, []) == WordBytes(layout, 4, n);
    case TextPart(text) => TextIs(layout, text);
    case StringPart(name) =>
      if name.Some? {
        TextIs(layout, name.value);
      } else {
        WordBytesAt(layout, layout.wordSize, 0);
        assert PutString(layout, None, []) == WordBytes(layout, layout.wordSize, 0);
      }
    case ConstantPart(constant) => ConstantIs(layout, constant);
    case LocalPart(local) => LocalIs(layout, local);
    case CountsPart(_, _, _, _) =>
  }

  lemma ConstantIs(layout: Layout, constant: Constant)
    requires !constant.OtherValue?
    ensures PartIs(PutConstant(layout, constant, []), layout, ConstantPart(constant))
  {
    match constant
    case NilValue =>
    case BoolValue(truth) =>
    case NumberValue(bits) =>
      var w := WordBytes(layout, 8, bits);
      WordBytesAt(layout, 8, bits);
      WordInside([3], w, [], layout.littleEndian, 8, bits);
      assert [3] + w + [] == PutConstant(layout, constant, []);
    case StringValue(text) =>
      var w := PutText(layout, text, []);
      TextIs(layout, text);
      TextBehind([4], w, [], layout, text);
      assert [4] + w + [] == PutConstant(layout, constant, []);
  }

  predicate NoOther(parts: seq<Part>) {
    forall part :: part in parts ==> !(part.ConstantPart? && part.constant.OtherValue?)
  }

  lemma {:induction false} FlatConsists(layout: Layout, parts: seq<Part>)
    requires NoOther(parts)
    ensures Consists(Flat(layout, parts), layout, parts)
    decreases |parts|
  {
    if parts != [] {
      var first, rest := PartBytes(layout, parts[0]), Flat(layout, parts[1..]);
      FlatConsists(layout, parts[1..]);
      PartLaw(layout, parts[0]);
      assert Pieces(layout, parts)[1..] == Pieces(layout, parts[1..]);
      assert (first + rest)[..|first|] == first && (first + rest)[|first|..] == rest;
    }
  }

  lemma {:induction false} FunctionNoOther(layout: Layout, p: Prototype, parentSource: Option<Text>)
    requires Dumpable(layout, p, parentSource)
    ensures NoOther(FunctionParts(p, parentSource))
    decreases p, |p.children| + 1
  {
    ChildrenNoOther(layout, p, 0);
    assert NoOther(ConstantParts(p.constants));
    assert NoOther(HeadParts(p, parentSource)) && NoOther(DebugParts(DebugOf(p)));
  }

  lemma {:induction false} ChildrenNoOther(layout: Layout, p: Prototype, n: nat)
    requires n <= |p.children| && DumpableChildren(layout, p, n)
    ensures NoOther(ChildrenParts(p, n))
    decreases p, |p.children| - n
  {
    if n < |p.children| {
      FunctionNoOther(layout, p.children[n], p.source);
      ChildrenNoOther(layout, p, n + 1);
    }
  }

  /** A chunk: the signature, version 5.1 and the layout in twelve bytes, then the parts of the main function. */
  ghost predicate IsChunk(b: seq<Byte>, layout: Layout, p: Prototype) {
    |b| >= 12 && b[..12] == [27, 76, 117, 97, 81, 0, if layout.littleEndian then 1 else 0, 4, layout.wordSize, 4, 8, 0] &&
    Consists(b[12..], layout, FunctionParts(p, None))
  }

  /** What is written is a chunk. */
  lemma PutChunkIs(layout: Layout, p: Prototype)
    requires layout.wordSize < 256 && Dumpable(layout, p, None)
    ensures IsChunk(PutChunk(layout, p, []), layout, p)
  {
    var b, body := PutChunk(layout, p, []), PutFunction(layout, p, None, []);
    FunctionSpelled(layout, p, None, []);
    assert SpellsIs(body, layout, FunctionParts(p, None), []);
    assert body == Flat(layout, FunctionParts(p, None));
    FunctionNoOther(layout, p, None);
    FlatConsists(layout, FunctionParts(p, None));
    assert b[..12] == ChunkHeader(layout) && b[12..] == body;
  }
}
