/** The object graph a collection works on, and what it means for an object to be reachable. */
module CollectorHeap {

  type Id = nat

  datatype Ref = Table(id: Id) | Function(id: Id) | Thread(id: Id) | UserData(id: Id)

  /** A slot.  Only `Object` holds a collected reference. */
  datatype Value = Nil | Scalar(n: int) | Text(s: string) | Object(ref: Ref)

  datatype Entry = Entry(key: Value, value: Value)
  datatype TableRecord = TableRecord(metatable: Value, items: seq<Value>, entries: seq<Entry>)
  datatype FunctionRecord = Lua(environment: Value, upvalues: seq<Id>) | Native(environment: Value, captures: seq<Value>)
  datatype ThreadRecord = ThreadRecord(globals: Value, values: seq<Value>, top: nat, frameExtent: nat,
                                       frames: seq<Value>, openUpvalues: seq<Id>)
  datatype UserDataRecord = UserDataRecord(metatable: Value, environment: Value)

  /** An upvalue reads a thread's slot until it is closed, and its own storage afterwards. */
  datatype Cell = Open(thread: Id, index: nat) | Closed(value: Value)

  /** All objects; `finalized` holds the userdata whose finalizer has been considered. */
  datatype Heap = Heap(tables: map<Id, TableRecord>, functions: map<Id, FunctionRecord>, threads: map<Id, ThreadRecord>,
                       userData: map<Id, UserDataRecord>, cells: map<Id, Cell>, finalized: set<Id>)

  predicate Live(h: Heap, r: Ref) {
    match r
    case Table(id) => id in h.tables
    case Function(id) => id in h.functions
    case Thread(id) => id in h.threads
    case UserData(id) => id in h.userData
  }

  function AllRefs(h: Heap): set<Ref> {
    (set id | id in h.tables :: Table(id)) + (set id | id in h.functions :: Function(id)) +
    (set id | id in h.threads :: Thread(id)) + (set id | id in h.userData :: UserData(id))
  }

  function Extent(t: ThreadRecord): nat {
    if t.frameExtent > t.top then t.frameExtent else t.top
  }

  // ----- no dangling references -----

  predicate Valid(h: Heap, v: Value) {
    v.Object? ==> Live(h, v.ref)
  }

  predicate AllValid(h: Heap, vs: seq<Value>) {
    forall i :: 0 <= i < |vs| ==> Valid(h, vs[i])
  }

  predicate Readable(h: Heap, c: Id) {
    c in h.cells &&
    (h.cells[c].Open? ==> h.cells[c].thread in h.threads && h.cells[c].index < |h.threads[h.cells[c].thread].values|)
  }

  predicate ValidCell(h: Heap, c: Id) {
    Readable(h, c) && (h.cells[c].Closed? ==> Valid(h, h.cells[c].value))
  }

  predicate AllCells(h: Heap, cs: seq<Id>) {
    forall i :: 0 <= i < |cs| ==> ValidCell(h, cs[i])
  }

  predicate ValidTable(h: Heap, t: TableRecord) {
    Valid(h, t.metatable) && (t.metatable.Object? ==> t.metatable.ref.Table?) && AllValid(h, t.items) &&
    forall i :: 0 <= i < |t.entries| ==> Valid(h, t.entries[i].key) && Valid(h, t.entries[i].value)
  }

  predicate ValidFunction(h: Heap, f: FunctionRecord) {
    Valid(h, f.environment) &&
    match f
    case Lua(_, upvalues) => AllCells(h, upvalues)
    case Native(_, captures) => AllValid(h, captures)
  }

  /** The slots past the extent are empty, and the open list holds cells of this thread. */
  predicate ValidThread(h: Heap, id: Id, t: ThreadRecord) {
    Valid(h, t.globals) && AllValid(h, t.values) && AllValid(h, t.frames) && Extent(t) <= |t.values| &&
    (forall i :: Extent(t) <= i < |t.values| ==> t.values[i] == Nil) &&
    forall i :: 0 <= i < |t.openUpvalues| ==> OpenOn(h, t.openUpvalues[i], id) && ValidCell(h, t.openUpvalues[i])
  }

  predicate OpenOn(h: Heap, c: Id, thread: Id) {
    c in h.cells && h.cells[c].Open? && h.cells[c].thread == thread
  }

  predicate ValidUserData(h: Heap, u: UserDataRecord) {
    Valid(h, u.metatable) && (u.metatable.Object? ==> u.metatable.ref.Table?) && Valid(h, u.environment)
  }

  /** Every reference held by a registered object is to a registered object, and every cell that is
      open on a registered thread is on that thread's list. */
  ghost predicate NoDangling(h: Heap) {
    forall g {:trigger NoDanglingFacts(g)} :: g == h ==> NoDanglingFacts(g)
  }

  ghost predicate NoDanglingFacts(h: Heap) {
    (forall id :: id in h.tables ==> ValidTable(h, h.tables[id])) &&
    (forall id :: id in h.functions ==> ValidFunction(h, h.functions[id])) &&
    (forall id :: id in h.threads ==> ValidThread(h, id, h.threads[id])) &&
    (forall id :: id in h.userData ==> ValidUserData(h, h.userData[id])) &&
    forall c, id :: OpenOn(h, c, id) && id in h.threads ==> c in h.threads[id].openUpvalues
  }

  function Read(h: Heap, c: Id): Value
    requires Readable(h, c)
  {
    match h.cells[c]
    case Open(thread, index) => h.threads[thread].values[index]
    case Closed(value) => value
  }

  // ----- weak tables -----

  datatype WeakMode = WeakMode(keys: bool, values: bool)

  /** The raw value of `key`, Nil when absent. */
  function Lookup(entries: seq<Entry>, key: Value): Value {
    if entries == [] then Nil
    else if entries[0].key == key && entries[0].value != Nil then entries[0].value
    else Lookup(entries[1..], key)
  }

  /** A metatable's field for a named event. */
  function EventSlot(h: Heap, metatable: Value, event: string): Value {
    if metatable.Object? && metatable.ref.Table? && metatable.ref.id in h.tables
    then Lookup(h.tables[metatable.ref.id].entries, Text(event)) else Nil
  }

  /** `c` occurs in the part of the text before its first NUL. */
  predicate Mentions(s: string, c: char) {
    exists i :: 0 <= i < |s| && s[i] == c && '\0' !in s[..i]
  }

  function ModeOf(h: Heap, metatable: Value): WeakMode {
    var mode := EventSlot(h, metatable, "__mode");
    if mode.Text? then WeakMode(Mentions(mode.s, 'k'), Mentions(mode.s, 'v')) else WeakMode(false, false)
  }

  function Mode(h: Heap, t: TableRecord): WeakMode {
    ModeOf(h, t.metatable)
  }

  /** Only the part before the first NUL counts, and what was found in a prefix stays found. */
  lemma MentionsPrefix(s: string, n: nat, c: char)
    requires n <= |s| && '\0' !in s[..n]
    ensures c in s[..n] ==> Mentions(s, c)
    ensures (n == |s| || s[n] == '\0') && c != '\0' ==> (Mentions(s, c) <==> c in s[..n])
  {
    if c in s[..n] {
      var i :| 0 <= i < n && s[..n][i] == c;
      assert s[..i] == s[..n][..i];
      assert s[i] == c && '\0' !in s[..i];
    }
    if Mentions(s, c) && (n == |s| || s[n] == '\0') && c != '\0' {
      var i :| 0 <= i < |s| && s[i] == c && '\0' !in s[..i];
      forall j | 0 <= j < i ensures s[j] != '\0' {
        assert s[j] in s[..i];
      }
      assert i < n && s[..n][i] == c;
    }
  }

  // ----- non-weak references -----

  function EntryRefs(e: Entry, mode: WeakMode): seq<Value> {
    if e.value == Nil then []
    else (if mode.keys then [] else [e.key]) + (if mode.values then [] else [e.value])
  }

  function EntriesRefs(entries: seq<Entry>, mode: WeakMode): seq<Value> {
    if entries == [] then []
    else EntriesRefs(entries[..|entries| - 1], mode) + EntryRefs(entries[|entries| - 1], mode)
  }

  function TableRefs(t: TableRecord, mode: WeakMode): seq<Value> {
    [t.metatable] + (if mode.values then [] else t.items) + EntriesRefs(t.entries, mode)
  }

  function Reads(h: Heap, cs: seq<Id>): (r: seq<Value>)
    requires AllCells(h, cs)
  {
    seq(|cs|, i requires 0 <= i < |cs| => Read(h, cs[i]))
  }

  function FunctionRefs(h: Heap, f: FunctionRecord): seq<Value>
    requires ValidFunction(h, f)
  {
    [f.environment] +
    match f
    case Lua(_, upvalues) => Reads(h, upvalues)
    case Native(_, captures) => captures
  }

  function ThreadRefs(h: Heap, id: Id, t: ThreadRecord): seq<Value>
    requires ValidThread(h, id, t)
  {
    [t.globals] + t.values[..Extent(t)] + t.frames + Reads(h, t.openUpvalues)
  }

  /** What an object holds on to. */
  ghost function Refs(h: Heap, r: Ref): seq<Value>
    requires NoDangling(h) && Live(h, r)
  {
    assert NoDanglingFacts(h);
    match r
    case Table(id) => TableRefs(h.tables[id], Mode(h, h.tables[id]))
    case Function(id) => FunctionRefs(h, h.functions[id])
    case Thread(id) => ThreadRefs(h, id, h.threads[id])
    case UserData(id) => [h.userData[id].metatable, h.userData[id].environment]
  }

  function Targets(vs: seq<Value>): set<Ref> {
    if vs == [] then {}
    else
      var last := vs[|vs| - 1];
      Targets(vs[..|vs| - 1]) + (if last.Object? then {last.ref} else {})
  }

  lemma {:induction false} TargetsMembers(vs: seq<Value>)
    ensures forall r :: r in Targets(vs) <==> Object(r) in vs
  {
    if vs != [] {
      TargetsMembers(vs[..|vs| - 1]);
      assert vs == vs[..|vs| - 1] + [vs[|vs| - 1]];
    }
  }

  ghost predicate Points(h: Heap, a: Ref, b: Ref)
    requires NoDangling(h)
  {
    Live(h, a) && b in Targets(Refs(h, a))
  }

  // ----- reachability -----

  ghost predicate Path(h: Heap, seeds: set<Ref>, path: seq<Ref>)
    requires NoDangling(h)
  {
    |path| > 0 &&
    if |path| == 1 then path[0] in seeds
    else Path(h, seeds, path[..|path| - 1]) && Points(h, path[|path| - 2], path[|path| - 1])
  }

  ghost predicate PathTo(h: Heap, seeds: set<Ref>, path: seq<Ref>, r: Ref)
    requires NoDangling(h)
  {
    Path(h, seeds, path) && path[|path| - 1] == r
  }

  ghost predicate Reachable(h: Heap, seeds: set<Ref>, r: Ref)
    requires NoDangling(h)
  {
    exists path :: PathTo(h, seeds, path, r)
  }

  lemma SeedReachable(h: Heap, seeds: set<Ref>, r: Ref)
    requires NoDangling(h) && r in seeds
    ensures Reachable(h, seeds, r)
  {
    assert PathTo(h, seeds, [r], r);
  }

  lemma StepReachable(h: Heap, seeds: set<Ref>, a: Ref, b: Ref)
    requires NoDangling(h) && Reachable(h, seeds, a) && Points(h, a, b)
    ensures Reachable(h, seeds, b)
  {
    var path :| PathTo(h, seeds, path, a);
    assert (path + [b])[..|path|] == path;
    assert PathTo(h, seeds, path + [b], b);
  }

  lemma {:induction false} PathGrows(h: Heap, seeds: set<Ref>, more: set<Ref>, path: seq<Ref>)
    requires NoDangling(h) && seeds <= more && Path(h, seeds, path)
    ensures Path(h, more, path)
  {
    if |path| > 1 { PathGrows(h, seeds, more, path[..|path| - 1]); }
  }

  lemma ReachableGrows(h: Heap, seeds: set<Ref>, more: set<Ref>, r: Ref)
    requires NoDangling(h) && seeds <= more && Reachable(h, seeds, r)
    ensures Reachable(h, more, r)
  {
    var path :| PathTo(h, seeds, path, r);
    PathGrows(h, seeds, more, path);
    assert PathTo(h, more, path, r);
  }

  /** The marks are closed under the references of marked objects. */
  ghost predicate ClosedUnder(h: Heap, marks: set<Ref>)
    requires NoDangling(h)
  {
    forall a :: a in marks ==> Live(h, a) && Targets(Refs(h, a)) <= marks
  }

  lemma {:induction false} PathStaysInside(h: Heap, seeds: set<Ref>, marks: set<Ref>, path: seq<Ref>)
    requires NoDangling(h) && seeds <= marks && ClosedUnder(h, marks) && Path(h, seeds, path)
    ensures path[|path| - 1] in marks
  {
    if |path| > 1 {
      PathStaysInside(h, seeds, marks, path[..|path| - 1]);
    }
  }

  /** Marks that are closed and all reachable are exactly the reachable objects. */
  lemma MarksAreReachable(h: Heap, seeds: set<Ref>, marks: set<Ref>)
    requires NoDangling(h) && seeds <= marks && ClosedUnder(h, marks)
    requires forall r :: r in marks ==> Reachable(h, seeds, r)
    ensures forall r :: r in marks <==> Reachable(h, seeds, r)
  {
    forall r | Reachable(h, seeds, r) ensures r in marks {
      var path :| PathTo(h, seeds, path, r);
      PathStaysInside(h, seeds, marks, path);
    }
  }

  // ----- lists of values -----

  lemma {:induction false} TargetsSplit(a: seq<Value>, b: seq<Value>)
    ensures Targets(a + b) == Targets(a) + Targets(b)
  {
    if b == [] {
      assert a + b == a;
    } else {
      assert (a + b)[..|a + b| - 1] == a + b[..|b| - 1];
      TargetsSplit(a, b[..|b| - 1]);
    }
  }

  lemma TargetsStep(values: seq<Value>, i: nat)
    requires i < |values|
    ensures Targets(values[..i + 1]) == Targets(values[..i]) + Targets([values[i]])
  {
    assert values[..i + 1] == values[..i] + [values[i]];
    TargetsSplit(values[..i], [values[i]]);
  }

  lemma EntriesRefsStep(entries: seq<Entry>, i: nat, mode: WeakMode)
    requires i < |entries|
    ensures EntriesRefs(entries[..i + 1], mode) == EntriesRefs(entries[..i], mode) + EntryRefs(entries[i], mode)
  {
    assert entries[..i + 1][..i] == entries[..i];
  }

  lemma {:induction false} EntriesRefsValid(h: Heap, t: TableRecord, n: nat, mode: WeakMode)
    requires ValidTable(h, t) && n <= |t.entries|
    ensures AllValid(h, EntriesRefs(t.entries[..n], mode))
  {
    if n > 0 {
      EntriesRefsValid(h, t, n - 1, mode);
      EntriesRefsStep(t.entries, n - 1, mode);
    }
  }

  /** A reference held by a registered object is to a registered object. */
  lemma RefsLive(h: Heap, r: Ref)
    requires NoDangling(h) && Live(h, r)
    ensures AllValid(h, Refs(h, r))
    ensures forall b :: b in Targets(Refs(h, r)) ==> Live(h, b)
  {
    assert NoDanglingFacts(h);
    match r {
      case Table(id) =>
        var t := h.tables[id];
        EntriesRefsValid(h, t, |t.entries|, Mode(h, t));
        assert t.entries[..|t.entries|] == t.entries;
      case Function(id) => assert ValidFunction(h, h.functions[id]);
      case Thread(id) => assert ValidThread(h, id, h.threads[id]);
      case UserData(id) => assert ValidUserData(h, h.userData[id]);
    }
    TargetsLive(h, Refs(h, r));
  }

  lemma TargetsLive(h: Heap, vs: seq<Value>)
    requires AllValid(h, vs)
    ensures forall b :: b in Targets(vs) ==> Live(h, b)
  {
    TargetsMembers(vs);
    forall b | b in Targets(vs) ensures Live(h, b) {
      assert Object(b) in vs;
    }
  }
}
