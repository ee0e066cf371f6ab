/** What the steps of a collection do to the graph, as functions on it, and why no reference dangles afterwards. */
module CollectorFacts {
  import opened CollectorHeap

  // ----- retiring the keys of deleted entries -----

  /** A deleted entry keeps its place but no longer refers to its key. */
  function RetireEntry(e: Entry): Entry {
    if e.value == Nil && e.key.Object? then Entry(Nil, Nil) else e
  }

  function RetireEntries(entries: seq<Entry>): (r: seq<Entry>)
    ensures |r| == |entries| && forall i :: 0 <= i < |r| ==> r[i] == RetireEntry(entries[i])
  {
    seq(|entries|, i requires 0 <= i < |entries| => RetireEntry(entries[i]))
  }

  function Retired(t: TableRecord): TableRecord {
    TableRecord(t.metatable, t.items, RetireEntries(t.entries))
  }

  /** The same references: only deleted keys have gone and finalization flags been set. */
  ghost predicate SameGraph(h0: Heap, h: Heap) {
    h.functions == h0.functions && h.threads == h0.threads && h.userData == h0.userData && h.cells == h0.cells &&
    h.tables.Keys == h0.tables.Keys &&
    forall id :: id in h.tables ==> SameTable(h0.tables[id], h.tables[id])
  }

  ghost predicate SameTable(t0: TableRecord, t: TableRecord) {
    t == t0 || t == Retired(t0)
  }

  lemma {:induction false} RetiredLookup(entries: seq<Entry>, event: string)
    ensures Lookup(RetireEntries(entries), Text(event)) == Lookup(entries, Text(event))
  {
    if entries != [] {
      assert RetireEntries(entries)[1..] == RetireEntries(entries[1..]);
      RetiredLookup(entries[1..], event);
    }
  }

  lemma {:induction false} RetiredRefs(entries: seq<Entry>, mode: WeakMode)
    ensures EntriesRefs(RetireEntries(entries), mode) == EntriesRefs(entries, mode)
  {
    if entries != [] {
      var n := |entries| - 1;
      assert RetireEntries(entries)[..n] == RetireEntries(entries[..n]);
      RetiredRefs(entries[..n], mode);
    }
  }

  lemma SameEvents(h0: Heap, h: Heap, metatable: Value, event: string)
    requires SameGraph(h0, h)
    ensures EventSlot(h, metatable, event) == EventSlot(h0, metatable, event)
  {
    if metatable.Object? && metatable.ref.Table? && metatable.ref.id in h.tables {
      assert SameTable(h0.tables[metatable.ref.id], h.tables[metatable.ref.id]);
      RetiredLookup(h0.tables[metatable.ref.id].entries, event);
    }
  }

  lemma SameTableValid(h0: Heap, h: Heap, id: Id)
    requires SameGraph(h0, h) && NoDangling(h0) && id in h.tables
    ensures ValidTable(h, h.tables[id])
  {
    assert NoDanglingFacts(h0);
    assert SameTable(h0.tables[id], h.tables[id]) && ValidTable(h0, h0.tables[id]);
  }

  lemma SameThreadValid(h0: Heap, h: Heap, id: Id)
    requires SameGraph(h0, h) && NoDangling(h0) && id in h.threads
    ensures ValidThread(h, id, h.threads[id])
  {
    assert NoDanglingFacts(h0);
    assert ValidThread(h0, id, h0.threads[id]);
  }

  lemma SameValid(h0: Heap, h: Heap)
    requires SameGraph(h0, h) && NoDangling(h0)
    ensures NoDangling(h)
  {
    assert NoDanglingFacts(h0);
    forall id | id in h.tables ensures ValidTable(h, h.tables[id]) { SameTableValid(h0, h, id); }
    forall id | id in h.threads ensures ValidThread(h, id, h.threads[id]) { SameThreadValid(h0, h, id); }
    forall id | id in h.userData ensures ValidUserData(h, h.userData[id]) {
      assert ValidUserData(h0, h0.userData[id]);
    }
    forall id | id in h.functions ensures ValidFunction(h, h.functions[id]) {
      assert ValidFunction(h0, h0.functions[id]);
    }
    forall c, id | OpenOn(h, c, id) && id in h.threads ensures c in h.threads[id].openUpvalues {
      assert OpenOn(h0, c, id);
    }
  }

  lemma SameMode(h0: Heap, h: Heap, id: Id)
    requires SameGraph(h0, h) && id in h.tables
    ensures Mode(h, h.tables[id]) == Mode(h0, h0.tables[id])
  {
    assert SameTable(h0.tables[id], h.tables[id]);
    SameEvents(h0, h, h0.tables[id].metatable, "__mode");
  }

  lemma SameTableRefs(h0: Heap, h: Heap, id: Id)
    requires SameGraph(h0, h) && id in h.tables
    ensures TableRefs(h.tables[id], Mode(h, h.tables[id])) == TableRefs(h0.tables[id], Mode(h0, h0.tables[id]))
    ensures Retired(h.tables[id]) == Retired(h0.tables[id])
  {
    SameMode(h0, h, id);
    assert SameTable(h0.tables[id], h.tables[id]);
    RetiredRefs(h0.tables[id].entries, Mode(h0, h0.tables[id]));
    assert RetireEntries(RetireEntries(h0.tables[id].entries)) == RetireEntries(h0.tables[id].entries);
  }

  lemma TableFacts(h0: Heap, h: Heap, id: Id)
    requires SameGraph(h0, h) && NoDangling(h0) && id in h.tables
    ensures var t, mode := h.tables[id], ModeOf(h, h.tables[id].metatable);
            ValidTable(h, t) && mode == Mode(h0, h0.tables[id]) && TableRefs(t, mode) == Refs(h0, Table(id)) &&
            Retired(t) == Retired(h0.tables[id])
  {
    SameTableValid(h0, h, id);
    SameMode(h0, h, id);
    SameTableRefs(h0, h, id);
  }

  lemma SameRefs(h0: Heap, h: Heap, r: Ref)
    requires SameGraph(h0, h) && NoDangling(h0) && NoDangling(h) && Live(h, r)
    ensures Refs(h, r) == Refs(h0, r)
  {
    assert NoDanglingFacts(h0);
    assert NoDanglingFacts(h);
    match r {
      case Table(id) => SameTableRefs(h0, h, id);
      case Function(id) =>
        var f := h.functions[id];
        assert f.Lua? ==> Reads(h, f.upvalues) == Reads(h0, f.upvalues);
      case Thread(id) =>
        assert ValidThread(h, id, h.threads[id]) && ValidThread(h0, id, h0.threads[id]);
        assert Reads(h, h.threads[id].openUpvalues) == Reads(h0, h.threads[id].openUpvalues);
      case UserData(id) =>
    }
  }

  // ----- weak tables -----

  predicate IsWeak(mode: WeakMode) {
    mode.keys || mode.values
  }

  /** Whether a weak slot must go: its object is dying, or is a value about to be finalized. */
  predicate Lost(finalized: set<Id>, marks: set<Ref>, v: Value, key: bool) {
    v.Object? &&
    (v.ref !in marks || (!key && v.ref.UserData? && v.ref.id in finalized))
  }

  function ClearItem(finalized: set<Id>, marks: set<Ref>, v: Value): Value {
    if Lost(finalized, marks, v, false) then Nil else v
  }

  function ClearEntry(finalized: set<Id>, marks: set<Ref>, e: Entry): Entry {
    if e.value != Nil && (Lost(finalized, marks, e.key, true) || Lost(finalized, marks, e.value, false))
    then RetireEntry(Entry(e.key, Nil)) else e
  }

  function ClearItems(finalized: set<Id>, marks: set<Ref>, items: seq<Value>): (r: seq<Value>)
    ensures |r| == |items| && forall i :: 0 <= i < |r| ==> r[i] == ClearItem(finalized, marks, items[i])
  {
    seq(|items|, i requires 0 <= i < |items| => ClearItem(finalized, marks, items[i]))
  }

  function ClearEntries(finalized: set<Id>, marks: set<Ref>, entries: seq<Entry>): (r: seq<Entry>)
    ensures |r| == |entries| && forall i :: 0 <= i < |r| ==> r[i] == ClearEntry(finalized, marks, entries[i])
  {
    seq(|entries|, i requires 0 <= i < |entries| => ClearEntry(finalized, marks, entries[i]))
  }

  function Cleared(finalized: set<Id>, marks: set<Ref>, mode: WeakMode, t: TableRecord): TableRecord {
    if IsWeak(mode) then
      TableRecord(t.metatable, if mode.values then ClearItems(finalized, marks, t.items) else t.items,
                  ClearEntries(finalized, marks, t.entries))
    else t
  }

  lemma ClearedTwice(finalized: set<Id>, marks: set<Ref>, mode: WeakMode, t: TableRecord)
    ensures Cleared(finalized, marks, mode, Cleared(finalized, marks, mode, t)) == Cleared(finalized, marks, mode, t)
  {
  }

  /** The tables once the weak ones among the marked have been cleared. */
  function ClearedTables(h: Heap, marks: set<Ref>): map<Id, TableRecord> {
    map id | id in h.tables ::
      if Table(id) in marks then Cleared(h.finalized, marks, Mode(h, h.tables[id]), h.tables[id]) else h.tables[id]
  }

  // ----- the graph that is left -----

  /** A cell that was open on a dead thread is closed over the value it read. */
  function CloseCells(h: Heap, dead: set<Id>): map<Id, Cell> {
    map c | c in h.cells ::
      if h.cells[c].Open? && h.cells[c].thread in dead && Readable(h, c) then Closed(Read(h, c)) else h.cells[c]
  }

  function DeadThreads(h: Heap, marks: set<Ref>): set<Id> {
    set id | id in h.threads && Thread(id) !in marks
  }

  function Survivors(h: Heap, marks: set<Ref>): Heap {
    var tables := ClearedTables(h, marks);
    Heap(map id | id in tables && Table(id) in marks :: tables[id],
         map id | id in h.functions && Function(id) in marks :: h.functions[id],
         map id | id in h.threads && Thread(id) in marks :: h.threads[id],
         map id | id in h.userData && UserData(id) in marks :: h.userData[id],
         CloseCells(h, DeadThreads(h, marks)),
         set id | id in h.finalized && UserData(id) in marks)
  }

  /** No marked table has a deleted entry that still refers to its key. */
  ghost predicate KeysRetired(h: Heap, marks: set<Ref>) {
    forall id :: id in h.tables && Table(id) in marks ==> Retired(h.tables[id]) == h.tables[id]
  }

  /** A value that a live entry holds strongly is among the references of the entries. */
  lemma {:induction false} EntryRefsIncluded(entries: seq<Entry>, n: nat, i: nat, mode: WeakMode, v: Value)
    requires i < n <= |entries| && v in EntryRefs(entries[i], mode)
    ensures v in EntriesRefs(entries[..n], mode)
  {
    EntriesRefsStep(entries, n - 1, mode);
    if i < n - 1 {
      EntryRefsIncluded(entries, n - 1, i, mode, v);
    }
  }

  predicate Kept(marks: set<Ref>, v: Value) {
    v.Object? ==> v.ref in marks
  }

  lemma AllKept(marks: set<Ref>, vs: seq<Value>)
    requires Targets(vs) <= marks
    ensures forall i :: 0 <= i < |vs| ==> Kept(marks, vs[i])
  {
    TargetsMembers(vs);
    forall i | 0 <= i < |vs| ensures Kept(marks, vs[i]) {
      if vs[i].Object? { assert Object(vs[i].ref) in vs; }
    }
  }

  lemma KeptValid(h: Heap, marks: set<Ref>, v: Value)
    requires Valid(h, v) && Kept(marks, v)
    ensures Valid(Survivors(h, marks), v)
  {
  }

  lemma EntryKept(h: Heap, marks: set<Ref>, t: TableRecord, i: nat)
    requires ValidTable(h, t) && i < |t.entries| && Retired(t) == t
    requires Targets(EntriesRefs(t.entries, Mode(h, t))) <= marks
    ensures var e := Cleared(h.finalized, marks, Mode(h, t), t).entries[i];
            Valid(h, e.key) && Valid(h, e.value) && Kept(marks, e.key) && Kept(marks, e.value)
  {
    var e, mode := t.entries[i], Mode(h, t);
    assert RetireEntries(t.entries)[i] == RetireEntry(e);
    assert Valid(h, e.key) && Valid(h, e.value);
    if !IsWeak(mode) && e.value != Nil {
      StrongEntryKept(marks, t.entries, i, mode);
    }
  }

  lemma StrongEntryKept(marks: set<Ref>, entries: seq<Entry>, i: nat, mode: WeakMode)
    requires i < |entries| && entries[i].value != Nil && !IsWeak(mode) && Targets(EntriesRefs(entries, mode)) <= marks
    ensures Kept(marks, entries[i].key) && Kept(marks, entries[i].value)
  {
    var e := entries[i];
    assert entries[..|entries|] == entries;
    assert EntryRefs(e, mode) == [e.key, e.value];
    EntryRefsIncluded(entries, |entries|, i, mode, e.key);
    EntryRefsIncluded(entries, |entries|, i, mode, e.value);
    AllKept(marks, EntriesRefs(entries, mode));
  }

  lemma ItemKept(h: Heap, marks: set<Ref>, t: TableRecord, i: nat)
    requires ValidTable(h, t) && i < |t.items|
    requires !Mode(h, t).values ==> Targets(t.items) <= marks
    ensures var v := Cleared(h.finalized, marks, Mode(h, t), t).items[i]; Valid(h, v) && Kept(marks, v)
  {
    assert Valid(h, t.items[i]);
    if !Mode(h, t).values { AllKept(marks, t.items); }
  }

  lemma TableSurvives(h: Heap, marks: set<Ref>, id: Id)
    requires NoDangling(h) && ClosedUnder(h, marks) && KeysRetired(h, marks) && id in h.tables && Table(id) in marks
    ensures ValidTable(Survivors(h, marks), Survivors(h, marks).tables[id])
  {
    assert NoDanglingFacts(h);
    var t, mode := h.tables[id], Mode(h, h.tables[id]);
    var t', h' := Cleared(h.finalized, marks, mode, t), Survivors(h, marks);
    assert h'.tables[id] == t';
    assert Targets(Refs(h, Table(id))) <= marks && ValidTable(h, t);
    TargetsSplit([t.metatable] + (if mode.values then [] else t.items), EntriesRefs(t.entries, mode));
    TargetsSplit([t.metatable], if mode.values then [] else t.items);
    AllKept(marks, [t.metatable]);
    assert Kept(marks, [t.metatable][0]);
    KeptValid(h, marks, t.metatable);
    forall i | 0 <= i < |t'.items| ensures Valid(h', t'.items[i]) {
      ItemKept(h, marks, t, i);
      KeptValid(h, marks, t'.items[i]);
    }
    forall i | 0 <= i < |t'.entries| ensures Valid(h', t'.entries[i].key) && Valid(h', t'.entries[i].value) {
      EntryKept(h, marks, t, i);
      KeptValid(h, marks, t'.entries[i].key);
      KeptValid(h, marks, t'.entries[i].value);
    }
  }

  lemma CellSurvives(h: Heap, marks: set<Ref>, c: Id)
    requires NoDangling(h) && ClosedUnder(h, marks) && ValidCell(h, c)
    requires Read(h, c).Object? ==> Read(h, c).ref in marks
    ensures ValidCell(Survivors(h, marks), c) && Read(Survivors(h, marks), c) == Read(h, c)
  {
    var v := Read(h, c);
    assert v.Object? ==> Live(h, v.ref);
  }

  /** A closure is as good in the new graph, and reads the same through its upvalues. */
  ghost predicate FunctionKept(h: Heap, h': Heap, f: FunctionRecord) {
    ValidFunction(h, f) && ValidFunction(h', f) && (f.Lua? ==> Reads(h', f.upvalues) == Reads(h, f.upvalues))
  }

  lemma FunctionSurvives(h: Heap, marks: set<Ref>, id: Id)
    requires NoDangling(h) && ClosedUnder(h, marks) && id in h.functions && Function(id) in marks
    ensures FunctionKept(h, Survivors(h, marks), h.functions[id])
  {
    assert NoDanglingFacts(h);
    var f, h' := h.functions[id], Survivors(h, marks);
    var refs := FunctionRefs(h, f);
    assert ValidFunction(h, f) && Targets(Refs(h, Function(id))) <= marks;
    AllKept(marks, refs);
    assert refs[0] == f.environment;
    KeptValid(h, marks, f.environment);
    match f {
      case Lua(environment, upvalues) =>
        forall i | 0 <= i < |upvalues| ensures ValidCell(h', upvalues[i]) && Read(h', upvalues[i]) == Read(h, upvalues[i]) {
          var k := i + 1;
          assert refs[k] == Read(h, upvalues[i]);
          CellSurvives(h, marks, upvalues[i]);
        }
      case Native(environment, captures) =>
        forall i | 0 <= i < |captures| ensures Valid(h', captures[i]) {
          var k := i + 1;
          assert refs[k] == captures[i] && Valid(h, captures[i]);
          KeptValid(h, marks, captures[i]);
        }
    }
  }

  lemma ThreadSurvives(h: Heap, marks: set<Ref>, id: Id)
    requires NoDangling(h) && ClosedUnder(h, marks) && id in h.threads && Thread(id) in marks
    ensures ValidThread(Survivors(h, marks), id, h.threads[id])
  {
    assert NoDanglingFacts(h);
    var t, h' := h.threads[id], Survivors(h, marks);
    assert ValidThread(h, id, t) && Targets(Refs(h, Thread(id))) <= marks;
    var live := t.values[..Extent(t)];
    TargetsSplit([t.globals] + live + t.frames, Reads(h, t.openUpvalues));
    TargetsSplit([t.globals] + live, t.frames);
    TargetsSplit([t.globals], live);
    AllKept(marks, [t.globals]);
    AllKept(marks, live);
    AllKept(marks, t.frames);
    assert Kept(marks, [t.globals][0]);
    KeptValid(h, marks, t.globals);
    forall i | 0 <= i < |t.values| ensures Valid(h', t.values[i]) {
      assert Valid(h, t.values[i]);
      if i < Extent(t) { assert Kept(marks, live[i]); }
      KeptValid(h, marks, t.values[i]);
    }
    forall i | 0 <= i < |t.frames| ensures Valid(h', t.frames[i]) {
      assert Valid(h, t.frames[i]);
      KeptValid(h, marks, t.frames[i]);
    }
    forall i | 0 <= i < |t.openUpvalues| ensures OpenOn(h', t.openUpvalues[i], id) && ValidCell(h', t.openUpvalues[i]) {
      var c := t.openUpvalues[i];
      assert OpenOn(h, c, id) && ValidCell(h, c);
    }
  }

  lemma UserDataSurvives(h: Heap, marks: set<Ref>, id: Id)
    requires NoDangling(h) && ClosedUnder(h, marks) && id in h.userData && UserData(id) in marks
    ensures ValidUserData(Survivors(h, marks), h.userData[id])
  {
    assert NoDanglingFacts(h);
    var u := h.userData[id];
    var refs := [u.metatable, u.environment];
    assert ValidUserData(h, u) && Targets(Refs(h, UserData(id))) <= marks;
    AllKept(marks, refs);
    assert Kept(marks, refs[0]) && Kept(marks, refs[1]);
    KeptValid(h, marks, u.metatable);
    KeptValid(h, marks, u.environment);
  }

  /** Nothing that survives refers to anything that does not. */
  lemma NothingDangles(h: Heap, marks: set<Ref>)
    requires NoDangling(h) && ClosedUnder(h, marks) && KeysRetired(h, marks)
    ensures NoDangling(Survivors(h, marks))
  {
    assert NoDanglingFacts(h);
    var h' := Survivors(h, marks);
    forall id | id in h'.tables ensures ValidTable(h', h'.tables[id]) { TableSurvives(h, marks, id); }
    forall id | id in h'.functions ensures ValidFunction(h', h'.functions[id]) { FunctionSurvives(h, marks, id); }
    forall id | id in h'.threads ensures ValidThread(h', id, h'.threads[id]) { ThreadSurvives(h, marks, id); }
    forall id | id in h'.userData ensures ValidUserData(h', h'.userData[id]) { UserDataSurvives(h, marks, id); }
    forall c, id | OpenOn(h', c, id) && id in h'.threads ensures c in h'.threads[id].openUpvalues {
      assert OpenOn(h, c, id);
    }
  }
}
