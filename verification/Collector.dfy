/** The mark and sweep collector: typed work stacks, weak tables, finalization and sweeping, all in place. */
module Collector {
  import opened CollectorHeap
  import opened CollectorFacts
  import opened CollectorSpec
  import opened CollectorResult

  datatype Phase = Idle | Marking | Sweeping

  /** A place in the finalizer queue, cleared once its userdata has been taken. */
  datatype Place = Taken | Waiting(id: Id)

  function Queued(places: seq<Place>): (r: seq<Id>)
    ensures |r| == |places| && forall i :: 0 <= i < |r| ==> r[i] == if places[i].Waiting? then places[i].id else 0
  {
    if places == [] then []
    else
      var last := places[|places| - 1];
      Queued(places[..|places| - 1]) + [if last.Waiting? then last.id else 0]
  }

  /** What is marked, what of it is still to be traced, and how long the work stacks are. */
  datatype Marking = Marking(marks: set<Ref>, work: set<Ref>, length: nat)

  /** `added` has been marked; what was newly marked has gone to the work stacks, once each. */
  predicate Grown(before: Marking, after: Marking, added: set<Ref>) {
    after.marks == before.marks + added && after.work == before.work + (added - before.marks) &&
    (after.marks == before.marks ==> after.length == before.length)
  }

  lemma GrownTwice(x: Marking, y: Marking, z: Marking, a: set<Ref>, b: set<Ref>)
    requires Grown(x, y, a) && Grown(y, z, b)
    ensures Grown(x, z, a + b)
  {
  }

  lemma EntryMarked(before: Marking, half: Marking, after: Marking, e: Entry, mode: WeakMode)
    requires e.value != Nil
    requires Grown(before, half, if mode.keys then {} else Targets([e.key]))
    requires Grown(half, after, if mode.values then {} else Targets([e.value]))
    ensures Grown(before, after, Targets(EntryRefs(e, mode)))
  {
    TargetsSplit(if mode.keys then [] else [e.key], if mode.values then [] else [e.value]);
    assert Targets([]) == {};
    GrownTwice(before, half, after, if mode.keys then {} else Targets([e.key]), if mode.values then {} else Targets([e.value]));
  }

  lemma EntriesMarked(start: Marking, before: Marking, after: Marking, entries: seq<Entry>, i: nat, mode: WeakMode)
    requires i < |entries| && Grown(start, before, Targets(EntriesRefs(entries[..i], mode)))
    requires Grown(before, after, Targets(EntryRefs(entries[i], mode)))
    ensures Grown(start, after, Targets(EntriesRefs(entries[..i + 1], mode)))
  {
    EntriesRefsStep(entries, i, mode);
    TargetsSplit(EntriesRefs(entries[..i], mode), EntryRefs(entries[i], mode));
    GrownTwice(start, before, after, Targets(EntriesRefs(entries[..i], mode)), Targets(EntryRefs(entries[i], mode)));
  }

  lemma PairMarked(start: Marking, before: Marking, after: Marking, a: seq<Value>, b: seq<Value>)
    requires Grown(start, before, Targets(a)) && Grown(before, after, Targets(b))
    ensures Grown(start, after, Targets(a + b))
  {
    TargetsSplit(a, b);
    GrownTwice(start, before, after, Targets(a), Targets(b));
  }

  lemma TableMarked(start: Marking, now: Marking, half: Marking, after: Marking, t: TableRecord, mode: WeakMode)
    requires Grown(start, now, Targets([t.metatable]))
    requires if mode.values then half == now else Grown(now, half, Targets(t.items))
    requires Grown(half, after, Targets(EntriesRefs(t.entries, mode)))
    ensures Grown(start, after, Targets(TableRefs(t, mode)))
  {
    var items := if mode.values then [] else t.items;
    assert Targets([]) == {};
    PairMarked(start, now, half, [t.metatable], items);
    PairMarked(start, half, after, [t.metatable] + items, EntriesRefs(t.entries, mode));
  }

  lemma QueueValidIn(h0: Heap, h: Heap, seeds: set<Ref>, marks: set<Ref>, weakTables: seq<WeakTable>, pending: seq<Id>, now: Heap)
    requires NoDangling(h0) && Tricolor(h0, h, seeds, marks, {}, weakTables) && AllValid(h0, Slots(pending))
    requires now == h.(finalized := now.finalized)
    ensures AllValid(now, Slots(pending))
  {
    PendingMarkable(h0, h, seeds, marks, weakTables, pending, now.finalized);
  }

  /** Marking the queue is marking more seeds. */
  lemma QueueMarked(h0: Heap, h: Heap, seeds: set<Ref>, weakTables: seq<WeakTable>, pending: seq<Id>, now: Heap, before: Marking, after: Marking)
    requires NoDangling(h0) && Tricolor(h0, h, seeds, before.marks, {}, weakTables) && AllValid(h0, Slots(pending))
    requires before.work == {} && Grown(before, after, Targets(Slots(pending))) && now == h.(finalized := now.finalized)
    ensures Tricolor(h0, now, seeds + Targets(Slots(pending)), after.marks, after.work, weakTables)
  {
    PendingMarkable(h0, h, seeds, before.marks, weakTables, pending, now.finalized);
    assert now == h.(finalized := now.finalized);
  }

  datatype Snapshot = Snapshot(marks: set<Ref>, tables: seq<Id>, functions: seq<Id>, threads: seq<Id>, userData: seq<Id>) {
    function Length(): nat {
      |tables| + |functions| + |threads| + |userData|
    }
  }

  /** A stack has been served: its last object, if any, has been traced. */
  predicate Served(before: Snapshot, after: Snapshot, stack: seq<Id>) {
    before.marks <= after.marks &&
    (if stack == [] then after == before else after.marks == before.marks ==> after.Length() < before.Length())
  }

  lemma AllServed(a: Snapshot, b: Snapshot, c: Snapshot, d: Snapshot, e: Snapshot)
    requires Served(a, b, a.tables) && Served(b, c, b.functions) && Served(c, d, c.threads) && Served(d, e, d.userData)
    ensures a.marks <= e.marks
    ensures a.Length() > 0 && a.marks == e.marks ==> e.Length() < a.Length()
  {
  }

  lemma PopKeeps(s: seq<Id>)
    requires s != []
    ensures forall id :: id in s && id != s[|s| - 1] ==> id in s[..|s| - 1]
    ensures forall id :: id in s[..|s| - 1] ==> id in s
  {
  }

  lemma MarksShrinkRest(h: Heap, m: set<Ref>, m': set<Ref>)
    requires m <= m' && forall r :: r in m' ==> Live(h, r)
    ensures m' != m ==> AllRefs(h) - m' < AllRefs(h) - m
  {
    if m' != m {
      var r :| r in m' && r !in m;
      assert r in AllRefs(h);
    }
  }

  /** What a collection makes of a graph: the queue, the graph and the ledgers after it; to be taken apart only where
      Outcome is named. */
  ghost predicate CollectedTo(h: Heap, roots: seq<Value>, queue: seq<Id>, before: Ledgers, queue': seq<Id>, h': Heap, after: Ledgers) {
    forall k {:trigger Outcome(h, roots, queue, before, queue', h', k)} :: k == after ==> Outcome(h, roots, queue, before, queue', h', k)
  }

  ghost predicate Outcome(h: Heap, roots: seq<Value>, queue: seq<Id>, before: Ledgers, queue': seq<Id>, h': Heap, after: Ledgers) {
    NoDangling(h) && queue' == Queue(h, roots, queue, before.userData) && h' == Collected(h, roots, queue, before.userData) &&
    after == KeptLedgers(before, Staying(h, roots, queue, before.userData))
  }

  /** Everything the roots reach is marked, and what is to be finalized is queued; to be taken apart only where Separation
      is named. */
  ghost predicate SeparatedTo(h0: Heap, roots: seq<Value>, queue: seq<Id>, order: seq<Id>, h: Heap, marks: set<Ref>, weakTables: seq<WeakTable>,
                              queue': seq<Id>, h': Heap) {
    forall k {:trigger Separation(h0, roots, queue, order, h, marks, weakTables, queue', k)} :: k == h' ==>
      Separation(h0, roots, queue, order, h, marks, weakTables, queue', k)
  }

  ghost predicate Separation(h0: Heap, roots: seq<Value>, queue: seq<Id>, order: seq<Id>, h: Heap, marks: set<Ref>, weakTables: seq<WeakTable>,
                             queue': seq<Id>, h': Heap) {
    NoDangling(h0) && marks == Reached(h0, Targets(roots)) && Tricolor(h0, h, Targets(roots), marks, {}, weakTables) &&
    h' == Flagged(h, marks, false) && queue' == Queue(h0, roots, queue, order) && AllValid(h0, Slots(queue')) &&
    h'.finalized == Flagged(h0, marks, false).finalized
  }

  lemma Separates(h0: Heap, roots: seq<Value>, queue: seq<Id>, order: seq<Id>, h: Heap, marks: set<Ref>, weakTables: seq<WeakTable>)
    requires NoDangling(h0) && SeedsLive(h0, roots, queue) && h.finalized == h0.finalized
    requires marks == Reached(h0, Targets(roots)) && Tricolor(h0, h, Targets(roots), marks, {}, weakTables)
    ensures SeparatedTo(h0, roots, queue, order, h, marks, weakTables, queue + ToFinalize(h, order, marks, false), Flagged(h, marks, false))
  {
    MarkedLive(h0, h, Targets(roots), marks, {}, weakTables);
    QueuedAs(h0, h, roots, queue, order, marks);
  }

  /** What a sweep makes of a graph and its ledgers; to be taken apart only where SweepOutcome is named. */
  ghost predicate SweptTo(h: Heap, marks: set<Ref>, before: Ledgers, h': Heap, after: Ledgers) {
    forall k {:trigger SweepOutcome(h, marks, before, h', k)} :: k == after ==> SweepOutcome(h, marks, before, h', k)
  }

  ghost predicate SweepOutcome(h: Heap, marks: set<Ref>, before: Ledgers, h': Heap, after: Ledgers) {
    h' == Survivors(h, marks) && after == KeptLedgers(before, marks)
  }

  lemma MarkedThenSwept(h: Heap, roots: seq<Value>, queue: seq<Id>, before: Ledgers, queue': seq<Id>, half: Heap, marks: set<Ref>, h': Heap, after: Ledgers)
    requires MarkedTo(h, roots, queue, before, queue', half, marks) && SweptTo(half, marks, before, h', after)
    ensures CollectedTo(h, roots, queue, before, queue', h', after)
  {
    assert MarkOutcome(h, roots, queue, before, queue', half, marks) && SweepOutcome(half, marks, before, h', after);
  }

  /** The same when only the sweep is missing. */
  ghost predicate MarkedTo(h: Heap, roots: seq<Value>, queue: seq<Id>, before: Ledgers, queue': seq<Id>, h': Heap, marks: set<Ref>) {
    forall m {:trigger MarkOutcome(h, roots, queue, before, queue', h', m)} :: m == marks ==> MarkOutcome(h, roots, queue, before, queue', h', m)
  }

  ghost predicate MarkOutcome(h: Heap, roots: seq<Value>, queue: seq<Id>, before: Ledgers, queue': seq<Id>, h': Heap, marks: set<Ref>) {
    CollectedTo(h, roots, queue, before, queue', Survivors(h', marks), KeptLedgers(before, marks))
  }

  /** What is known between collections about the graph, the queue and its history is known after one as well. */
  lemma CollectionDone(h: Heap, roots: seq<Value>, queue: seq<Id>, before: Ledgers, queue': seq<Id>, h': Heap, after: Ledgers,
                       history: seq<Id>, called: nat, next: Id)
    requires NoDangling(h) && SeedsLive(h, roots, queue) && HistoryValid(h, queue, history, called, next)
    requires LedgersMatch(h, before.tables, before.functions, before.threads, before.userData)
    requires CollectedTo(h, roots, queue, before, queue', h', after)
    ensures NoDangling(h') && SeedsLive(h', roots, queue') && LedgersMatch(h', after.tables, after.functions, after.threads, after.userData)
    ensures HistoryValid(h', queue', history + ToFinalize(h, before.userData, Reached(h, Targets(roots)), false), called, next)
  {
    assert Outcome(h, roots, queue, before, queue', h', after);
    assert LedgersMatchFacts(h, before.tables, before.functions, before.threads, before.userData);
    StateAfter(h, roots, queue, before.tables, before.functions, before.threads, before.userData);
    HistoryGrows(h, roots, queue, before.userData, history, called, next);
  }

  class State {
    var heap: Heap
    var tables: seq<Id>
    var functions: seq<Id>
    var threads: seq<Id>
    var userData: seq<Id>
    var roots: seq<Value>

    var marks: set<Ref>
    var tableWork: seq<Id>
    var functionWork: seq<Id>
    var threadWork: seq<Id>
    var userDataWork: seq<Id>
    ghost var work: set<Ref>
    ghost var history: seq<Id>   // every userdata ever queued for finalization, in order
    ghost var finalizedCount: nat
    var nextUserData: Id
    var weakTables: seq<WeakTable>

    var finalizers: seq<Place>
    var finalizerHead: nat
    var phase: Phase

    constructor ()
      ensures Ready() && heap == Heap(map[], map[], map[], map[], map[], {}) && roots == [] && history == []
    {
      heap := Heap(map[], map[], map[], map[], map[], {});
      tables, functions, threads, userData, roots := [], [], [], [], [];
      marks, work, weakTables := {}, {}, [];
      tableWork, functionWork, threadWork, userDataWork := [], [], [], [];
      finalizers, finalizerHead, phase := [], 0, Idle;
      history, finalizedCount, nextUserData := [], 0, 0;
    }

    // ----- the finalizer queue -----

    ghost predicate QueueValid()
      reads `finalizers, `finalizerHead
    {
      finalizerHead <= |finalizers| &&
      (forall i :: 0 <= i < finalizerHead ==> finalizers[i] == Taken) &&
      (forall i :: finalizerHead <= i < |finalizers| ==> finalizers[i].Waiting?)
    }

    /** The userdata still to be finalized, in call order. */
    ghost function Pending(): (r: seq<Id>)
      reads `finalizers, `finalizerHead
      requires QueueValid()
    {
      Queued(finalizers[finalizerHead..])
    }

    method CompactFinalizerQueue()
      requires QueueValid()
      modifies `finalizers, `finalizerHead
      ensures QueueValid() && Pending() == old(Pending()) && finalizerHead == 0
    {
      if finalizerHead == 0 {
        return;
      }
      finalizers := finalizers[finalizerHead..];
      finalizerHead := 0;
    }

    method AppendFinalizer(id: Id)
      requires QueueValid()
      modifies `finalizers
      ensures QueueValid() && Pending() == old(Pending()) + [id]
    {
      finalizers := finalizers + [Waiting(id)];
    }

    /** First in, first out, however often the queue has been compacted. */
    method TakeFinalizer() returns (id: Id, found: bool)
      requires QueueValid()
      modifies `finalizers, `finalizerHead
      ensures QueueValid() && found == (old(Pending()) != [])
      ensures found ==> old(Pending()) == [id] + Pending()
      ensures !found ==> Pending() == []
    {
      if finalizerHead == |finalizers| {
        CompactFinalizerQueue();
        return 0, false;
      }
      id, found := finalizers[finalizerHead].id, true;
      finalizers := finalizers[finalizerHead := Taken];
      finalizerHead := finalizerHead + 1;
      assert old(Pending()) == [id] + Pending();
      if finalizerHead == |finalizers| {
        CompactFinalizerQueue();
      }
    }

    /** A userdata that has died gets its flag, and is queued when its metatable has a __gc field. */
    method ConsiderFinalizer(id: Id, all: bool)
      requires QueueValid() && id in heap.userData
      modifies `heap, `finalizers
      ensures QueueValid() && Progress(heap, Pending()) == ConsiderOne(old(Progress(heap, Pending())), marks, all, id)
    {
      if id in heap.finalized || (!all && UserData(id) in marks) {
        return;
      }
      heap := heap.(finalized := heap.finalized + {id});
      if EventSlot(heap, heap.userData[id].metatable, "__gc") != Nil {
        AppendFinalizer(id);
      }
    }

    /** Newest first, the userdata that has died gets its flag; those with a __gc field are queued. */
    method SeparateFinalizers(all: bool)
      requires QueueValid() && Distinct(userData) && Members(userData) == heap.userData.Keys
      modifies `heap, `finalizers, `finalizerHead
      ensures QueueValid() && Pending() == old(Pending()) + ToFinalize(old(heap), userData, marks, all)
      ensures heap == Flagged(old(heap), marks, all)
    {
      ghost var h := heap;
      CompactFinalizerQueue();
      ghost var queue := Pending();
      assert forall i :: 0 <= i < |userData| ==> userData[i] in Members(userData);
      ConsiderFinalizers(all);
      SeparatedAll(h, userData, marks, all, queue);
    }

    method ConsiderFinalizers(all: bool)
      requires QueueValid() && forall i :: 0 <= i < |userData| ==> userData[i] in heap.userData
      modifies `heap, `finalizers
      ensures QueueValid() && Progress(heap, Pending()) == Separated(old(heap), userData, 0, marks, all, old(Pending()))
    {
      ghost var h, queue := heap, Pending();
      SeparatedNone(h, userData, marks, all, queue);
      var index := |userData|;
      while index > 0
        invariant 0 <= index <= |userData| && QueueValid() && heap.userData == h.userData
        invariant Progress(heap, Pending()) == Separated(h, userData, index, marks, all, queue)
      {
        index := index - 1;
        assert userData[index] in heap.userData;
        ConsiderFinalizer(userData[index], all);
        SeparatedStep(h, userData, index, marks, all, queue);
      }
    }

    // ----- marking -----

    predicate Stacked(r: Ref)
      reads `tableWork, `functionWork, `threadWork, `userDataWork
    {
      match r
      case Table(id) => id in tableWork
      case Function(id) => id in functionWork
      case Thread(id) => id in threadWork
      case UserData(id) => id in userDataWork
    }

    /** The marked objects whose references have not been followed are on the stacks, and what is on
        the stacks is marked. */
    ghost predicate StacksValid()
      reads `marks, `work, `tableWork, `functionWork, `threadWork, `userDataWork
    {
      (forall r :: r in work ==> Stacked(r)) && forall r :: Stacked(r) ==> r in marks
    }

    ghost function WorkLength(): nat
      reads `tableWork, `functionWork, `threadWork, `userDataWork
    {
      |tableWork| + |functionWork| + |threadWork| + |userDataWork|
    }

    ghost function Now(): Marking
      reads `marks, `work, `tableWork, `functionWork, `threadWork, `userDataWork
    {
      Marking.Marking(marks, work, WorkLength())
    }

    method MarkObject(r: Ref)
      requires StacksValid() && Live(heap, r)
      modifies `marks, `tableWork, `functionWork, `threadWork, `userDataWork, `work
      ensures StacksValid() && Grown(old(Now()), Now(), {r})
    {
      if r in marks {
        return;
      }
      marks, work := marks + {r}, work + {r};
      match r
      case Table(id) => tableWork := tableWork + [id];
      case Function(id) => functionWork := functionWork + [id];
      case Thread(id) => threadWork := threadWork + [id];
      case UserData(id) => userDataWork := userDataWork + [id];
    }

    method MarkSlot(value: Value)
      requires StacksValid() && Valid(heap, value)
      modifies `marks, `tableWork, `functionWork, `threadWork, `userDataWork, `work
      ensures StacksValid() && Grown(old(Now()), Now(), Targets([value]))
    {
      if value.Object? {
        MarkObject(value.ref);
      }
    }

    method MarkSlots(values: seq<Value>)
      requires StacksValid() && AllValid(heap, values)
      modifies `marks, `tableWork, `functionWork, `threadWork, `userDataWork, `work
      ensures StacksValid() && Grown(old(Now()), Now(), Targets(values))
    {
      var i := 0;
      while i < |values|
        invariant 0 <= i <= |values|
        invariant StacksValid() && Grown(old(Now()), Now(), Targets(values[..i]))
      {
        ghost var now := Now();
        MarkSlot(values[i]);
        GrownTwice(old(Now()), now, Now(), Targets(values[..i]), Targets([values[i]]));
        TargetsStep(values, i);
        i := i + 1;
      }
      assert values[..i] == values;
    }

    // ----- following references -----

    method TableWeakMode(metatable: Value) returns (mode: WeakMode)
      ensures mode == ModeOf(heap, metatable)
    {
      var value := EventSlot(heap, metatable, "__mode");
      mode := WeakMode(false, false);
      if !value.Text? {
        return;
      }
      var text := value.s;
      var index := 0;
      while index < |text| && text[index] != '\0'
        invariant 0 <= index <= |text| && '\0' !in text[..index]
        invariant mode == WeakMode('k' in text[..index], 'v' in text[..index])
      {
        assert text[..index + 1] == text[..index] + [text[index]];
        if text[index] == 'k' {
          mode := mode.(keys := true);
        } else if text[index] == 'v' {
          mode := mode.(values := true);
        }
        index := index + 1;
        if mode == WeakMode(true, true) {
          break;
        }
      }
      MentionsPrefix(text, index, 'k');
      MentionsPrefix(text, index, 'v');
    }

    /** A live entry is followed on its strong sides. */
    method TraceEntries(entries: seq<Entry>, mode: WeakMode)
      requires StacksValid()
      requires forall i :: 0 <= i < |entries| ==> Valid(heap, entries[i].key) && Valid(heap, entries[i].value)
      modifies `marks, `tableWork, `functionWork, `threadWork, `userDataWork, `work
      ensures StacksValid() && Grown(old(Now()), Now(), Targets(EntriesRefs(entries, mode)))
    {
      var index := 0;
      while index < |entries|
        invariant 0 <= index <= |entries|
        invariant StacksValid() && Grown(old(Now()), Now(), Targets(EntriesRefs(entries[..index], mode)))
      {
        ghost var now := Now();
        TraceEntry(entries[index], mode);
        EntriesMarked(old(Now()), now, Now(), entries, index, mode);
        index := index + 1;
      }
      assert entries[..index] == entries;
    }

    method TraceEntry(entry: Entry, mode: WeakMode)
      requires StacksValid() && Valid(heap, entry.key) && Valid(heap, entry.value)
      modifies `marks, `tableWork, `functionWork, `threadWork, `userDataWork, `work
      ensures StacksValid() && Grown(old(Now()), Now(), Targets(EntryRefs(entry, mode)))
    {
      if entry.value == Nil {
        return;
      }
      if !mode.keys {
        MarkSlot(entry.key);
      }
      ghost var half := Now();
      if !mode.values {
        MarkSlot(entry.value);
      }
      EntryMarked(old(Now()), half, Now(), entry, mode);
    }

    /** Deleted entries let go of their keys. */
    method RetireDeletedKeys(entries: seq<Entry>) returns (retired: seq<Entry>)
      ensures retired == RetireEntries(entries)
    {
      retired := entries;
      var index := 0;
      while index < |entries|
        invariant 0 <= index <= |entries| == |retired|
        invariant forall i :: 0 <= i < |entries| ==> retired[i] == if i < index then RetireEntry(entries[i]) else entries[i]
      {
        if retired[index].value == Nil && retired[index].key.Object? {
          retired := retired[index := Entry(Nil, Nil)];
        }
        index := index + 1;
      }
    }

    method TraceTable(id: Id, ghost h0: Heap)
      requires StacksValid() && NoDangling(h0) && SameGraph(h0, heap) && id in heap.tables
      modifies `heap, `weakTables, `marks, `tableWork, `functionWork, `threadWork, `userDataWork, `work
      ensures StacksValid() && Grown(old(Now()), Now(), Targets(Refs(h0, Table(id))))
      ensures heap == old(heap).(tables := old(heap).tables[id := Retired(h0.tables[id])])
      ensures weakTables == old(weakTables) + WeakEntry(h0, id)
    {
      var table := heap.tables[id];
      TableFacts(h0, heap, id);
      var mode := TableWeakMode(table.metatable);
      ListWeakTable(id, mode);
      TraceContents(table, mode);
      var retired := RetireDeletedKeys(table.entries);
      heap := heap.(tables := heap.tables[id := table.(entries := retired)]);
    }

    method ListWeakTable(id: Id, mode: WeakMode)
      modifies `weakTables
      ensures weakTables == old(weakTables) + if IsWeak(mode) then [WeakTable(id, mode)] else []
    {
      if mode.keys || mode.values {
        weakTables := weakTables + [WeakTable(id, mode)];
      }
    }

    method TraceContents(table: TableRecord, mode: WeakMode)
      requires StacksValid() && ValidTable(heap, table)
      modifies `marks, `tableWork, `functionWork, `threadWork, `userDataWork, `work
      ensures StacksValid() && Grown(old(Now()), Now(), Targets(TableRefs(table, mode)))
    {
      MarkSlot(table.metatable);
      ghost var now := Now();
      if !mode.values {
        MarkSlots(table.items);
      }
      ghost var half := Now();
      TraceEntries(table.entries, mode);
      TableMarked(old(Now()), now, half, Now(), table, mode);
    }

    method TraceFunction(id: Id)
      requires StacksValid() && NoDangling(heap) && id in heap.functions
      modifies `marks, `tableWork, `functionWork, `threadWork, `userDataWork, `work
      ensures StacksValid() && Grown(old(Now()), Now(), Targets(Refs(heap, Function(id))))
    {
      var closure := heap.functions[id];
      assert NoDanglingFacts(heap);
      assert ValidFunction(heap, closure);
      MarkSlot(closure.environment);
      ghost var now := Now();
      match closure
      case Native(environment, captures) =>
        MarkSlots(captures);
        PairMarked(old(Now()), now, Now(), [environment], captures);
      case Lua(environment, upvalues) =>
        MarkSlots(Reads(heap, upvalues));
        PairMarked(old(Now()), now, Now(), [environment], Reads(heap, upvalues));
    }

    method TraceThread(id: Id)
      requires StacksValid() && NoDangling(heap) && id in heap.threads
      modifies `marks, `tableWork, `functionWork, `threadWork, `userDataWork, `work
      ensures StacksValid() && Grown(old(Now()), Now(), Targets(Refs(heap, Thread(id))))
    {
      var thread := heap.threads[id];
      assert NoDanglingFacts(heap);
      assert ValidThread(heap, id, thread);
      ghost var a, b, c := [thread.globals], thread.values[..Extent(thread)], thread.frames;
      MarkSlot(thread.globals);
      ghost var one := Now();
      MarkSlots(thread.values[..Extent(thread)]);
      ghost var two := Now();
      PairMarked(old(Now()), one, two, a, b);
      MarkSlots(thread.frames);
      ghost var three := Now();
      PairMarked(old(Now()), two, three, a + b, c);
      MarkSlots(Reads(heap, thread.openUpvalues));
      PairMarked(old(Now()), three, Now(), a + b + c, Reads(heap, thread.openUpvalues));
    }

    method TraceUserData(id: Id)
      requires StacksValid() && NoDangling(heap) && id in heap.userData
      modifies `marks, `tableWork, `functionWork, `threadWork, `userDataWork, `work
      ensures StacksValid() && Grown(old(Now()), Now(), Targets(Refs(heap, UserData(id))))
    {
      var data := heap.userData[id];
      assert NoDanglingFacts(heap);
      assert ValidUserData(heap, data);
      MarkSlot(data.metatable);
      ghost var now := Now();
      MarkSlot(data.environment);
      PairMarked(old(Now()), now, Now(), [data.metatable], [data.environment]);
      assert [data.metatable] + [data.environment] == [data.metatable, data.environment];
    }

    // ----- draining the work stacks -----

    ghost predicate Tracing(h0: Heap, seeds: set<Ref>)
      reads `heap, `weakTables, `marks, `work, `tableWork, `functionWork, `threadWork, `userDataWork
      requires NoDangling(h0)
    {
      StacksValid() && Tricolor(h0, heap, seeds, marks, work, weakTables)
    }

    ghost function Snap(): Snapshot
      reads `marks, `tableWork, `functionWork, `threadWork, `userDataWork
    {
      Snapshot(marks, tableWork, functionWork, threadWork, userDataWork)
    }

    method PopTable() returns (id: Id)
      requires StacksValid() && tableWork != []
      modifies `tableWork, `work
      ensures StacksValid() && Table(id) in marks && work == old(work) - {Table(id)} && WorkLength() + 1 == old(WorkLength())
    {
      var last := |tableWork| - 1;
      id := tableWork[last];
      assert Stacked(Table(id));
      PopKeeps(tableWork);
      tableWork := tableWork[..last];
      work := work - {Table(id)};
    }

    method ServeTable(ghost h0: Heap, ghost seeds: set<Ref>)
      requires NoDangling(h0) && Tracing(h0, seeds)
      modifies `heap, `weakTables, `marks, `tableWork, `functionWork, `threadWork, `userDataWork, `work
      ensures Tracing(h0, seeds) && Served(old(Snap()), Snap(), old(tableWork)) && heap.finalized == old(heap).finalized
    {
      if tableWork == [] {
        return;
      }
      ghost var h, m, w, l := heap, marks, work, weakTables;
      MarkedLive(h0, heap, seeds, marks, work, weakTables);
      var id := PopTable();
      TraceTable(id, h0);
      TricolorStep(h0, seeds, Table(id), h, m, w, l, heap, marks, work, weakTables);
    }

    method PopFunction() returns (id: Id)
      requires StacksValid() && functionWork != []
      modifies `functionWork, `work
      ensures StacksValid() && Function(id) in marks && work == old(work) - {Function(id)} && WorkLength() + 1 == old(WorkLength())
    {
      var last := |functionWork| - 1;
      id := functionWork[last];
      assert Stacked(Function(id));
      PopKeeps(functionWork);
      functionWork := functionWork[..last];
      work := work - {Function(id)};
    }

    method ServeFunction(ghost h0: Heap, ghost seeds: set<Ref>)
      requires NoDangling(h0) && Tracing(h0, seeds)
      modifies `marks, `tableWork, `functionWork, `threadWork, `userDataWork, `work
      ensures Tracing(h0, seeds) && Served(old(Snap()), Snap(), old(functionWork))
    {
      if functionWork == [] {
        return;
      }
      ghost var m, w := marks, work;
      MarkedLive(h0, heap, seeds, marks, work, weakTables);
      var id := PopFunction();
      SameValid(h0, heap);
      TraceFunction(id);
      TricolorStepSame(h0, seeds, Function(id), heap, m, w, weakTables, marks, work);
    }

    method PopThread() returns (id: Id)
      requires StacksValid() && threadWork != []
      modifies `threadWork, `work
      ensures StacksValid() && Thread(id) in marks && work == old(work) - {Thread(id)} && WorkLength() + 1 == old(WorkLength())
    {
      var last := |threadWork| - 1;
      id := threadWork[last];
      assert Stacked(Thread(id));
      PopKeeps(threadWork);
      threadWork := threadWork[..last];
      work := work - {Thread(id)};
    }

    method ServeThread(ghost h0: Heap, ghost seeds: set<Ref>)
      requires NoDangling(h0) && Tracing(h0, seeds)
      modifies `marks, `tableWork, `functionWork, `threadWork, `userDataWork, `work
      ensures Tracing(h0, seeds) && Served(old(Snap()), Snap(), old(threadWork))
    {
      if threadWork == [] {
        return;
      }
      ghost var m, w := marks, work;
      MarkedLive(h0, heap, seeds, marks, work, weakTables);
      var id := PopThread();
      SameValid(h0, heap);
      TraceThread(id);
      TricolorStepSame(h0, seeds, Thread(id), heap, m, w, weakTables, marks, work);
    }

    method PopUserData() returns (id: Id)
      requires StacksValid() && userDataWork != []
      modifies `userDataWork, `work
      ensures StacksValid() && UserData(id) in marks && work == old(work) - {UserData(id)} && WorkLength() + 1 == old(WorkLength())
    {
      var last := |userDataWork| - 1;
      id := userDataWork[last];
      assert Stacked(UserData(id));
      PopKeeps(userDataWork);
      userDataWork := userDataWork[..last];
      work := work - {UserData(id)};
    }

    method ServeUserData(ghost h0: Heap, ghost seeds: set<Ref>)
      requires NoDangling(h0) && Tracing(h0, seeds)
      modifies `marks, `tableWork, `functionWork, `threadWork, `userDataWork, `work
      ensures Tracing(h0, seeds) && Served(old(Snap()), Snap(), old(userDataWork))
    {
      if userDataWork == [] {
        return;
      }
      ghost var m, w := marks, work;
      MarkedLive(h0, heap, seeds, marks, work, weakTables);
      var id := PopUserData();
      SameValid(h0, heap);
      TraceUserData(id);
      TricolorStepSame(h0, seeds, UserData(id), heap, m, w, weakTables, marks, work);
    }

    method DrainCollectionWork(ghost h0: Heap, ghost seeds: set<Ref>)
      requires NoDangling(h0) && Tracing(h0, seeds)
      modifies `heap, `weakTables, `marks, `tableWork, `functionWork, `threadWork, `userDataWork, `work
      ensures Tracing(h0, seeds) && work == {} && WorkLength() == 0 && heap.finalized == old(heap).finalized
    {
      while tableWork != [] || functionWork != [] || threadWork != [] || userDataWork != []
        invariant Tracing(h0, seeds) && heap.finalized == old(heap).finalized
        decreases AllRefs(h0) - marks, WorkLength()
      {
        ghost var a := Snap();
        ServeTable(h0, seeds);
        ghost var b := Snap();
        ServeFunction(h0, seeds);
        ghost var c := Snap();
        ServeThread(h0, seeds);
        ghost var d := Snap();
        ServeUserData(h0, seeds);
        AllServed(a, b, c, d, Snap());
        MarkedLive(h0, heap, seeds, marks, work, weakTables);
        MarksShrinkRest(h0, a.marks, marks);
      }
      assert forall r :: !Stacked(r);
    }

    // ----- weak tables -----

    method WeakSlotCleared(value: Value, key: bool) returns (cleared: bool)
      ensures cleared == Lost(heap.finalized, marks, value, key)
    {
      if !value.Object? {
        return false;
      }
      if value.ref.UserData? {
        return value.ref !in marks || (!key && value.ref.id in heap.finalized);
      }
      return value.ref !in marks;
    }

    method ClearWeakTable(id: Id, mode: WeakMode)
      requires id in heap.tables && IsWeak(mode)
      modifies `heap
      ensures heap == old(heap).(tables := old(heap).tables[id := Cleared(old(heap).finalized, marks, mode, old(heap).tables[id])])
    {
      var table := heap.tables[id];
      var items := table.items;
      if mode.values {
        items := ClearWeakItems(table.items);
      }
      var entries := ClearWeakEntries(table.entries);
      heap := heap.(tables := heap.tables[id := TableRecord(table.metatable, items, entries)]);
    }

    method ClearWeakItems(before: seq<Value>) returns (items: seq<Value>)
      ensures items == ClearItems(heap.finalized, marks, before)
    {
      items := before;
      var index := 0;
      while index < |items|
        invariant 0 <= index <= |items| == |before|
        invariant forall i :: 0 <= i < |items| ==>
          items[i] == if i < index then ClearItem(heap.finalized, marks, before[i]) else before[i]
      {
        var cleared := WeakSlotCleared(items[index], false);
        if items[index] != Nil && cleared {
          items := items[index := Nil];
        }
        index := index + 1;
      }
    }

    method ClearWeakEntries(before: seq<Entry>) returns (entries: seq<Entry>)
      ensures entries == ClearEntries(heap.finalized, marks, before)
    {
      entries := before;
      var index := 0;
      while index < |entries|
        invariant 0 <= index <= |entries| == |before|
        invariant forall i :: 0 <= i < |entries| ==>
          entries[i] == if i < index then ClearEntry(heap.finalized, marks, before[i]) else before[i]
      {
        if entries[index].value != Nil {
          var keyCleared := WeakSlotCleared(entries[index].key, true);
          var valueCleared := WeakSlotCleared(entries[index].value, false);
          if keyCleared || valueCleared {
            var key := entries[index].key;
            entries := entries[index := RetireEntry(Entry(key, Nil))];
          }
        }
        index := index + 1;
      }
    }

    method ClearWeakTables()
      requires forall i :: 0 <= i < |weakTables| ==> weakTables[i].table in heap.tables && IsWeak(weakTables[i].mode)
      modifies `heap
      ensures heap == old(heap).(tables := ClearAll(old(heap).tables, old(heap).finalized, marks, weakTables))
    {
      ghost var h := heap;
      var index := 0;
      while index < |weakTables|
        invariant 0 <= index <= |weakTables|
        invariant heap == h.(tables := ClearAll(h.tables, h.finalized, marks, weakTables[..index]))
      {
        ClearWeakTable(weakTables[index].table, weakTables[index].mode);
        assert weakTables[..index + 1][..index] == weakTables[..index];
        index := index + 1;
      }
      assert weakTables[..index] == weakTables;
    }

    // ----- sweeping -----

    method CloseUpvalues(id: Id)
      requires id in heap.threads && CellsListed(heap) && ListsOpen(heap, id)
      modifies `heap
      ensures heap == old(heap).(cells := CloseCells(old(heap), {id}))
    {
      ghost var h := heap;
      var list := heap.threads[id].openUpvalues;
      var index := 0;
      assert CloseListed(h, list[..0]) == h.cells;
      while index < |list|
        invariant 0 <= index <= |list|
        invariant heap == h.(cells := CloseListed(h, list[..index]))
      {
        assert OpenOn(h, list[index], id) && Readable(h, list[index]);
        CloseListedStep(h, list, index);
        heap := heap.(cells := heap.cells[list[index] := Closed(Read(heap, list[index]))]);
        index := index + 1;
      }
      assert list[..index] == list;
      CloseListedAll(h, id);
    }

    /** A dead thread closes its cells before it goes. */
    method ReleaseThread(id: Id)
      requires id in heap.threads && CellsListed(heap) && ListsOpen(heap, id)
      modifies `heap
      ensures heap == Released(old(heap), {id})
    {
      CloseUpvalues(id);
      heap := heap.(threads := heap.threads - {id});
    }

    method SweepThreads()
      requires Sweepable(Threads, heap, threads)
      modifies `heap, `threads, `marks
      ensures KindSwept(Threads, old(heap), old(marks), old(threads), heap, marks, threads)
    {
      ghost var h, m := heap, marks;
      var live: seq<Id> := [];
      var index := 0;
      while index < |threads|
        invariant 0 <= index <= |threads| && threads == old(threads)
        invariant Sweep(heap, marks, live) == Swept(Threads, h, m, threads, index)
      {
        var id := threads[index];
        if Thread(id) in marks {
          marks := marks - {Thread(id)};
          live := live + [id];
        } else {
          SweptThreadReady(h, m, threads, index);
          ReleaseThread(id);
        }
        index := index + 1;
      }
      SweptAll(Threads, h, m, threads);
      threads := live;
    }

    method SweepFunctions()
      requires Sweepable(Functions, heap, functions)
      modifies `heap, `functions, `marks
      ensures KindSwept(Functions, old(heap), old(marks), old(functions), heap, marks, functions)
    {
      ghost var h, m := heap, marks;
      var live: seq<Id> := [];
      var index := 0;
      while index < |functions|
        invariant 0 <= index <= |functions| && functions == old(functions)
        invariant Sweep(heap, marks, live) == Swept(Functions, h, m, functions, index)
      {
        var id := functions[index];
        if Function(id) in marks {
          marks := marks - {Function(id)};
          live := live + [id];
        } else {
          heap := heap.(functions := heap.functions - {id});
        }
        index := index + 1;
      }
      SweptAll(Functions, h, m, functions);
      functions := live;
    }

    method SweepTables()
      requires Sweepable(Tables, heap, tables)
      modifies `heap, `tables, `marks
      ensures KindSwept(Tables, old(heap), old(marks), old(tables), heap, marks, tables)
    {
      ghost var h, m := heap, marks;
      var live: seq<Id> := [];
      var index := 0;
      while index < |tables|
        invariant 0 <= index <= |tables| && tables == old(tables)
        invariant Sweep(heap, marks, live) == Swept(Tables, h, m, tables, index)
      {
        var id := tables[index];
        if Table(id) in marks {
          marks := marks - {Table(id)};
          live := live + [id];
        } else {
          heap := heap.(tables := heap.tables - {id});
        }
        index := index + 1;
      }
      SweptAll(Tables, h, m, tables);
      tables := live;
    }

    method SweepUserData()
      requires Sweepable(UserDatas, heap, userData)
      modifies `heap, `userData, `marks
      ensures KindSwept(UserDatas, old(heap), old(marks), old(userData), heap, marks, userData)
    {
      ghost var h, m := heap, marks;
      var live: seq<Id> := [];
      var index := 0;
      while index < |userData|
        invariant 0 <= index <= |userData| && userData == old(userData)
        invariant Sweep(heap, marks, live) == Swept(UserDatas, h, m, userData, index)
      {
        var id := userData[index];
        if UserData(id) in marks {
          marks := marks - {UserData(id)};
          live := live + [id];
        } else {
          heap := WithoutUserData(heap, {id});
        }
        index := index + 1;
      }
      SweptAll(UserDatas, h, m, userData);
      userData := live;
    }

    // ----- a whole collection -----

    ghost function AllLedgers(): Ledgers
      reads `tables, `functions, `threads, `userData
    {
      Ledgers(tables, functions, threads, userData)
    }

    /** No collection is under way: no marks, no work, no dangling references, and the queue holds live
        userdata whose finalizer has been considered. To be taken apart only where ReadyIn is named. */
    ghost predicate Ready()
      reads this
    {
      QueueValid() && NoDangling(heap) && forall p {:trigger ReadyIn(p)} :: p == phase ==> ReadyIn(p)
    }

    ghost predicate ReadyIn(phase: Phase)
      reads this
    {
      phase == Idle && marks == {} && work == {} && WorkLength() == 0 && weakTables == [] &&
      NoDangling(heap) && LedgersMatch(heap, tables, functions, threads, userData) &&
      QueueValid() && SeedsLive(heap, roots, Pending()) &&
      HistoryValid(heap, Pending(), history, finalizedCount, nextUserData)
    }

    method MarkPendingFinalizers()
      requires StacksValid() && QueueValid() && AllValid(heap, Slots(Pending()))
      modifies `marks, `tableWork, `functionWork, `threadWork, `userDataWork, `work
      ensures StacksValid() && Grown(old(Now()), Now(), Targets(Slots(Pending())))
    {
      var index := finalizerHead;
      ghost var slots := Slots(Pending());
      while index < |finalizers|
        invariant finalizerHead <= index <= |finalizers|
        invariant StacksValid() && Grown(old(Now()), Now(), Targets(slots[..index - finalizerHead]))
      {
        ghost var now, k := Now(), index - finalizerHead;
        assert slots[k] == Object(UserData(finalizers[index].id));
        MarkSlot(Object(UserData(finalizers[index].id)));
        GrownTwice(old(Now()), now, Now(), Targets(slots[..k]), Targets([slots[k]]));
        TargetsStep(slots, k);
        index := index + 1;
      }
      assert slots[..index - finalizerHead] == slots;
    }

    /** Everything the roots reach is marked. */
    method MarkReachable()
      requires marks == {} && work == {} && WorkLength() == 0 && weakTables == [] && NoDangling(heap) && AllValid(heap, roots)
      modifies `heap, `weakTables, `marks, `tableWork, `functionWork, `threadWork, `userDataWork, `work
      ensures StacksValid() && work == {} && WorkLength() == 0 && heap.finalized == old(heap).finalized
      ensures marks == Reached(old(heap), Targets(roots))
      ensures Tricolor(old(heap), heap, Targets(roots), marks, {}, weakTables)
    {
      ghost var h0 := heap;
      RootsMarked(h0, roots);
      MarkSlots(roots);
      assert marks == Targets(roots) && work == Targets(roots);
      DrainCollectionWork(h0, Targets(roots));
      MarkingDone(h0, heap, Targets(roots), marks, weakTables);
    }

    /** What the queued userdata reaches is marked as well. */
    method MarkFinalizable(ghost h0: Heap, ghost h: Heap, ghost seeds: set<Ref>)
      requires NoDangling(h0) && QueueValid() && StacksValid() && work == {} && WorkLength() == 0
      requires Tricolor(h0, h, seeds, marks, {}, weakTables) && heap == h.(finalized := heap.finalized)
      requires AllValid(h0, Slots(Pending()))
      modifies `heap, `weakTables, `marks, `tableWork, `functionWork, `threadWork, `userDataWork, `work
      ensures Tricolor(h0, heap, seeds + Targets(Slots(Pending())), marks, {}, weakTables)
      ensures work == {} && WorkLength() == 0 && heap.finalized == old(heap).finalized
    {
      ghost var before, pending := Now(), Pending();
      QueueValidIn(h0, h, seeds, marks, weakTables, pending, heap);
      MarkPendingFinalizers();
      QueueMarked(h0, h, seeds, weakTables, pending, heap, before, Now());
      DrainCollectionWork(h0, seeds + Targets(Slots(Pending())));
    }

    /** Weak tables are cleared, then every ledger is swept. */
    method SweepPhase()
      requires SweepReady(heap, marks, weakTables, tables, functions, threads, userData)
      modifies `heap, `marks, `tables, `functions, `threads, `userData
      ensures marks == {} && SweptTo(old(heap), old(marks), old(AllLedgers()), heap, AllLedgers())
    {
      ghost var h, m, before := heap, marks, AllLedgers();
      SweepStarts(h, m, weakTables, tables, functions, threads, userData);
      ClearWeakTables();
      SweepThreads();
      ghost var h1, m1 := heap, marks;
      SweepFunctions();
      ghost var h2, m2 := heap, marks;
      SweepTables();
      ghost var h3, m3 := heap, marks;
      SweepUserData();
      SweptInTurn(h, m, before, weakTables, h1, m1, h2, m2, h3, m3, heap, marks, AllLedgers());
    }

    /** Everything the roots reach is marked, then unreachable userdata is queued. */
    method MarkAndSeparate() returns (ghost h: Heap)
      requires Ready()
      modifies `phase, `heap, `weakTables, `marks, `tableWork, `functionWork, `threadWork, `userDataWork, `work, `finalizers, `finalizerHead
      ensures StacksValid() && work == {} && WorkLength() == 0 && QueueValid()
      ensures SeparatedTo(old(heap), roots, old(Pending()), userData, h, marks, weakTables, Pending(), heap)
    {
      assert ReadyIn(phase);
      phase := Phase.Marking;
      ghost var h0, queue := heap, Pending();
      RootsValid(heap, roots, queue, tables, functions, threads, userData);
      MarkReachable();
      h := heap;
      MarkedLive(h0, h, Targets(roots), marks, {}, weakTables);
      Separates(h0, roots, queue, userData, h, marks, weakTables);
      SeparateFinalizers(false);
    }

    /** Marking again from the queue leaves everything ready for the sweep. */
    method MarkPhase()
      requires Ready()
      modifies `phase, `heap, `weakTables, `marks, `tableWork, `functionWork, `threadWork, `userDataWork, `work, `finalizers, `finalizerHead
      ensures work == {} && WorkLength() == 0
      ensures QueueValid() && SweepReady(heap, marks, weakTables, tables, functions, threads, userData)
      ensures MarkedTo(old(heap), roots, old(Pending()), old(AllLedgers()), Pending(), heap, marks)
    {
      assert ReadyIn(phase);
      ghost var h0, queue := heap, Pending();
      ghost var h := MarkAndSeparate();
      ghost var first := marks;
      assert Separation(h0, roots, queue, userData, h, marks, weakTables, Pending(), heap);
      MarkFinalizable(h0, h, Targets(roots));
      MarkingDone(h0, heap, Seeds(h0, roots, queue, userData), marks, weakTables);
      ReadyToSweep(h0, heap, first, Seeds(h0, roots, queue, userData), marks, weakTables, tables, functions, threads, userData);
      MarkedGraph(h0, heap, first, Seeds(h0, roots, queue, userData), marks, weakTables);
    }

    /** Marking, separating the finalizable, marking again, clearing weak tables and sweeping. */
    method MarkAndSweep()
      requires Ready()
      modifies `phase, `heap, `weakTables, `marks, `tableWork, `functionWork, `threadWork, `userDataWork, `work,
               `finalizers, `finalizerHead, `tables, `functions, `threads, `userData
      ensures marks == {} && work == {} && WorkLength() == 0 && weakTables == [] && phase == Idle && QueueValid()
      ensures CollectedTo(old(heap), roots, old(Pending()), old(AllLedgers()), Pending(), heap, AllLedgers())
    {
      ghost var h0, queue, before := heap, Pending(), AllLedgers();
      MarkPhase();
      ghost var half, staying := heap, marks;
      phase := Sweeping;
      SweepPhase();
      MarkedThenSwept(h0, roots, queue, before, Pending(), half, staying, heap, AllLedgers());
      weakTables := [];
      phase := Idle;
    }

    /** One collection: what it leaves is a function of the graph, the roots and the finalizer queue. */
    method CollectUnreachable()
      requires Ready()
      modifies this
      ensures Ready() && roots == old(roots) && nextUserData == old(nextUserData)
      ensures CollectedTo(old(heap), roots, old(Pending()), old(AllLedgers()), Pending(), heap, AllLedgers())
      ensures old(history) <= history && finalizedCount == old(finalizedCount)
    {
      assert ReadyIn(phase);
      ghost var h0, queue, before := heap, Pending(), AllLedgers();
      MarkAndSweep();
      CollectionDone(h0, roots, queue, before, Pending(), heap, AllLedgers(), history, finalizedCount, nextUserData);
      history := history + ToFinalize(h0, before.userData, Reached(h0, Targets(roots)), false);
    }

    // ----- between collections -----

    /** The next finalizer to call: userdata leaves the queue in the order in which it was queued. */
    method NextPendingFinalizer() returns (handler: Value, argument: Id, pending: bool, invoke: bool)
      requires Ready()
      modifies `finalizers, `finalizerHead, `finalizedCount
      ensures Ready() && pending == (old(Pending()) != [])
      ensures pending ==> finalizedCount == old(finalizedCount) + 1 <= |history| && argument == history[old(finalizedCount)]
      ensures pending ==> argument in heap.userData && handler == EventSlot(heap, heap.userData[argument].metatable, "__gc")
      ensures invoke == (pending && handler != Nil) && (!pending ==> finalizedCount == old(finalizedCount))
    {
      assert ReadyIn(phase);
      ghost var before := Pending();
      argument, pending := TakeFinalizer();
      if !pending {
        assert Pending() == before;
        return Nil, argument, false, false;
      }
      assert before[0] == argument;
      finalizedCount := finalizedCount + 1;
      TakenFirst(heap, roots, before, Pending(), argument, history, finalizedCount, nextUserData);
      handler := EventSlot(heap, heap.userData[argument].metatable, "__gc");
      invoke := handler != Nil;
    }

    /** New userdata goes to the end of its ledger; its finalizer has not been considered. */
    method RegisterUserData(metatable: Value, environment: Value) returns (id: Id)
      requires Ready() && Valid(heap, metatable) && Valid(heap, environment) && (metatable.Object? ==> metatable.ref.Table?)
      modifies `heap, `userData, `nextUserData
      ensures Ready() && userData == old(userData) + [id] && id !in old(heap).userData && id !in heap.finalized && id !in history
      ensures heap == old(heap).(userData := old(heap).userData[id := UserDataRecord(metatable, environment)])
    {
      assert ReadyIn(phase);
      id := nextUserData;
      Registered(heap, id, UserDataRecord(metatable, environment), roots, Pending(), tables, functions, threads, userData,
                 history, finalizedCount);
      heap := heap.(userData := heap.userData[id := UserDataRecord(metatable, environment)]);
      userData := userData + [id];
      nextUserData := nextUserData + 1;
    }

    /** Whatever the program does to its objects in the meantime, short of touching finalization flags. */
    method Execute(after: Heap, newRoots: seq<Value>)
      requires Ready() && NoDangling(after) && LedgersMatch(after, tables, functions, threads, userData)
      requires after.finalized == heap.finalized && AllValid(after, newRoots)
      modifies `heap, `roots
      ensures Ready() && heap == after && roots == newRoots
    {
      assert ReadyIn(phase);
      Executed(heap, after, roots, newRoots, Pending(), tables, functions, threads, userData, history, finalizedCount, nextUserData);
      heap, roots := after, newRoots;
    }
  }
}
