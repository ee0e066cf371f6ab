/** Finalization as functions on the graph, and ledger order. */
module CollectorSpec {
  import opened CollectorHeap
  import opened CollectorFacts

  predicate Distinct(ids: seq<Id>) {
    forall i, j :: 0 <= i < j < |ids| ==> ids[i] != ids[j]
  }

  function Members(ids: seq<Id>): set<Id> {
    set id | id in ids
  }

  /** The entries of a ledger that are kept, in their old order. */
  function Remaining(ids: seq<Id>, kept: set<Id>): (r: seq<Id>)
    ensures forall id :: id in r <==> id in ids && id in kept
    ensures Distinct(ids) ==> Distinct(r)
  {
    if ids == [] then []
    else
      var n := |ids| - 1;
      assert ids == ids[..n] + [ids[n]];
      Remaining(ids[..n], kept) + (if ids[n] in kept then [ids[n]] else [])
  }

  /** Userdata that finalization considers: not considered before, and dead or at closing. */
  predicate Considered(h: Heap, marks: set<Ref>, all: bool, id: Id) {
    id in h.userData && id !in h.finalized && (all || UserData(id) !in marks)
  }

  function Flagged(h: Heap, marks: set<Ref>, all: bool): Heap {
    h.(finalized := h.finalized + set id | id in h.userData && Considered(h, marks, all, id))
  }

  /** What considering one userdata adds to the queue. */
  function QueuedFor(h: Heap, marks: set<Ref>, all: bool, id: Id): seq<Id> {
    if Considered(h, marks, all, id) && EventSlot(h, h.userData[id].metatable, "__gc") != Nil then [id] else []
  }

  /** The userdata to queue: considered, with a __gc field, in reverse creation order. */
  function ToFinalize(h: Heap, ids: seq<Id>, marks: set<Ref>, all: bool): seq<Id> {
    if ids == [] then []
    else QueuedFor(h, marks, all, ids[|ids| - 1]) + ToFinalize(h, ids[..|ids| - 1], marks, all)
  }

  function Consider(h: Heap, marks: set<Ref>, all: bool, id: Id): Heap {
    if Considered(h, marks, all, id) then h.(finalized := h.finalized + {id}) else h
  }

  datatype Progress = Progress(heap: Heap, queue: seq<Id>)

  function ConsiderOne(p: Progress, marks: set<Ref>, all: bool, id: Id): Progress {
    Progress(Consider(p.heap, marks, all, id), p.queue + QueuedFor(p.heap, marks, all, id))
  }

  /** Graph and queue once ids[n..] has been considered, newest first. */
  function Separated(h: Heap, ids: seq<Id>, n: nat, marks: set<Ref>, all: bool, queue: seq<Id>): (p: Progress)
    requires n <= |ids|
    ensures p.heap.userData == h.userData
    decreases |ids| - n
  {
    if n == |ids| then Progress(h, queue)
    else ConsiderOne(Separated(h, ids, n + 1, marks, all, queue), marks, all, ids[n])
  }

  lemma SeparatedNone(h: Heap, ids: seq<Id>, marks: set<Ref>, all: bool, queue: seq<Id>)
    ensures Separated(h, ids, |ids|, marks, all, queue) == Progress(h, queue)
  {
  }

  lemma SeparatedStep(h: Heap, ids: seq<Id>, n: nat, marks: set<Ref>, all: bool, queue: seq<Id>)
    requires n < |ids|
    ensures Separated(h, ids, n, marks, all, queue) == ConsiderOne(Separated(h, ids, n + 1, marks, all, queue), marks, all, ids[n])
  {
  }

  function ConsideredIn(h: Heap, done: seq<Id>, marks: set<Ref>, all: bool): set<Id> {
    set id | id in done && Considered(h, marks, all, id)
  }

  /** The flags once the userdata in `done` has been considered. */
  function FlaggedFrom(h: Heap, done: seq<Id>, marks: set<Ref>, all: bool): Heap {
    h.(finalized := h.finalized + ConsideredIn(h, done, marks, all))
  }

  lemma ConsideredStep(h: Heap, ids: seq<Id>, n: nat, marks: set<Ref>, all: bool)
    requires n < |ids|
    ensures ConsideredIn(h, ids[n..], marks, all) ==
            ConsideredIn(h, ids[n + 1..], marks, all) + if Considered(h, marks, all, ids[n]) then {ids[n]} else {}
    ensures Distinct(ids) ==> ids[n] !in ConsideredIn(h, ids[n + 1..], marks, all)
  {
    assert ids[n..] == [ids[n]] + ids[n + 1..];
  }

  lemma FlaggedStep(h: Heap, ids: seq<Id>, n: nat, marks: set<Ref>, all: bool)
    requires n < |ids| && Distinct(ids)
    ensures var before, id := FlaggedFrom(h, ids[n + 1..], marks, all), ids[n];
            QueuedFor(before, marks, all, id) == QueuedFor(h, marks, all, id) &&
            FlaggedFrom(h, ids[n..], marks, all) == Consider(before, marks, all, id)
  {
    var before := FlaggedFrom(h, ids[n + 1..], marks, all);
    ConsideredStep(h, ids, n, marks, all);
    if ids[n] in h.userData { SameTablesSameEvents(h, before, h.userData[ids[n]].metatable, "__gc"); }
  }

  lemma SameTablesSameEvents(h: Heap, h': Heap, metatable: Value, event: string)
    requires h'.tables == h.tables
    ensures EventSlot(h', metatable, event) == EventSlot(h, metatable, event)
  {
  }

  lemma {:induction false} SeparatedFlags(h: Heap, ids: seq<Id>, n: nat, marks: set<Ref>, all: bool, queue: seq<Id>)
    requires n <= |ids| && Distinct(ids)
    ensures Separated(h, ids, n, marks, all, queue).heap == FlaggedFrom(h, ids[n..], marks, all)
    decreases |ids| - n
  {
    if n < |ids| {
      SeparatedFlags(h, ids, n + 1, marks, all, queue);
      FlaggedStep(h, ids, n, marks, all);
    } else {
      assert ConsideredIn(h, ids[n..], marks, all) == {};
    }
  }

  lemma QueueStep(h: Heap, ids: seq<Id>, n: nat, marks: set<Ref>, all: bool, queue: seq<Id>)
    requires n < |ids| && Distinct(ids)
    ensures Separated(h, ids, n, marks, all, queue).queue == Separated(h, ids, n + 1, marks, all, queue).queue + QueuedFor(h, marks, all, ids[n])
  {
    SeparatedFlags(h, ids, n + 1, marks, all, queue);
    FlaggedStep(h, ids, n, marks, all);
  }

  lemma ToFinalizeStep(h: Heap, ids: seq<Id>, n: nat, marks: set<Ref>, all: bool)
    requires n < |ids|
    ensures ToFinalize(h, ids[..n + 1], marks, all) == QueuedFor(h, marks, all, ids[n]) + ToFinalize(h, ids[..n], marks, all)
  {
    assert ids[..n + 1][..n] == ids[..n];
  }

  lemma {:induction false} SeparatedQueue(h: Heap, ids: seq<Id>, n: nat, marks: set<Ref>, all: bool, queue: seq<Id>)
    requires n <= |ids| && Distinct(ids)
    ensures Separated(h, ids, n, marks, all, queue).queue + ToFinalize(h, ids[..n], marks, all) ==
            queue + ToFinalize(h, ids, marks, all)
    decreases |ids| - n
  {
    if n < |ids| {
      SeparatedQueue(h, ids, n + 1, marks, all, queue);
      QueueStep(h, ids, n, marks, all, queue);
      ToFinalizeStep(h, ids, n, marks, all);
    } else {
      assert ids[..n] == ids;
    }
  }

  lemma SeparatedAll(h: Heap, ids: seq<Id>, marks: set<Ref>, all: bool, queue: seq<Id>)
    requires Distinct(ids) && Members(ids) == h.userData.Keys
    ensures Separated(h, ids, 0, marks, all, queue) == Progress(Flagged(h, marks, all), queue + ToFinalize(h, ids, marks, all))
  {
    SeparatedFlags(h, ids, 0, marks, all, queue);
    SeparatedQueue(h, ids, 0, marks, all, queue);
    assert ids[0..] == ids && ids[..0] == [];
    assert forall id :: id in Members(ids) <==> id in ids;
  }

  // ----- the marking invariant -----

  datatype WeakTable = WeakTable(table: Id, mode: WeakMode)

  /** What tracing a table leaves on the list of weak tables. */
  function WeakEntry(h: Heap, id: Id): seq<WeakTable>
    requires id in h.tables
  {
    var mode := Mode(h, h.tables[id]);
    if IsWeak(mode) then [WeakTable(id, mode)] else []
  }

  /** The object's references are marked; a table has retired its keys and is listed if weak. */
  ghost predicate Traced(h0: Heap, h: Heap, marks: set<Ref>, weakTables: seq<WeakTable>, r: Ref)
    requires NoDangling(h0) && SameGraph(h0, h)
  {
    Live(h0, r) && Targets(Refs(h0, r)) <= marks &&
    (r.Table? ==> h.tables[r.id] == Retired(h0.tables[r.id]) && forall w :: w in WeakEntry(h0, r.id) ==> w in weakTables)
  }

  ghost predicate Listed(h0: Heap, marks: set<Ref>, w: WeakTable) {
    Table(w.table) in marks && w.table in h0.tables && w.mode == Mode(h0, h0.tables[w.table]) && IsWeak(w.mode)
  }

  /** Everything marked is reachable from the seeds, and everything marked is either still to be traced
      or has been. */
  ghost predicate Tricolor(h0: Heap, h: Heap, seeds: set<Ref>, marks: set<Ref>, work: set<Ref>, weakTables: seq<WeakTable>)
    requires NoDangling(h0)
  {
    forall w {:trigger TricolorFacts(h0, h, seeds, marks, work, w)} :: w == weakTables ==> TricolorFacts(h0, h, seeds, marks, work, w)
  }

  ghost predicate TricolorFacts(h0: Heap, h: Heap, seeds: set<Ref>, marks: set<Ref>, work: set<Ref>, weakTables: seq<WeakTable>)
    requires NoDangling(h0)
  {
    SameGraph(h0, h) && seeds <= marks && work <= marks &&
    (forall r :: r in marks ==> Live(h0, r) && Reachable(h0, seeds, r)) &&
    (forall r :: r in marks && r !in work ==> Traced(h0, h, marks, weakTables, r)) &&
    (forall i :: 0 <= i < |weakTables| ==> Listed(h0, marks, weakTables[i]))
  }

  lemma TracedStays(h0: Heap, h: Heap, marks: set<Ref>, weakTables: seq<WeakTable>, r: Ref,
                    h': Heap, marks': set<Ref>, weakTables': seq<WeakTable>)
    requires NoDangling(h0) && SameGraph(h0, h) && SameGraph(h0, h') && Traced(h0, h, marks, weakTables, r)
    requires marks <= marks' && weakTables <= weakTables'
    requires r.Table? ==> h'.tables[r.id] in {h.tables[r.id], Retired(h0.tables[r.id])}
    ensures Traced(h0, h', marks', weakTables', r)
  {
  }

  /** Whatever is marked is alive. */
  lemma MarkedLive(h0: Heap, h: Heap, seeds: set<Ref>, marks: set<Ref>, work: set<Ref>, weakTables: seq<WeakTable>)
    requires NoDangling(h0) && Tricolor(h0, h, seeds, marks, work, weakTables)
    ensures SameGraph(h0, h) && forall r :: r in marks ==> Live(h0, r)
  {
    assert TricolorFacts(h0, h, seeds, marks, work, weakTables);
  }

  lemma StepMarked(h0: Heap, seeds: set<Ref>, marks: set<Ref>, r: Ref)
    requires NoDangling(h0) && r in marks && forall b :: b in marks ==> Live(h0, b) && Reachable(h0, seeds, b)
    ensures forall b :: b in marks + Targets(Refs(h0, r)) ==> Live(h0, b) && Reachable(h0, seeds, b)
  {
    RefsLive(h0, r);
    forall b | b in Targets(Refs(h0, r)) ensures Live(h0, b) && Reachable(h0, seeds, b) {
      assert Points(h0, r, b);
      StepReachable(h0, seeds, r, b);
    }
  }

  lemma StepTraced(h0: Heap, seeds: set<Ref>, r: Ref,
                   h: Heap, marks: set<Ref>, work: set<Ref>, weakTables: seq<WeakTable>,
                   h': Heap, marks': set<Ref>, work': set<Ref>, weakTables': seq<WeakTable>)
    requires NoDangling(h0) && Tricolor(h0, h, seeds, marks, work, weakTables) && r in marks && Live(h0, r)
    requires h' == if r.Table? && r.id in h0.tables then h.(tables := h.tables[r.id := Retired(h0.tables[r.id])]) else h
    requires marks' == marks + Targets(Refs(h0, r))
    requires work' == (work - {r}) + (Targets(Refs(h0, r)) - marks)
    requires weakTables' == weakTables + if r.Table? && r.id in h0.tables then WeakEntry(h0, r.id) else []
    ensures SameGraph(h0, h') && forall b :: b in marks' && b !in work' ==> Traced(h0, h', marks', weakTables', b)
  {
    assert TricolorFacts(h0, h, seeds, marks, work, weakTables);
    forall id | id in h'.tables ensures SameTable(h0.tables[id], h'.tables[id]) {
      assert SameTable(h0.tables[id], h.tables[id]);
    }
    forall b | b in marks' && b !in work' ensures Traced(h0, h', marks', weakTables', b) {
      if b != r {
        assert Traced(h0, h, marks, weakTables, b);
        TracedStays(h0, h, marks, weakTables, b, h', marks', weakTables');
      }
    }
  }

  /** Tracing one object keeps the invariant. */
  lemma TricolorStep(h0: Heap, seeds: set<Ref>, r: Ref,
                     h: Heap, marks: set<Ref>, work: set<Ref>, weakTables: seq<WeakTable>,
                     h': Heap, marks': set<Ref>, work': set<Ref>, weakTables': seq<WeakTable>)
    requires NoDangling(h0) && Tricolor(h0, h, seeds, marks, work, weakTables) && r in marks && Live(h0, r)
    requires h' == if r.Table? && r.id in h0.tables then h.(tables := h.tables[r.id := Retired(h0.tables[r.id])]) else h
    requires marks' == marks + Targets(Refs(h0, r))
    requires work' == (work - {r}) + (Targets(Refs(h0, r)) - marks)
    requires weakTables' == weakTables + if r.Table? && r.id in h0.tables then WeakEntry(h0, r.id) else []
    ensures Tricolor(h0, h', seeds, marks', work', weakTables')
  {
    assert TricolorFacts(h0, h, seeds, marks, work, weakTables);
    StepMarked(h0, seeds, marks, r);
    StepTraced(h0, seeds, r, h, marks, work, weakTables, h', marks', work', weakTables');
    forall i | 0 <= i < |weakTables'| ensures Listed(h0, marks', weakTables'[i]) {
      if i < |weakTables| { assert Listed(h0, marks, weakTables[i]); }
    }
  }

  lemma TricolorStepSame(h0: Heap, seeds: set<Ref>, r: Ref, h: Heap, marks: set<Ref>, work: set<Ref>, weakTables: seq<WeakTable>,
                         marks': set<Ref>, work': set<Ref>)
    requires NoDangling(h0) && Tricolor(h0, h, seeds, marks, work, weakTables) && r in marks && !r.Table?
    requires NoDangling(h) && Live(h, r)
    requires marks' == marks + Targets(Refs(h, r))
    requires work' == (work - {r}) + (Targets(Refs(h, r)) - marks)
    ensures Tricolor(h0, h, seeds, marks', work', weakTables)
  {
    assert TricolorFacts(h0, h, seeds, marks, work, weakTables);
    SameRefs(h0, h, r);
    assert weakTables + [] == weakTables;
    TricolorStep(h0, seeds, r, h, marks, work, weakTables, h, marks', work', weakTables);
  }

  /** More seeds may be marked at any time. */
  lemma TricolorSeeded(h0: Heap, h: Heap, seeds: set<Ref>, marks: set<Ref>, work: set<Ref>, weakTables: seq<WeakTable>, more: set<Ref>)
    requires NoDangling(h0) && Tricolor(h0, h, seeds, marks, work, weakTables)
    requires forall r :: r in more ==> Live(h0, r)
    ensures Tricolor(h0, h, seeds + more, marks + more, work + (more - marks), weakTables)
  {
    assert TricolorFacts(h0, h, seeds, marks, work, weakTables);
    forall b | b in marks + more ensures Reachable(h0, seeds + more, b) {
      if b in marks { ReachableGrows(h0, seeds, seeds + more, b); } else { SeedReachable(h0, seeds + more, b); }
    }
    forall b | b in marks + more && b !in work + (more - marks) ensures Traced(h0, h, marks + more, weakTables, b) {
      assert Traced(h0, h, marks, weakTables, b);
    }
    forall i | 0 <= i < |weakTables| ensures Listed(h0, marks + more, weakTables[i]) {
      assert Listed(h0, marks, weakTables[i]);
    }
  }

  /** With nothing left to trace the marks are exactly the reachable objects. */
  lemma TricolorDone(h0: Heap, h: Heap, seeds: set<Ref>, marks: set<Ref>, weakTables: seq<WeakTable>)
    requires NoDangling(h0) && Tricolor(h0, h, seeds, marks, {}, weakTables)
    ensures ClosedUnder(h0, marks)
    ensures forall r :: r in marks <==> Reachable(h0, seeds, r)
  {
    assert TricolorFacts(h0, h, seeds, marks, {}, weakTables);
    forall r | r in marks ensures Targets(Refs(h0, r)) <= marks {
      assert Traced(h0, h, marks, weakTables, r);
    }
    MarksAreReachable(h0, seeds, marks);
  }

  /** Flagging userdata does not disturb the invariant. */
  lemma TricolorFlagged(h0: Heap, h: Heap, seeds: set<Ref>, marks: set<Ref>, work: set<Ref>, weakTables: seq<WeakTable>, finalized: set<Id>)
    requires NoDangling(h0) && Tricolor(h0, h, seeds, marks, work, weakTables)
    ensures Tricolor(h0, h.(finalized := finalized), seeds, marks, work, weakTables)
  {
    assert TricolorFacts(h0, h, seeds, marks, work, weakTables);
    var h' := h.(finalized := finalized);
    forall r | r in marks && r !in work ensures Traced(h0, h', marks, weakTables, r) {
      assert Traced(h0, h, marks, weakTables, r);
    }
  }

  // ----- clearing weak tables -----

  /** The tables after those listed have been cleared in turn. */
  function ClearAll(tables: map<Id, TableRecord>, finalized: set<Id>, marks: set<Ref>, ws: seq<WeakTable>): (r: map<Id, TableRecord>)
    requires forall i :: 0 <= i < |ws| ==> ws[i].table in tables
    ensures r.Keys == tables.Keys
  {
    if ws == [] then tables
    else
      var w := ws[|ws| - 1];
      var before := ClearAll(tables, finalized, marks, ws[..|ws| - 1]);
      before[w.table := Cleared(finalized, marks, w.mode, before[w.table])]
  }

  function ClearedRecord(h: Heap, marks: set<Ref>, id: Id): TableRecord
    requires id in h.tables
  {
    Cleared(h.finalized, marks, Mode(h, h.tables[id]), h.tables[id])
  }

  lemma {:induction false} ClearAllIs(h: Heap, marks: set<Ref>, ws: seq<WeakTable>, id: Id)
    requires forall i :: 0 <= i < |ws| ==> ws[i].table in h.tables && ws[i].mode == Mode(h, h.tables[ws[i].table])
    requires id in h.tables
    ensures ClearAll(h.tables, h.finalized, marks, ws)[id] ==
      if WeakTable(id, Mode(h, h.tables[id])) in ws then ClearedRecord(h, marks, id) else h.tables[id]
  {
    if ws != [] {
      var n := |ws| - 1;
      ClearAllIs(h, marks, ws[..n], id);
      assert ws == ws[..n] + [ws[n]];
      ClearedTwice(h.finalized, marks, Mode(h, h.tables[id]), h.tables[id]);
    }
  }

  /** Clearing the listed tables clears exactly the weak ones among the marked. */
  lemma ClearAllWeak(h0: Heap, h: Heap, seeds: set<Ref>, marks: set<Ref>, ws: seq<WeakTable>)
    requires NoDangling(h0) && Tricolor(h0, h, seeds, marks, {}, ws)
    ensures forall i :: 0 <= i < |ws| ==> ws[i].table in h.tables
    ensures ClearAll(h.tables, h.finalized, marks, ws) == ClearedTables(h, marks)
  {
    assert TricolorFacts(h0, h, seeds, marks, {}, ws);
    forall i | 0 <= i < |ws| ensures ws[i].table in h.tables && ws[i].mode == Mode(h, h.tables[ws[i].table]) {
      assert Listed(h0, marks, ws[i]);
      SameMode(h0, h, ws[i].table);
    }
    forall id | id in h.tables ensures ClearAll(h.tables, h.finalized, marks, ws)[id] == ClearedTables(h, marks)[id] {
      ClearAllIs(h, marks, ws, id);
      SameMode(h0, h, id);
      var w := WeakTable(id, Mode(h, h.tables[id]));
      assert WeakEntry(h0, id) == if IsWeak(w.mode) then [w] else [];
      if w in ws {
        var i :| 0 <= i < |ws| && ws[i] == w;
        assert Listed(h0, marks, ws[i]);
      } else if Table(id) in marks {
        assert Traced(h0, h, marks, ws, Table(id));
      }
    }
  }

  // ----- sweeping a ledger -----

  datatype Kind = Tables | Functions | Threads | UserDatas

  function Make(k: Kind, id: Id): Ref {
    match k
    case Tables => Table(id)
    case Functions => Function(id)
    case Threads => Thread(id)
    case UserDatas => UserData(id)
  }

  function KindOf(r: Ref): Kind {
    match r
    case Table(_) => Tables
    case Function(_) => Functions
    case Thread(_) => Threads
    case UserData(_) => UserDatas
  }

  /** Marks once the ledger entries `done` have been swept. */
  function Unmarked(k: Kind, done: seq<Id>, marks: set<Ref>): set<Ref> {
    set r | r in marks && !(KindOf(r) == k && r.id in done)
  }

  function DeadIn(k: Kind, done: seq<Id>, marks: set<Ref>): set<Id> {
    set id | id in done && Make(k, id) !in marks
  }

  function AliveIn(k: Kind, ids: seq<Id>, marks: set<Ref>): set<Id> {
    set id | id in ids && Make(k, id) in marks
  }

  lemma SweepStart(k: Kind, ids: seq<Id>, marks: set<Ref>)
    ensures Unmarked(k, ids[..0], marks) == marks && DeadIn(k, ids[..0], marks) == {}
  {
  }

  lemma SweepStep(k: Kind, ids: seq<Id>, i: nat, marks: set<Ref>)
    requires i < |ids| && Distinct(ids)
    ensures var r := Make(k, ids[i]);
            (r in Unmarked(k, ids[..i], marks) <==> r in marks) &&
            Unmarked(k, ids[..i + 1], marks) == Unmarked(k, ids[..i], marks) - {r} &&
            DeadIn(k, ids[..i + 1], marks) ==
              (if r in marks then DeadIn(k, ids[..i], marks) else DeadIn(k, ids[..i], marks) + {ids[i]}) &&
            Remaining(ids[..i + 1], AliveIn(k, ids, marks)) ==
              (if r in marks then Remaining(ids[..i], AliveIn(k, ids, marks)) + [ids[i]]
               else Remaining(ids[..i], AliveIn(k, ids, marks)))
  {
    assert ids[..i + 1] == ids[..i] + [ids[i]];
    assert ids[..i + 1][..i] == ids[..i];
  }

  lemma RemovedTwice<T>(objects: map<Id, T>, a: set<Id>, b: set<Id>)
    ensures (objects - a) - b == objects - (a + b)
    ensures objects - {} == objects
  {
  }

  function WithoutUserData(h: Heap, dead: set<Id>): Heap {
    h.(userData := h.userData - dead, finalized := h.finalized - dead)
  }

  /** What is left of a ledger's objects are the marked ones. */
  lemma MarkedLeft<T>(k: Kind, objects: map<Id, T>, ids: seq<Id>, marks: set<Ref>)
    requires Members(ids) == objects.Keys
    ensures objects - DeadIn(k, ids, marks) == map id | id in objects && Make(k, id) in marks :: objects[id]
    ensures (objects - DeadIn(k, ids, marks)).Keys == AliveIn(k, ids, marks)
  {
  }

  // ----- closing the cells of dead threads -----

  /** The cells open on a thread are on its list and within its stack. */
  ghost predicate CellsListed(h: Heap) {
    forall c, id :: OpenOn(h, c, id) && id in h.threads ==> c in h.threads[id].openUpvalues && Readable(h, c)
  }

  /** A thread's list holds cells that are open on it. */
  ghost predicate ListsOpen(h: Heap, id: Id)
    requires id in h.threads
  {
    var list := h.threads[id].openUpvalues;
    forall i :: 0 <= i < |list| ==> OpenOn(h, list[i], id) && Readable(h, list[i])
  }

  function ClosedCell(h: Heap, c: Id): Cell
    requires c in h.cells
  {
    if Readable(h, c) then Closed(Read(h, c)) else h.cells[c]
  }

  /** The cells once those listed have been closed. */
  function CloseListed(h: Heap, list: seq<Id>): map<Id, Cell> {
    map c | c in h.cells :: if c in list then ClosedCell(h, c) else h.cells[c]
  }

  lemma CloseListedStep(h: Heap, list: seq<Id>, i: nat)
    requires i < |list| && Readable(h, list[i]) && h.cells[list[i]].Open?
    ensures var h' := h.(cells := CloseListed(h, list[..i]));
            Readable(h', list[i]) && Read(h', list[i]) == Read(h, list[i]) &&
            CloseListed(h, list[..i + 1]) == h'.cells[list[i] := Closed(Read(h', list[i]))]
  {
    assert list[..i + 1] == list[..i] + [list[i]];
  }

  lemma CloseListedAll(h: Heap, id: Id)
    requires id in h.threads && CellsListed(h) && ListsOpen(h, id)
    ensures CloseListed(h, h.threads[id].openUpvalues) == CloseCells(h, {id})
  {
    forall c | c in h.cells ensures c in h.threads[id].openUpvalues <==> OpenOn(h, c, id) {
    }
  }

  /** The graph once the threads `dead` have been released. */
  function Released(h: Heap, dead: set<Id>): Heap {
    h.(threads := h.threads - dead, cells := CloseCells(h, dead))
  }

  lemma ReleasedNone(h: Heap)
    ensures Released(h, {}) == h
  {
    RemovedTwice(h.threads, {}, {});
  }

  lemma ReleasedStep(h: Heap, dead: set<Id>, id: Id)
    requires id in h.threads && id !in dead && CellsListed(h) && ListsOpen(h, id)
    ensures Released(Released(h, dead), {id}) == Released(h, dead + {id})
    ensures CellsListed(Released(h, dead)) && ListsOpen(Released(h, dead), id)
  {
    RemovedTwice(h.threads, dead, {id});
    var h' := Released(h, dead);
    forall c, t | OpenOn(h', c, t) && t in h'.threads ensures c in h'.threads[t].openUpvalues && Readable(h', c) {
      assert OpenOn(h, c, t);
    }
    forall c | c in h.cells ensures CloseCells(h', {id})[c] == CloseCells(h, dead + {id})[c] {
    }
  }

  /** Both directions: the open lists are exactly the cells open on the threads. */
  ghost predicate OpenListsValid(h: Heap) {
    CellsListed(h) && forall id :: id in h.threads ==> ListsOpen(h, id)
  }

  // ----- the graph while a ledger is swept -----

  /** The graph without one dead object, whose cells are closed if it is a thread. */
  function Drop(k: Kind, h: Heap, id: Id): Heap {
    match k
    case Tables => h.(tables := h.tables - {id})
    case Functions => h.(functions := h.functions - {id})
    case Threads => Released(h, {id})
    case UserDatas => WithoutUserData(h, {id})
  }

  function DropAll(k: Kind, h: Heap, dead: set<Id>): Heap {
    match k
    case Tables => h.(tables := h.tables - dead)
    case Functions => h.(functions := h.functions - dead)
    case Threads => Released(h, dead)
    case UserDatas => WithoutUserData(h, dead)
  }

  datatype Sweep = Sweep(heap: Heap, marks: set<Ref>, live: seq<Id>)

  /** Graph, marks and surviving ledger entries once the first `n` entries have been swept. */
  function Swept(k: Kind, h: Heap, marks: set<Ref>, ids: seq<Id>, n: nat): Sweep
    requires n <= |ids|
  {
    if n == 0 then Sweep(h, marks, [])
    else
      var before, id := Swept(k, h, marks, ids, n - 1), ids[n - 1];
      if Make(k, id) in before.marks then Sweep(before.heap, before.marks - {Make(k, id)}, before.live + [id])
      else Sweep(Drop(k, before.heap, id), before.marks, before.live)
  }

  ghost predicate Sweepable(k: Kind, h: Heap, ids: seq<Id>) {
    Distinct(ids) && (k == Threads ==> OpenListsValid(h) && Members(ids) == h.threads.Keys)
  }

  lemma DropStep(k: Kind, h: Heap, dead: set<Id>, id: Id)
    requires k == Threads ==> id in h.threads && id !in dead && CellsListed(h) && ListsOpen(h, id)
    ensures Drop(k, DropAll(k, h, dead), id) == DropAll(k, h, dead + {id})
    ensures DropAll(k, h, {}) == h
  {
    match k {
      case Tables => RemovedTwice(h.tables, dead, {id});
      case Functions => RemovedTwice(h.functions, dead, {id});
      case Threads => ReleasedStep(h, dead, id); ReleasedNone(h);
      case UserDatas => RemovedTwice(h.userData, dead, {id});
    }
  }

  lemma DropNone(k: Kind, h: Heap)
    ensures DropAll(k, h, {}) == h
  {
    match k {
      case Tables => RemovedTwice(h.tables, {}, {});
      case Functions => RemovedTwice(h.functions, {}, {});
      case Threads => ReleasedNone(h);
      case UserDatas => RemovedTwice(h.userData, {}, {});
    }
  }

  lemma {:induction false} SweptIs(k: Kind, h: Heap, marks: set<Ref>, ids: seq<Id>, n: nat)
    requires n <= |ids| && Sweepable(k, h, ids)
    ensures var now := Swept(k, h, marks, ids, n);
            now.heap == DropAll(k, h, DeadIn(k, ids[..n], marks)) && now.marks == Unmarked(k, ids[..n], marks) &&
            now.live == Remaining(ids[..n], AliveIn(k, ids, marks))
  {
    if n == 0 {
      DropNone(k, h);
      SweepStart(k, ids, marks);
    } else {
      SweptIs(k, h, marks, ids, n - 1);
      SweepStep(k, ids, n - 1, marks);
      if Make(k, ids[n - 1]) !in marks {
        assert ids[n - 1] in Members(ids) && ids[n - 1] !in ids[..n - 1];
        DropStep(k, h, DeadIn(k, ids[..n - 1], marks), ids[n - 1]);
      }
    }
  }

  /** A thread about to be swept still has its cells. */
  lemma SweptThreadReady(h: Heap, marks: set<Ref>, ids: seq<Id>, n: nat)
    requires n < |ids| && Sweepable(Threads, h, ids)
    ensures var now, id := Swept(Threads, h, marks, ids, n).heap, ids[n];
            id in now.threads && CellsListed(now) && ListsOpen(now, id)
  {
    SweptIs(Threads, h, marks, ids, n);
    assert ids[n] in Members(ids) && ids[n] !in ids[..n];
    ReleasedStep(h, DeadIn(Threads, ids[..n], marks), ids[n]);
  }

  lemma SweptAll(k: Kind, h: Heap, marks: set<Ref>, ids: seq<Id>)
    requires Sweepable(k, h, ids)
    ensures var now := Swept(k, h, marks, ids, |ids|);
            now == Sweep(DropAll(k, h, DeadIn(k, ids, marks)), Unmarked(k, ids, marks), Remaining(ids, AliveIn(k, ids, marks)))
  {
    SweptIs(k, h, marks, ids, |ids|);
    assert ids[..|ids|] == ids;
  }
}
