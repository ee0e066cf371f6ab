/** What one collection leaves, as a function of the graph it starts from, and what that means for the
    program: what stays, what is finalized, what weak tables lose, and that nothing dangles. */
module CollectorResult {
  import opened CollectorHeap
  import opened CollectorFacts
  import opened CollectorSpec

  function Slots(ids: seq<Id>): (r: seq<Value>)
    ensures |r| == |ids| && forall i :: 0 <= i < |r| ==> r[i] == Object(UserData(ids[i]))
  {
    if ids == [] then [] else Slots(ids[..|ids| - 1]) + [Object(UserData(ids[|ids| - 1]))]
  }

  function RetireAll(h: Heap): Heap {
    h.(tables := map id | id in h.tables :: Retired(h.tables[id]))
  }

  /** The objects that can be reached from the seeds. */
  ghost function Reached(h: Heap, seeds: set<Ref>): set<Ref>
    requires NoDangling(h)
  {
    set r | r in AllRefs(h) && Reachable(h, seeds, r)
  }

  /** The finalizer queue afterwards: unreachable userdata with a __gc field, newest first, go to the end. */
  ghost function Queue(h: Heap, roots: seq<Value>, queue: seq<Id>, order: seq<Id>): seq<Id>
    requires NoDangling(h)
  {
    queue + ToFinalize(h, order, Reached(h, Targets(roots)), false)
  }

  ghost function Seeds(h: Heap, roots: seq<Value>, queue: seq<Id>, order: seq<Id>): set<Ref>
    requires NoDangling(h)
  {
    Targets(roots) + Targets(Slots(Queue(h, roots, queue, order)))
  }

  /** The objects that stay: those reachable from the roots or from userdata waiting to be finalized. */
  ghost function Staying(h: Heap, roots: seq<Value>, queue: seq<Id>, order: seq<Id>): set<Ref>
    requires NoDangling(h)
  {
    Reached(h, Seeds(h, roots, queue, order))
  }

  ghost function Collected(h: Heap, roots: seq<Value>, queue: seq<Id>, order: seq<Id>): Heap
    requires NoDangling(h)
  {
    Survivors(Flagged(RetireAll(h), Reached(h, Targets(roots)), false), Staying(h, roots, queue, order))
  }

  // ----- the steps add up to it -----

  lemma MarksAreReached(h: Heap, seeds: set<Ref>, marks: set<Ref>)
    requires NoDangling(h) && forall r :: r in marks ==> Live(h, r)
    requires forall r :: r in marks <==> Reachable(h, seeds, r)
    ensures marks == Reached(h, seeds)
  {
    forall r | r in marks ensures r in AllRefs(h) {
      assert Live(h, r);
    }
  }

  lemma {:induction false} ToFinalizeSame(h0: Heap, h: Heap, ids: seq<Id>, marks: set<Ref>, all: bool)
    requires SameGraph(h0, h) && h.finalized == h0.finalized
    ensures ToFinalize(h, ids, marks, all) == ToFinalize(h0, ids, marks, all)
  {
    if ids != [] {
      var n := |ids| - 1;
      ToFinalizeSame(h0, h, ids[..n], marks, all);
      if ids[n] in h.userData { SameEvents(h0, h, h.userData[ids[n]].metatable, "__gc"); }
    }
  }

  lemma {:induction false} ToFinalizeConsidered(h: Heap, ids: seq<Id>, marks: set<Ref>, all: bool)
    ensures forall i :: 0 <= i < |ToFinalize(h, ids, marks, all)| ==> Considered(h, marks, all, ToFinalize(h, ids, marks, all)[i])
  {
    if ids != [] {
      ToFinalizeConsidered(h, ids[..|ids| - 1], marks, all);
    }
  }

  lemma SurvivorsSame(h: Heap, h': Heap, marks: set<Ref>)
    requires h' == h.(tables := h'.tables) && h'.tables.Keys == h.tables.Keys
    requires forall id :: id in h.tables ==> Mode(h', h'.tables[id]) == Mode(h, h.tables[id])
    requires forall id :: id in h.tables && Table(id) in marks ==> h'.tables[id] == h.tables[id]
    ensures Survivors(h', marks) == Survivors(h, marks)
  {
    var s, s' := Survivors(h, marks), Survivors(h', marks);
    assert forall c :: c in h.cells ==> Readable(h', c) == Readable(h, c);
    assert s.cells == s'.cells;
    assert s.tables == s'.tables;
  }

  /** The graph when sweeping begins differs from the fully retired one only in tables that will go. */
  lemma MarkedGraph(h0: Heap, h: Heap, first: set<Ref>, seeds: set<Ref>, marks: set<Ref>, weakTables: seq<WeakTable>)
    requires NoDangling(h0) && Tricolor(h0, h, seeds, marks, {}, weakTables)
    requires h.finalized == Flagged(h0, first, false).finalized
    ensures Survivors(h, marks) == Survivors(Flagged(RetireAll(h0), first, false), marks)
    ensures KeysRetired(h, marks)
  {
    assert TricolorFacts(h0, h, seeds, marks, {}, weakTables);
    var h' := Flagged(RetireAll(h0), first, false);
    assert SameGraph(h0, h');
    forall id | id in h.tables ensures Mode(h', h'.tables[id]) == Mode(h, h.tables[id]) {
      SameMode(h0, h, id);
      SameMode(h0, h', id);
    }
    forall id | id in h.tables && Table(id) in marks
      ensures h'.tables[id] == h.tables[id] && Retired(h.tables[id]) == h.tables[id]
    {
      assert Traced(h0, h, marks, weakTables, Table(id));
      SameTableRefs(h0, h, id);
    }
    assert h'.finalized == h.finalized;
    SurvivorsSame(h, h', marks);
  }

  ghost predicate LedgersMatch(h: Heap, tables: seq<Id>, functions: seq<Id>, threads: seq<Id>, userData: seq<Id>) {
    forall u {:trigger LedgersMatchFacts(h, tables, functions, threads, u)} :: u == userData ==>
      LedgersMatchFacts(h, tables, functions, threads, u)
  }

  ghost predicate LedgersMatchFacts(h: Heap, tables: seq<Id>, functions: seq<Id>, threads: seq<Id>, userData: seq<Id>) {
    Distinct(tables) && Distinct(functions) && Distinct(threads) && Distinct(userData) &&
    Members(tables) == h.tables.Keys && Members(functions) == h.functions.Keys &&
    Members(threads) == h.threads.Keys && Members(userData) == h.userData.Keys && h.finalized <= h.userData.Keys
  }

  lemma OtherKind(k: Kind, ids: seq<Id>, other: Kind, done: seq<Id>, marks: set<Ref>)
    requires k != other
    ensures DeadIn(k, ids, Unmarked(other, done, marks)) == DeadIn(k, ids, marks)
    ensures AliveIn(k, ids, Unmarked(other, done, marks)) == AliveIn(k, ids, marks)
  {
  }

  /** Sweeping one ledger does not change what another one loses. */
  lemma KindsApart(m: set<Ref>, tables: seq<Id>, functions: seq<Id>, threads: seq<Id>, userData: seq<Id>)
    ensures var m1 := Unmarked(Threads, threads, m);
            var m2 := Unmarked(Functions, functions, m1);
            var m3 := Unmarked(Tables, tables, m2);
            DeadIn(Functions, functions, m1) == DeadIn(Functions, functions, m) &&
            AliveIn(Functions, functions, m1) == AliveIn(Functions, functions, m) &&
            DeadIn(Tables, tables, m2) == DeadIn(Tables, tables, m) &&
            AliveIn(Tables, tables, m2) == AliveIn(Tables, tables, m) &&
            DeadIn(UserDatas, userData, m3) == DeadIn(UserDatas, userData, m) &&
            AliveIn(UserDatas, userData, m3) == AliveIn(UserDatas, userData, m)
  {
    var m1 := Unmarked(Threads, threads, m);
    var m2 := Unmarked(Functions, functions, m1);
    OtherKind(Functions, functions, Threads, threads, m);
    OtherKind(Tables, tables, Threads, threads, m);
    OtherKind(Tables, tables, Functions, functions, m1);
    OtherKind(UserDatas, userData, Threads, threads, m);
    OtherKind(UserDatas, userData, Functions, functions, m1);
    OtherKind(UserDatas, userData, Tables, tables, m2);
  }

  lemma SweepableCleared(h: Heap, marks: set<Ref>, threads: seq<Id>)
    requires Sweepable(Threads, h, threads)
    ensures Sweepable(Threads, h.(tables := ClearedTables(h, marks)), threads)
  {
    var hc := h.(tables := ClearedTables(h, marks));
    assert forall c :: Readable(hc, c) == Readable(h, c);
    forall c, id | OpenOn(hc, c, id) && id in hc.threads ensures c in hc.threads[id].openUpvalues && Readable(hc, c) {
      assert OpenOn(h, c, id);
    }
    forall id | id in hc.threads ensures ListsOpen(hc, id) {
      assert ListsOpen(h, id);
    }
  }

  lemma SweepableGraph(h: Heap, threads: seq<Id>)
    requires NoDangling(h) && Distinct(threads) && Members(threads) == h.threads.Keys
    ensures Sweepable(Threads, h, threads)
  {
    assert NoDanglingFacts(h);
    forall id | id in h.threads ensures ListsOpen(h, id) {
      assert ValidThread(h, id, h.threads[id]);
    }
    forall c, id | OpenOn(h, c, id) && id in h.threads ensures c in h.threads[id].openUpvalues && Readable(h, c) {
      assert ValidThread(h, id, h.threads[id]);
    }
  }

  lemma CellsClosed(h: Heap, marks: set<Ref>, threads: seq<Id>)
    requires Members(threads) == h.threads.Keys
    ensures CloseCells(h.(tables := ClearedTables(h, marks)), DeadIn(Threads, threads, marks)) == CloseCells(h, DeadThreads(h, marks))
  {
    var hc := h.(tables := ClearedTables(h, marks));
    assert forall id :: id in h.threads <==> id in Members(threads);
    assert DeadIn(Threads, threads, marks) == DeadThreads(h, marks);
    assert forall c :: c in h.cells ==> Readable(hc, c) == Readable(h, c);
  }

  lemma FlagsLeft(h: Heap, marks: set<Ref>, userData: seq<Id>)
    requires Members(userData) == h.userData.Keys && h.finalized <= h.userData.Keys
    ensures h.finalized - DeadIn(UserDatas, userData, marks) == set id | id in h.finalized && UserData(id) in marks
  {
    assert forall id :: id in h.userData <==> id in Members(userData);
  }

  lemma AllSwept(h: Heap, marks: set<Ref>, tables: seq<Id>, functions: seq<Id>, threads: seq<Id>, userData: seq<Id>)
    requires LedgersMatch(h, tables, functions, threads, userData)
    ensures var h1 := DropAll(Threads, h.(tables := ClearedTables(h, marks)), DeadIn(Threads, threads, marks));
            var h2 := DropAll(Functions, h1, DeadIn(Functions, functions, marks));
            var h3 := DropAll(Tables, h2, DeadIn(Tables, tables, marks));
            DropAll(UserDatas, h3, DeadIn(UserDatas, userData, marks)) == Survivors(h, marks)
  {
    assert LedgersMatchFacts(h, tables, functions, threads, userData);
    var cleared := ClearedTables(h, marks);
    CellsClosed(h, marks, threads);
    FlagsLeft(h, marks, userData);
    MarkedLeft(Threads, h.threads, threads, marks);
    MarkedLeft(Functions, h.functions, functions, marks);
    MarkedLeft(Tables, cleared, tables, marks);
    MarkedLeft(UserDatas, h.userData, userData, marks);
  }

  lemma AllUnmarked(h: Heap, marks: set<Ref>, tables: seq<Id>, functions: seq<Id>, threads: seq<Id>, userData: seq<Id>)
    requires LedgersMatch(h, tables, functions, threads, userData) && forall r :: r in marks ==> Live(h, r)
    ensures Unmarked(UserDatas, userData, Unmarked(Tables, tables, Unmarked(Functions, functions, Unmarked(Threads, threads, marks)))) == {}
  {
    assert LedgersMatchFacts(h, tables, functions, threads, userData);
    forall r | r in marks ensures r.id in Members(match r case Table(_) => tables case Function(_) => functions case Thread(_) => threads case UserData(_) => userData) {
      assert Live(h, r);
    }
  }

  /** A ledger keeps the entries of the objects that stay, in their old order. */
  function Ledger(k: Kind, ids: seq<Id>, marks: set<Ref>): seq<Id> {
    Remaining(ids, AliveIn(k, ids, marks))
  }

  datatype Ledgers = Ledgers(tables: seq<Id>, functions: seq<Id>, threads: seq<Id>, userData: seq<Id>)

  function KeptLedgers(all: Ledgers, marks: set<Ref>): Ledgers {
    Ledgers(Ledger(Tables, all.tables, marks), Ledger(Functions, all.functions, marks),
            Ledger(Threads, all.threads, marks), Ledger(UserDatas, all.userData, marks))
  }

  lemma LedgerMembers<T>(k: Kind, ids: seq<Id>, marks: set<Ref>, objects: map<Id, T>, left: map<Id, T>)
    requires Distinct(ids) && Members(ids) == objects.Keys
    requires left.Keys == set id | id in objects && Make(k, id) in marks
    ensures Distinct(Ledger(k, ids, marks)) && Members(Ledger(k, ids, marks)) == left.Keys
  {
    assert forall id :: id in ids <==> id in Members(ids);
    assert forall id :: id in Ledger(k, ids, marks) <==> id in left;
  }

  lemma LedgersAfter(h: Heap, marks: set<Ref>, tables: seq<Id>, functions: seq<Id>, threads: seq<Id>, userData: seq<Id>)
    requires LedgersMatch(h, tables, functions, threads, userData)
    ensures LedgersMatch(Survivors(h, marks), Ledger(Tables, tables, marks), Ledger(Functions, functions, marks),
                         Ledger(Threads, threads, marks), Ledger(UserDatas, userData, marks))
  {
    assert LedgersMatchFacts(h, tables, functions, threads, userData);
    var h' := Survivors(h, marks);
    LedgerMembers(Tables, tables, marks, h.tables, h'.tables);
    LedgerMembers(Functions, functions, marks, h.functions, h'.functions);
    LedgerMembers(Threads, threads, marks, h.threads, h'.threads);
    LedgerMembers(UserDatas, userData, marks, h.userData, h'.userData);
  }

  lemma SameLedgers(h0: Heap, h: Heap, tables: seq<Id>, functions: seq<Id>, threads: seq<Id>, userData: seq<Id>)
    requires LedgersMatch(h0, tables, functions, threads, userData) && SameGraph(h0, h) && h.finalized <= h.userData.Keys
    ensures LedgersMatch(h, tables, functions, threads, userData)
  {
    assert LedgersMatchFacts(h0, tables, functions, threads, userData);
  }

  /** Marking begins: the roots are marked and waiting. */
  lemma RootsMarked(h: Heap, roots: seq<Value>)
    requires NoDangling(h) && AllValid(h, roots)
    ensures Tricolor(h, h, Targets(roots), Targets(roots), Targets(roots), [])
  {
    TargetsLive(h, roots);
    assert Tricolor(h, h, {}, {}, {}, []);
    TricolorSeeded(h, h, {}, {}, {}, [], Targets(roots));
    assert {} + Targets(roots) == Targets(roots) && {} + (Targets(roots) - {}) == Targets(roots);
  }

  lemma MarkingDone(h0: Heap, h: Heap, seeds: set<Ref>, marks: set<Ref>, weakTables: seq<WeakTable>)
    requires NoDangling(h0) && Tricolor(h0, h, seeds, marks, {}, weakTables)
    ensures marks == Reached(h0, seeds)
  {
    assert TricolorFacts(h0, h, seeds, marks, {}, weakTables);
    TricolorDone(h0, h, seeds, marks, weakTables);
    MarksAreReached(h0, seeds, marks);
  }

  /** What is queued is decided by the graph the collection started from. */
  /** What marking from the roots, and then looking for userdata to finalize, may rely on. */
  lemma RootsValid(h: Heap, roots: seq<Value>, queue: seq<Id>, tables: seq<Id>, functions: seq<Id>, threads: seq<Id>, userData: seq<Id>)
    requires SeedsLive(h, roots, queue) && LedgersMatch(h, tables, functions, threads, userData)
    ensures AllValid(h, roots) && Distinct(userData) && Members(userData) == h.userData.Keys
  {
    assert SeedsLiveFacts(h, roots, queue) && LedgersMatchFacts(h, tables, functions, threads, userData);
  }

  lemma QueuedAs(h0: Heap, h: Heap, roots: seq<Value>, queue: seq<Id>, order: seq<Id>, marks: set<Ref>)
    requires NoDangling(h0) && SeedsLive(h0, roots, queue) && SameGraph(h0, h) && h.finalized == h0.finalized
    requires marks == Reached(h0, Targets(roots))
    ensures queue + ToFinalize(h, order, marks, false) == Queue(h0, roots, queue, order)
    ensures AllValid(h0, Slots(Queue(h0, roots, queue, order)))
    ensures Flagged(h, marks, false).finalized == Flagged(h0, marks, false).finalized
  {
    assert SeedsLiveFacts(h0, roots, queue);
    ToFinalizeSame(h0, h, order, marks, false);
    QueueLive(h0, roots, queue, order);
  }

  lemma PendingMarkable(h0: Heap, h: Heap, seeds: set<Ref>, marks: set<Ref>, weakTables: seq<WeakTable>, pending: seq<Id>, finalized: set<Id>)
    requires NoDangling(h0) && Tricolor(h0, h, seeds, marks, {}, weakTables) && AllValid(h0, Slots(pending))
    ensures var h', more := h.(finalized := finalized), Targets(Slots(pending));
            AllValid(h', Slots(pending)) && Tricolor(h0, h', seeds + more, marks + more, {} + (more - marks), weakTables)
  {
    assert TricolorFacts(h0, h, seeds, marks, {}, weakTables);
    var h', more := h.(finalized := finalized), Targets(Slots(pending));
    TricolorFlagged(h0, h, seeds, marks, {}, weakTables, finalized);
    TargetsLive(h0, Slots(pending));
    TricolorSeeded(h0, h', seeds, marks, {}, weakTables, more);
  }

  // ----- what it means -----

  lemma ReachedMembers(h: Heap, seeds: set<Ref>)
    requires NoDangling(h)
    ensures forall r :: r in Reached(h, seeds) <==> Live(h, r) && Reachable(h, seeds, r)
  {
    forall r | Live(h, r) ensures r in AllRefs(h) {
    }
  }

  lemma ReachedClosed(h: Heap, seeds: set<Ref>)
    requires NoDangling(h) && forall r :: r in seeds ==> Live(h, r)
    ensures ClosedUnder(h, Reached(h, seeds)) && seeds <= Reached(h, seeds)
    ensures forall r :: r in Reached(h, seeds) <==> Live(h, r) && Reachable(h, seeds, r)
  {
    ReachedMembers(h, seeds);
    forall r | r in seeds ensures Reachable(h, seeds, r) {
      SeedReachable(h, seeds, r);
    }
    forall a, b | a in Reached(h, seeds) && b in Targets(Refs(h, a)) ensures b in Reached(h, seeds) {
      RefsLive(h, a);
      assert Points(h, a, b);
      StepReachable(h, seeds, a, b);
    }
  }

  /** The roots and the queue hold registered objects. */
  ghost predicate SeedsLive(h: Heap, roots: seq<Value>, queue: seq<Id>) {
    forall q {:trigger SeedsLiveFacts(h, roots, q)} :: q == queue ==> SeedsLiveFacts(h, roots, q)
  }

  ghost predicate SeedsLiveFacts(h: Heap, roots: seq<Value>, queue: seq<Id>) {
    AllValid(h, roots) && forall i :: 0 <= i < |queue| ==> queue[i] in h.userData && queue[i] in h.finalized
  }

  lemma QueueLive(h: Heap, roots: seq<Value>, queue: seq<Id>, order: seq<Id>)
    requires NoDangling(h) && SeedsLive(h, roots, queue)
    ensures AllValid(h, Slots(Queue(h, roots, queue, order)))
    ensures forall r :: r in Seeds(h, roots, queue, order) ==> Live(h, r)
  {
    assert SeedsLiveFacts(h, roots, queue);
    ToFinalizeConsidered(h, order, Reached(h, Targets(roots)), false);
    TargetsLive(h, roots);
    TargetsLive(h, Slots(Queue(h, roots, queue, order)));
  }

  lemma RetiredGraph(h: Heap, first: set<Ref>, marks: set<Ref>)
    requires NoDangling(h) && ClosedUnder(h, marks)
    ensures var h' := Flagged(RetireAll(h), first, false);
            SameGraph(h, h') && NoDangling(h') && ClosedUnder(h', marks) && KeysRetired(h', marks)
  {
    var h' := Flagged(RetireAll(h), first, false);
    SameValid(h, h');
    forall r | r in marks ensures Live(h', r) && Targets(Refs(h', r)) <= marks {
      SameRefs(h, h', r);
    }
    forall id | id in h'.tables ensures Retired(h'.tables[id]) == h'.tables[id] {
      SameTableRefs(h, h', id);
    }
  }

  /** The graph a collection sweeps. */
  ghost predicate SweptFrom(h: Heap, hr: Heap, marks: set<Ref>) {
    NoDangling(h) && NoDangling(hr) && SameGraph(h, hr) && ClosedUnder(hr, marks) && KeysRetired(hr, marks) &&
    hr.tables == RetireAll(h).tables
  }

  lemma CollectionBasis(h: Heap, roots: seq<Value>, queue: seq<Id>, order: seq<Id>)
    requires NoDangling(h) && SeedsLive(h, roots, queue)
    ensures var hr := Flagged(RetireAll(h), Reached(h, Targets(roots)), false);
            SweptFrom(h, hr, Staying(h, roots, queue, order))
    ensures forall r :: r in Staying(h, roots, queue, order) <==> Live(h, r) && Reachable(h, Seeds(h, roots, queue, order), r)
  {
    assert SeedsLiveFacts(h, roots, queue);
    QueueLive(h, roots, queue, order);
    ReachedClosed(h, Seeds(h, roots, queue, order));
    RetiredGraph(h, Reached(h, Targets(roots)), Staying(h, roots, queue, order));
  }

  lemma SurvivorsLive(h: Heap, marks: set<Ref>, r: Ref)
    ensures Live(Survivors(h, marks), r) <==> Live(h, r) && r in marks
  {
  }

  /** A collection keeps exactly what the roots or pending finalizers reach through non-weak references,
      and nothing that it keeps refers to anything that it does not. */
  lemma CollectionKeepsReachable(h: Heap, roots: seq<Value>, queue: seq<Id>, order: seq<Id>)
    requires NoDangling(h) && SeedsLive(h, roots, queue)
    ensures NoDangling(Collected(h, roots, queue, order))
    ensures forall r :: Live(Collected(h, roots, queue, order), r) <==> Live(h, r) && Reachable(h, Seeds(h, roots, queue, order), r)
  {
    assert SeedsLiveFacts(h, roots, queue);
    var hr, marks := Flagged(RetireAll(h), Reached(h, Targets(roots)), false), Staying(h, roots, queue, order);
    CollectionBasis(h, roots, queue, order);
    NothingDangles(hr, marks);
    forall r ensures Live(Survivors(hr, marks), r) <==> Live(h, r) && r in marks {
      SurvivorsLive(hr, marks, r);
    }
  }

  /** Through the upvalues of a closure that stays the same values are read as before. */
  predicate SameUpvalues(h: Heap, h': Heap, id: Id) {
    id in h.functions && id in h'.functions && h'.functions[id] == h.functions[id] &&
    match h.functions[id]
    case Native(_, _) => true
    case Lua(_, upvalues) =>
      forall i :: 0 <= i < |upvalues| ==>
        Readable(h, upvalues[i]) && Readable(h', upvalues[i]) && Read(h', upvalues[i]) == Read(h, upvalues[i])
  }

  lemma UpvaluesSurvive(h: Heap, hr: Heap, marks: set<Ref>, id: Id)
    requires SweptFrom(h, hr, marks) && id in h.functions && Function(id) in marks
    ensures SameUpvalues(h, Survivors(hr, marks), id)
  {
    assert NoDanglingFacts(h) && NoDanglingFacts(hr);
    FunctionSurvives(hr, marks, id);
    var f := h.functions[id];
    assert ValidFunction(h, f);
    if f.Lua? {
      forall i | 0 <= i < |f.upvalues|
        ensures Readable(Survivors(hr, marks), f.upvalues[i]) && Read(Survivors(hr, marks), f.upvalues[i]) == Read(h, f.upvalues[i])
      {
        assert Reads(Survivors(hr, marks), f.upvalues)[i] == Reads(hr, f.upvalues)[i];
      }
    }
  }

  /** Closing the cells of dead threads changes nothing that a closure can see. */
  lemma CollectionKeepsUpvalues(h: Heap, roots: seq<Value>, queue: seq<Id>, order: seq<Id>, id: Id)
    requires NoDangling(h) && SeedsLive(h, roots, queue) && id in h.functions && Function(id) in Staying(h, roots, queue, order)
    ensures SameUpvalues(h, Collected(h, roots, queue, order), id)
  {
    assert SeedsLiveFacts(h, roots, queue);
    CollectionBasis(h, roots, queue, order);
    UpvaluesSurvive(h, Flagged(RetireAll(h), Reached(h, Targets(roots)), false), Staying(h, roots, queue, order), id);
  }

  /** A slot of a weak table survives unless it holds an object that goes, or as a value one whose
      finalizer has been considered. */
  predicate SlotStays(h': Heap, v: Value, key: bool) {
    v.Object? ==> Live(h', v.ref) && (key || !v.ref.UserData? || v.ref.id !in h'.finalized)
  }

  /** Strong tables keep every live entry; weak ones exactly those of which both sides stay. */
  predicate EntriesSurvive(h: Heap, h': Heap, id: Id) {
    id in h.tables && id in h'.tables && |h'.tables[id].entries| == |h.tables[id].entries| &&
    forall i :: 0 <= i < |h.tables[id].entries| && h.tables[id].entries[i].value != Nil ==>
      var e := h.tables[id].entries[i];
      h'.tables[id].entries[i] ==
        if IsWeak(Mode(h, h.tables[id])) && !(SlotStays(h', e.key, true) && SlotStays(h', e.value, false))
        then RetireEntry(Entry(e.key, Nil)) else e
  }

  lemma SlotSurvives(h: Heap, marks: set<Ref>, v: Value, key: bool)
    requires Valid(h, v)
    ensures SlotStays(Survivors(h, marks), v, key) <==> !Lost(h.finalized, marks, v, key)
  {
    if v.Object? { SurvivorsLive(h, marks, v.ref); }
  }

  lemma WeakEntriesSurvive(h: Heap, hr: Heap, marks: set<Ref>, id: Id)
    requires SweptFrom(h, hr, marks) && id in h.tables && Table(id) in marks
    ensures EntriesSurvive(h, Survivors(hr, marks), id)
  {
    assert NoDanglingFacts(h) && NoDanglingFacts(hr);
    SameMode(h, hr, id);
    assert ValidTable(h, h.tables[id]);
    forall i | 0 <= i < |h.tables[id].entries| && h.tables[id].entries[i].value != Nil
      ensures var e := h.tables[id].entries[i];
              (SlotStays(Survivors(hr, marks), e.key, true) <==> !Lost(hr.finalized, marks, e.key, true)) &&
              (SlotStays(Survivors(hr, marks), e.value, false) <==> !Lost(hr.finalized, marks, e.value, false))
    {
      SlotSurvives(hr, marks, h.tables[id].entries[i].key, true);
      SlotSurvives(hr, marks, h.tables[id].entries[i].value, false);
    }
  }

  lemma CollectionClearsWeakTables(h: Heap, roots: seq<Value>, queue: seq<Id>, order: seq<Id>, id: Id)
    requires NoDangling(h) && SeedsLive(h, roots, queue) && id in h.tables && Table(id) in Staying(h, roots, queue, order)
    ensures EntriesSurvive(h, Collected(h, roots, queue, order), id)
  {
    assert SeedsLiveFacts(h, roots, queue);
    CollectionBasis(h, roots, queue, order);
    WeakEntriesSurvive(h, Flagged(RetireAll(h), Reached(h, Targets(roots)), false), Staying(h, roots, queue, order), id);
  }

  // ----- nothing is queued twice -----

  lemma {:induction false} ToFinalizeDistinct(h: Heap, ids: seq<Id>, marks: set<Ref>, all: bool)
    requires Distinct(ids)
    ensures Distinct(ToFinalize(h, ids, marks, all))
    ensures forall i :: 0 <= i < |ToFinalize(h, ids, marks, all)| ==> ToFinalize(h, ids, marks, all)[i] in ids
  {
    if ids != [] {
      var n := |ids| - 1;
      ToFinalizeDistinct(h, ids[..n], marks, all);
      assert ids == ids[..n] + [ids[n]];
    }
  }

  // ----- from marking to sweeping -----

  /** What sweeping relies on: the ledgers and open lists are right and the weak tables are all listed. */
  /** One ledger has been swept; to be taken apart only where LedgerSwept is named. */
  ghost predicate KindSwept(k: Kind, h: Heap, marks: set<Ref>, ids: seq<Id>, h': Heap, marks': set<Ref>, ids': seq<Id>) {
    forall r {:trigger LedgerSwept(k, h, marks, ids, h', marks', r)} :: r == ids' ==> LedgerSwept(k, h, marks, ids, h', marks', r)
  }

  ghost predicate LedgerSwept(k: Kind, h: Heap, marks: set<Ref>, ids: seq<Id>, h': Heap, marks': set<Ref>, ids': seq<Id>) {
    ids' == Ledger(k, ids, marks) && marks' == Unmarked(k, ids, marks) && h' == DropAll(k, h, DeadIn(k, ids, marks))
  }

  /** All of them, one after the other, once the weak tables have been cleared. */
  lemma SweptInTurn(h: Heap, m: set<Ref>, before: Ledgers, weakTables: seq<WeakTable>, h1: Heap, m1: set<Ref>, h2: Heap, m2: set<Ref>,
                    h3: Heap, m3: set<Ref>, h4: Heap, m4: set<Ref>, after: Ledgers)
    requires SweepReady(h, m, weakTables, before.tables, before.functions, before.threads, before.userData)
    requires KindSwept(Threads, h.(tables := ClearedTables(h, m)), m, before.threads, h1, m1, after.threads)
    requires KindSwept(Functions, h1, m1, before.functions, h2, m2, after.functions)
    requires KindSwept(Tables, h2, m2, before.tables, h3, m3, after.tables)
    requires KindSwept(UserDatas, h3, m3, before.userData, h4, m4, after.userData)
    ensures m4 == {} && h4 == Survivors(h, m) && after == KeptLedgers(before, m)
  {
    assert SweepFacts(h, m, weakTables, before.tables, before.functions, before.threads, before.userData);
    assert LedgerSwept(Threads, h.(tables := ClearedTables(h, m)), m, before.threads, h1, m1, after.threads);
    assert LedgerSwept(Functions, h1, m1, before.functions, h2, m2, after.functions);
    assert LedgerSwept(Tables, h2, m2, before.tables, h3, m3, after.tables);
    assert LedgerSwept(UserDatas, h3, m3, before.userData, h4, m4, after.userData);
    AllSwept(h, m, before.tables, before.functions, before.threads, before.userData);
    AllUnmarked(h, m, before.tables, before.functions, before.threads, before.userData);
    KindsApart(m, before.tables, before.functions, before.threads, before.userData);
  }

  lemma SweepStarts(h: Heap, m: set<Ref>, weakTables: seq<WeakTable>, tables: seq<Id>, functions: seq<Id>, threads: seq<Id>, userData: seq<Id>)
    requires SweepReady(h, m, weakTables, tables, functions, threads, userData)
    ensures Distinct(tables) && Distinct(functions) && Distinct(userData)
    ensures forall i :: 0 <= i < |weakTables| ==> weakTables[i].table in h.tables && IsWeak(weakTables[i].mode)
    ensures ClearAll(h.tables, h.finalized, m, weakTables) == ClearedTables(h, m)
    ensures Sweepable(Threads, h.(tables := ClearedTables(h, m)), threads)
  {
    assert SweepFacts(h, m, weakTables, tables, functions, threads, userData);
    assert LedgersMatchFacts(h, tables, functions, threads, userData);
    SweepableCleared(h, m, threads);
  }

  /** Marking has prepared the sweep; to be taken apart only where SweepFacts is named. */
  ghost predicate SweepReady(h: Heap, marks: set<Ref>, weakTables: seq<WeakTable>,
                             tables: seq<Id>, functions: seq<Id>, threads: seq<Id>, userData: seq<Id>) {
    forall u {:trigger SweepFacts(h, marks, weakTables, tables, functions, threads, u)} :: u == userData ==>
      SweepFacts(h, marks, weakTables, tables, functions, threads, u)
  }

  ghost predicate SweepFacts(h: Heap, marks: set<Ref>, weakTables: seq<WeakTable>,
                             tables: seq<Id>, functions: seq<Id>, threads: seq<Id>, userData: seq<Id>) {
    LedgersMatch(h, tables, functions, threads, userData) && Sweepable(Threads, h, threads) &&
    (forall i :: 0 <= i < |weakTables| ==> weakTables[i].table in h.tables && IsWeak(weakTables[i].mode)) &&
    ClearAll(h.tables, h.finalized, marks, weakTables) == ClearedTables(h, marks) &&
    forall r :: r in marks ==> Live(h, r)
  }

  lemma ReadyToSweep(h0: Heap, h: Heap, first: set<Ref>, seeds: set<Ref>, marks: set<Ref>, weakTables: seq<WeakTable>,
                     tables: seq<Id>, functions: seq<Id>, threads: seq<Id>, userData: seq<Id>)
    requires NoDangling(h0) && Tricolor(h0, h, seeds, marks, {}, weakTables)
    requires LedgersMatch(h0, tables, functions, threads, userData) && h.finalized == Flagged(h0, first, false).finalized
    ensures SweepReady(h, marks, weakTables, tables, functions, threads, userData)
  {
    assert TricolorFacts(h0, h, seeds, marks, {}, weakTables);
    assert LedgersMatchFacts(h0, tables, functions, threads, userData);
    SameLedgers(h0, h, tables, functions, threads, userData);
    SameValid(h0, h);
    SweepableGraph(h, threads);
    ClearAllWeak(h0, h, seeds, marks, weakTables);
    forall i | 0 <= i < |weakTables| ensures weakTables[i].table in h.tables && IsWeak(weakTables[i].mode) {
      assert Listed(h0, marks, weakTables[i]);
    }
  }

  // ----- the state between collections -----

  /** Nothing was ever queued twice, the calls made so far are the first ones queued, and whatever was queued
      has its flag for as long as it exists. */
  ghost predicate HistoryValid(h: Heap, pending: seq<Id>, history: seq<Id>, called: nat, next: Id) {
    forall n {:trigger HistoryValidFacts(h, pending, history, called, n)} :: n == next ==> HistoryValidFacts(h, pending, history, called, n)
  }

  ghost predicate HistoryValidFacts(h: Heap, pending: seq<Id>, history: seq<Id>, called: nat, next: Id) {
    Distinct(history) && called <= |history| && pending == history[called..] &&
    (forall i :: 0 <= i < |history| ==> history[i] < next && (history[i] in h.userData ==> history[i] in h.finalized)) &&
    forall id :: id in h.userData ==> id < next
  }

  lemma SeedsStay(h: Heap, roots: seq<Value>, queue: seq<Id>, order: seq<Id>)
    requires NoDangling(h) && SeedsLive(h, roots, queue)
    ensures SeedsLive(Collected(h, roots, queue, order), roots, Queue(h, roots, queue, order))
  {
    assert SeedsLiveFacts(h, roots, queue);
    var h', pending, first := Collected(h, roots, queue, order), Queue(h, roots, queue, order), Reached(h, Targets(roots));
    var seeds := Seeds(h, roots, queue, order);
    CollectionKeepsReachable(h, roots, queue, order);
    QueueLive(h, roots, queue, order);
    TargetsMembers(roots);
    TargetsMembers(Slots(pending));
    forall i | 0 <= i < |roots| ensures Valid(h', roots[i]) {
      if roots[i].Object? {
        assert Object(roots[i].ref) in roots;
        SeedReachable(h, seeds, roots[i].ref);
      }
    }
    forall i | 0 <= i < |pending| ensures pending[i] in h'.userData && pending[i] in h'.finalized {
      PendingStays(h, roots, queue, order, i);
    }
  }

  lemma PendingStays(h: Heap, roots: seq<Value>, queue: seq<Id>, order: seq<Id>, i: nat)
    requires NoDangling(h) && SeedsLive(h, roots, queue) && i < |Queue(h, roots, queue, order)|
    ensures var id := Queue(h, roots, queue, order)[i];
            id in Collected(h, roots, queue, order).userData && id in Collected(h, roots, queue, order).finalized
  {
    assert SeedsLiveFacts(h, roots, queue);
    var pending, first := Queue(h, roots, queue, order), Reached(h, Targets(roots));
    var r := UserData(pending[i]);
    assert Slots(pending)[i] == Object(r);
    assert Object(r) in Slots(pending);
    TargetsMembers(Slots(pending));
    SeedReachable(h, Seeds(h, roots, queue, order), r);
    CollectionBasis(h, roots, queue, order);
    QueueLive(h, roots, queue, order);
    assert Valid(h, Slots(pending)[i]);
    if i >= |queue| {
      ToFinalizeConsidered(h, order, first, false);
      assert Considered(h, first, false, ToFinalize(h, order, first, false)[i - |queue|]);
    }
  }

  lemma StillFlagged(h: Heap, roots: seq<Value>, queue: seq<Id>, order: seq<Id>, id: Id)
    requires NoDangling(h) && SeedsLive(h, roots, queue)
    requires id in Collected(h, roots, queue, order).userData
    ensures id in h.userData
    ensures id in h.finalized || Considered(h, Reached(h, Targets(roots)), false, id) ==> id in Collected(h, roots, queue, order).finalized
  {
    assert SeedsLiveFacts(h, roots, queue);
  }

  lemma HistoryDistinct(h: Heap, first: set<Ref>, order: seq<Id>, pending: seq<Id>, history: seq<Id>, called: nat, next: Id)
    requires HistoryValid(h, pending, history, called, next) && Distinct(order)
    ensures Distinct(history + ToFinalize(h, order, first, false))
  {
    assert HistoryValidFacts(h, pending, history, called, next);
    var more := ToFinalize(h, order, first, false);
    ToFinalizeDistinct(h, order, first, false);
    ToFinalizeConsidered(h, order, first, false);
    forall i, j | 0 <= i < j < |history + more| ensures (history + more)[i] != (history + more)[j] {
      if i < |history| <= j {
        assert Considered(h, first, false, more[j - |history|]);
      }
    }
  }

  lemma HistoryGrows(h: Heap, roots: seq<Value>, queue: seq<Id>, order: seq<Id>, history: seq<Id>, called: nat, next: Id)
    requires NoDangling(h) && SeedsLive(h, roots, queue) && HistoryValid(h, queue, history, called, next) && Distinct(order)
    ensures HistoryValid(Collected(h, roots, queue, order), Queue(h, roots, queue, order),
                         history + ToFinalize(h, order, Reached(h, Targets(roots)), false), called, next)
  {
    assert SeedsLiveFacts(h, roots, queue);
    assert HistoryValidFacts(h, queue, history, called, next);
    var first, h' := Reached(h, Targets(roots)), Collected(h, roots, queue, order);
    var more := ToFinalize(h, order, first, false);
    HistoryDistinct(h, first, order, queue, history, called, next);
    ToFinalizeConsidered(h, order, first, false);
    var all := history + more;
    forall i | 0 <= i < |all| ensures all[i] < next && (all[i] in h'.userData ==> all[i] in h'.finalized) {
      if i >= |history| { assert Considered(h, first, false, more[i - |history|]); }
      if all[i] in h'.userData { StillFlagged(h, roots, queue, order, all[i]); }
    }
    forall id | id in h'.userData ensures id < next {
      StillFlagged(h, roots, queue, order, id);
    }
  }

  /** A collection leads from one state between collections to another. */
  lemma StateAfter(h: Heap, roots: seq<Value>, queue: seq<Id>, tables: seq<Id>, functions: seq<Id>, threads: seq<Id>, userData: seq<Id>)
    requires NoDangling(h) && SeedsLive(h, roots, queue) && LedgersMatch(h, tables, functions, threads, userData)
    ensures var h', marks := Collected(h, roots, queue, userData), Staying(h, roots, queue, userData);
            NoDangling(h') && SeedsLive(h', roots, Queue(h, roots, queue, userData)) &&
            var kept := KeptLedgers(Ledgers(tables, functions, threads, userData), marks);
            LedgersMatch(h', kept.tables, kept.functions, kept.threads, kept.userData)
  {
    assert SeedsLiveFacts(h, roots, queue);
    assert LedgersMatchFacts(h, tables, functions, threads, userData);
    var hr, marks := Flagged(RetireAll(h), Reached(h, Targets(roots)), false), Staying(h, roots, queue, userData);
    CollectionKeepsReachable(h, roots, queue, userData);
    SeedsStay(h, roots, queue, userData);
    CollectionBasis(h, roots, queue, userData);
    SameLedgers(h, hr, tables, functions, threads, userData);
    LedgersAfter(hr, marks, tables, functions, threads, userData);
  }

  lemma TakenFirst(h: Heap, roots: seq<Value>, before: seq<Id>, after: seq<Id>, id: Id, history: seq<Id>, called: nat, next: Id)
    requires called > 0 && SeedsLive(h, roots, before) && HistoryValid(h, before, history, called - 1, next)
    requires before == [id] + after
    ensures SeedsLive(h, roots, after) && HistoryValid(h, after, history, called, next)
    ensures called <= |history| && id == history[called - 1] && id in h.userData
  {
    assert SeedsLiveFacts(h, roots, before);
    assert HistoryValidFacts(h, before, history, called - 1, next);
    assert before[0] == id && before[1..] == after;
    assert history[called - 1..][1..] == history[called..];
  }

  /** A program that leaves the flags alone leaves the queue and its history as they are. */
  lemma Executed(h: Heap, after: Heap, roots: seq<Value>, newRoots: seq<Value>, pending: seq<Id>,
                 tables: seq<Id>, functions: seq<Id>, threads: seq<Id>, userData: seq<Id>, history: seq<Id>, called: nat, next: Id)
    requires LedgersMatch(h, tables, functions, threads, userData) && LedgersMatch(after, tables, functions, threads, userData)
    requires SeedsLive(h, roots, pending) && HistoryValid(h, pending, history, called, next)
    requires after.finalized == h.finalized && AllValid(after, newRoots)
    ensures SeedsLive(after, newRoots, pending) && HistoryValid(after, pending, history, called, next)
  {
    assert LedgersMatchFacts(h, tables, functions, threads, userData) && LedgersMatchFacts(after, tables, functions, threads, userData);
    assert SeedsLiveFacts(h, roots, pending) && HistoryValidFacts(h, pending, history, called, next);
    assert forall id :: id in after.userData <==> id in h.userData;
  }

  lemma Registered(h: Heap, id: Id, record: UserDataRecord, roots: seq<Value>, pending: seq<Id>,
                   tables: seq<Id>, functions: seq<Id>, threads: seq<Id>, userData: seq<Id>, history: seq<Id>, called: nat)
    requires NoDangling(h) && LedgersMatch(h, tables, functions, threads, userData) && SeedsLive(h, roots, pending)
    requires HistoryValid(h, pending, history, called, id) && ValidUserData(h, record)
    ensures var h' := h.(userData := h.userData[id := record]);
            NoDangling(h') && LedgersMatch(h', tables, functions, threads, userData + [id]) && SeedsLive(h', roots, pending) &&
            HistoryValid(h', pending, history, called, id + 1)
    ensures id !in h.userData && id !in h.finalized && id !in history
  {
    assert SeedsLiveFacts(h, roots, pending);
    assert LedgersMatchFacts(h, tables, functions, threads, userData);
    assert HistoryValidFacts(h, pending, history, called, id);
    assert NoDanglingFacts(h);
    var h' := h.(userData := h.userData[id := record]);
    assert forall u :: u in h.userData ==> u < id;
    GraphGrows(h, h');
    assert Members(userData + [id]) == Members(userData) + {id};
    assert forall u :: u in userData ==> u in Members(userData);
  }

  /** Adding userdata leaves everything else as it was. */
  lemma GraphGrows(h: Heap, h': Heap)
    requires NoDangling(h) && h' == h.(userData := h'.userData)
    requires forall id :: id in h.userData ==> id in h'.userData
    requires forall id :: id in h'.userData ==> ValidUserData(h, h'.userData[id])
    ensures NoDangling(h')
  {
    assert NoDanglingFacts(h);
    forall r | Live(h, r) ensures Live(h', r) {
    }
    forall id | id in h'.tables ensures ValidTable(h', h'.tables[id]) { assert ValidTable(h, h.tables[id]); }
    forall id | id in h'.functions ensures ValidFunction(h', h'.functions[id]) { assert ValidFunction(h, h.functions[id]); }
    forall id | id in h'.threads ensures ValidThread(h', id, h'.threads[id]) { assert ValidThread(h, id, h.threads[id]); }
    forall c, id | OpenOn(h', c, id) && id in h'.threads ensures c in h'.threads[id].openUpvalues { assert OpenOn(h, c, id); }
  }
}
