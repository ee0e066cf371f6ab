/** What a collection keeps, finalizes and clears, read off the objects themselves: from the bytes of a __mode string,
    the fields of a metatable, the slots of a thread and the cells of a closure. */
module CollectorLaws {
  import opened CollectorHeap
  import opened CollectorFacts
  import opened CollectorSpec
  import opened CollectorResult

  // ----- fields of metatables -----

  /** Entry j is the live entry for the name. */
  predicate FieldAt(entries: seq<Entry>, name: string, v: Value, j: nat) {
    j < |entries| && entries[j] == Entry(Text(name), v) && v != Nil &&
    forall i :: 0 <= i < j ==> entries[i].key != Text(name) || entries[i].value == Nil
  }

  /** The metatable has this value for the name. */
  ghost predicate Field(h: Heap, metatable: Value, name: string, v: Value) {
    metatable.Object? && metatable.ref.Table? && metatable.ref.id in h.tables &&
    exists j: nat :: FieldAt(h.tables[metatable.ref.id].entries, name, v, j)
  }

  lemma {:induction false} LookupFound(entries: seq<Entry>, name: string, j: nat, v: Value)
    requires FieldAt(entries, name, v, j)
    ensures Lookup(entries, Text(name)) == v
  {
    if j > 0 {
      assert FieldAt(entries[1..], name, v, j - 1);
      LookupFound(entries[1..], name, j - 1, v);
    }
  }

  lemma {:induction false} LookupFinds(entries: seq<Entry>, name: string) returns (j: nat)
    requires Lookup(entries, Text(name)) != Nil
    ensures FieldAt(entries, name, Lookup(entries, Text(name)), j)
  {
    if entries[0].key == Text(name) && entries[0].value != Nil {
      j := 0;
    } else {
      var k := LookupFinds(entries[1..], name);
      j := k + 1;
    }
  }

  lemma FieldIs(h: Heap, metatable: Value, name: string, v: Value)
    requires v != Nil
    ensures Field(h, metatable, name, v) <==> EventSlot(h, metatable, name) == v
  {
    if metatable.Object? && metatable.ref.Table? && metatable.ref.id in h.tables {
      var entries := h.tables[metatable.ref.id].entries;
      if j: nat :| FieldAt(entries, name, v, j) { LookupFound(entries, name, j, v); }
      if Lookup(entries, Text(name)) == v {
        var j := LookupFinds(entries, name);
      }
    }
  }

  // ----- what an object holds -----

  /** The letter is in the text before its first NUL. */
  predicate HasLetter(s: string, c: char) {
    exists i :: 0 <= i < |s| && s[i] == c && forall k :: 0 <= k < i ==> s[k] != '\0'
  }

  /** The table's metatable has a __mode text with the letter. */
  ghost predicate Weak(h: Heap, t: TableRecord, c: char) {
    exists s: string :: Field(h, t.metatable, "__mode", Text(s)) && HasLetter(s, c)
  }

  /** With 'k' a table does not hold its keys, with 'v' it does not hold its values. */
  ghost predicate TableHolds(h: Heap, t: TableRecord, v: Value) {
    v == t.metatable || (v in t.items && !Weak(h, t, 'v')) ||
    exists i :: 0 <= i < |t.entries| && t.entries[i].value != Nil &&
      ((v == t.entries[i].key && !Weak(h, t, 'k')) || (v == t.entries[i].value && !Weak(h, t, 'v')))
  }

  /** The value that a cell stands for now. */
  predicate CellHolds(h: Heap, c: Id, v: Value) {
    c in h.cells &&
    match h.cells[c]
    case Open(thread, index) => thread in h.threads && index < |h.threads[thread].values| && h.threads[thread].values[index] == v
    case Closed(value) => value == v
  }

  ghost predicate Holds(h: Heap, a: Ref, v: Value) {
    match a
    case Table(id) => id in h.tables && TableHolds(h, h.tables[id], v)
    case Function(id) =>
      id in h.functions &&
      (v == h.functions[id].environment ||
       match h.functions[id]
       case Lua(_, upvalues) => exists i :: 0 <= i < |upvalues| && CellHolds(h, upvalues[i], v)
       case Native(_, captures) => v in captures)
    case Thread(id) =>
      id in h.threads && (v == h.threads[id].globals || v in h.threads[id].values || v in h.threads[id].frames)
    case UserData(id) => id in h.userData && (v == h.userData[id].metatable || v == h.userData[id].environment)
  }

  lemma ModeIs(h: Heap, t: TableRecord)
    ensures Mode(h, t) == WeakMode(Weak(h, t, 'k'), Weak(h, t, 'v'))
  {
    forall s: string ensures Field(h, t.metatable, "__mode", Text(s)) <==> EventSlot(h, t.metatable, "__mode") == Text(s) {
      FieldIs(h, t.metatable, "__mode", Text(s));
    }
    forall s: string, c: char ensures HasLetter(s, c) <==> Mentions(s, c) {
      LetterMentioned(s, c);
    }
  }

  lemma LetterMentioned(s: string, c: char)
    ensures HasLetter(s, c) <==> Mentions(s, c)
  {
    if i :| 0 <= i < |s| && s[i] == c && forall k :: 0 <= k < i ==> s[k] != '\0' {
      assert '\0' !in s[..i];
    }
    if i :| 0 <= i < |s| && s[i] == c && '\0' !in s[..i] {
      forall k | 0 <= k < i ensures s[k] != '\0' { assert s[..i][k] == s[k]; }
    }
  }

  predicate EntryHolds(e: Entry, mode: WeakMode, v: Value) {
    e.value != Nil && ((v == e.key && !mode.keys) || (v == e.value && !mode.values))
  }

  lemma {:induction false} EntriesHold(entries: seq<Entry>, n: nat, mode: WeakMode, v: Value)
    requires n <= |entries|
    ensures v in EntriesRefs(entries[..n], mode) <==> exists i :: 0 <= i < n && EntryHolds(entries[i], mode, v)
  {
    if n > 0 {
      EntriesHold(entries, n - 1, mode, v);
      EntriesRefsStep(entries, n - 1, mode);
      assert v in EntryRefs(entries[n - 1], mode) <==> EntryHolds(entries[n - 1], mode, v);
    }
  }

  lemma TableHeld(h: Heap, id: Id, b: Ref)
    requires NoDangling(h) && id in h.tables
    ensures Holds(h, Table(id), Object(b)) <==> b in Targets(Refs(h, Table(id)))
  {
    var t, v := h.tables[id], Object(b);
    TargetsMembers(Refs(h, Table(id)));
    ModeIs(h, t);
    EntriesHold(t.entries, |t.entries|, Mode(h, t), v);
    assert t.entries[..|t.entries|] == t.entries;
    assert forall i :: 0 <= i < |t.entries| ==> (EntryHolds(t.entries[i], Mode(h, t), v) <==>
      (t.entries[i].value != Nil && ((v == t.entries[i].key && !Weak(h, t, 'k')) || (v == t.entries[i].value && !Weak(h, t, 'v')))));
  }

  lemma FunctionHeld(h: Heap, id: Id, b: Ref)
    requires NoDangling(h) && id in h.functions
    ensures Holds(h, Function(id), Object(b)) <==> b in Targets(Refs(h, Function(id)))
  {
    assert NoDanglingFacts(h);
    var f, v := h.functions[id], Object(b);
    TargetsMembers(Refs(h, Function(id)));
    assert ValidFunction(h, f);
    if f.Lua? {
      forall i | 0 <= i < |f.upvalues| ensures CellHolds(h, f.upvalues[i], v) <==> Reads(h, f.upvalues)[i] == v {
        assert ValidCell(h, f.upvalues[i]);
      }
    }
  }

  lemma ThreadHeld(h: Heap, id: Id, b: Ref)
    requires NoDangling(h) && id in h.threads
    ensures Holds(h, Thread(id), Object(b)) <==> b in Targets(Refs(h, Thread(id)))
  {
    assert NoDanglingFacts(h);
    var t, v := h.threads[id], Object(b);
    TargetsMembers(Refs(h, Thread(id)));
    assert ValidThread(h, id, t);
    assert v in t.values <==> v in t.values[..Extent(t)];
    if v in Reads(h, t.openUpvalues) {
      var i :| 0 <= i < |t.openUpvalues| && Reads(h, t.openUpvalues)[i] == v;
      assert OpenOn(h, t.openUpvalues[i], id) && ValidCell(h, t.openUpvalues[i]);
    }
  }

  /** Holding is what the collector follows. */
  lemma HoldsIs(h: Heap, a: Ref, b: Ref)
    requires NoDangling(h) && Live(h, a)
    ensures Holds(h, a, Object(b)) <==> b in Targets(Refs(h, a))
  {
    match a {
      case Table(id) => TableHeld(h, id, b);
      case Function(id) => FunctionHeld(h, id, b);
      case Thread(id) => ThreadHeld(h, id, b);
      case UserData(id) => TargetsMembers(Refs(h, a));
    }
  }

  // ----- what stays -----

  /** Roots and queued userdata stay, and so does whatever an object that stays holds. */
  lemma StayingHolds(h: Heap, roots: seq<Value>, queue: seq<Id>, order: seq<Id>)
    requires NoDangling(h) && SeedsLive(h, roots, queue)
    ensures var h' := Collected(h, roots, queue, order);
      (forall r :: Object(r) in roots ==> Live(h', r)) &&
      (forall id :: id in Queue(h, roots, queue, order) ==> Live(h', UserData(id))) &&
      (forall a, b :: Live(h', a) && Holds(h, a, Object(b)) ==> Live(h', b))
  {
    var h', seeds := Collected(h, roots, queue, order), Seeds(h, roots, queue, order);
    CollectionKeepsReachable(h, roots, queue, order);
    QueueLive(h, roots, queue, order);
    forall r | Object(r) in roots ensures Live(h', r) {
      TargetsMembers(roots);
      SeedReachable(h, seeds, r);
    }
    forall id | id in Queue(h, roots, queue, order) ensures Live(h', UserData(id)) {
      QueuedSeed(h, roots, queue, order, id);
      SeedReachable(h, seeds, UserData(id));
    }
    forall a, b | Live(h', a) && Holds(h, a, Object(b)) ensures Live(h', b) {
      HoldsIs(h, a, b);
      RefsLive(h, a);
      StepReachable(h, seeds, a, b);
    }
  }

  lemma QueuedSeed(h: Heap, roots: seq<Value>, queue: seq<Id>, order: seq<Id>, id: Id)
    requires NoDangling(h) && id in Queue(h, roots, queue, order)
    ensures UserData(id) in Seeds(h, roots, queue, order)
  {
    var all := Queue(h, roots, queue, order);
    var i :| 0 <= i < |all| && all[i] == id;
    assert Slots(all)[i] == Object(UserData(id));
    TargetsMembers(Slots(all));
  }

  lemma SeedIs(h: Heap, roots: seq<Value>, queue: seq<Id>, order: seq<Id>, r: Ref)
    requires NoDangling(h) && r in Seeds(h, roots, queue, order)
    ensures Object(r) in roots || (r.UserData? && r.id in Queue(h, roots, queue, order))
  {
    TargetsMembers(roots);
    TargetsMembers(Slots(Queue(h, roots, queue, order)));
  }

  /** Nothing else stays: every set that has the roots and the queue and, with an object, what it holds has all of it. */
  lemma StayingLeast(h: Heap, roots: seq<Value>, queue: seq<Id>, order: seq<Id>, kept: set<Ref>)
    requires NoDangling(h) && SeedsLive(h, roots, queue)
    requires forall r :: Object(r) in roots ==> r in kept
    requires forall id :: id in Queue(h, roots, queue, order) ==> UserData(id) in kept
    requires forall a, b :: a in kept && Live(h, a) && Holds(h, a, Object(b)) ==> b in kept
    ensures forall r :: Live(Collected(h, roots, queue, order), r) ==> r in kept
  {
    var seeds := Seeds(h, roots, queue, order);
    CollectionKeepsReachable(h, roots, queue, order);
    forall r | Live(Collected(h, roots, queue, order), r) ensures r in kept {
      var path :| PathTo(h, seeds, path, r);
      PathKept(h, roots, queue, order, kept, path);
    }
  }

  lemma {:induction false} PathKept(h: Heap, roots: seq<Value>, queue: seq<Id>, order: seq<Id>, kept: set<Ref>, path: seq<Ref>)
    requires NoDangling(h) && Path(h, Seeds(h, roots, queue, order), path)
    requires forall r :: Object(r) in roots ==> r in kept
    requires forall id :: id in Queue(h, roots, queue, order) ==> UserData(id) in kept
    requires forall a, b :: a in kept && Live(h, a) && Holds(h, a, Object(b)) ==> b in kept
    ensures path[|path| - 1] in kept
  {
    if |path| == 1 {
      SeedIs(h, roots, queue, order, path[0]);
    } else {
      PathKept(h, roots, queue, order, kept, path[..|path| - 1]);
      HoldsIs(h, path[|path| - 2], path[|path| - 1]);
    }
  }

  /** An object that is no root, is not queued and is held by nothing else goes: so does one that occurs only as a key
      of tables with 'k' or as a value of tables with 'v'. */
  lemma UnheldGoes(h: Heap, roots: seq<Value>, queue: seq<Id>, order: seq<Id>, r: Ref)
    requires NoDangling(h) && SeedsLive(h, roots, queue)
    requires Object(r) !in roots && !(r.UserData? && r.id in Queue(h, roots, queue, order))
    requires forall a :: Live(h, a) && a != r ==> !Holds(h, a, Object(r))
    ensures !Live(Collected(h, roots, queue, order), r)
  {
    var kept := AllRefs(h) - {r};
    QueueLive(h, roots, queue, order);
    forall s | Object(s) in roots ensures s in kept {
      TargetsMembers(roots);
      assert s in Seeds(h, roots, queue, order) && Live(h, s);
    }
    forall id | id in Queue(h, roots, queue, order) ensures UserData(id) in kept {
      QueuedSeed(h, roots, queue, order, id);
      assert Live(h, UserData(id));
    }
    forall a, b | a in kept && Live(h, a) && Holds(h, a, Object(b)) ensures b in kept {
      HoldsIs(h, a, b);
      RefsLive(h, a);
      assert Live(h, b);
    }
    StayingLeast(h, roots, queue, order, kept);
  }

  /** The object occurs in a table only where the table does not hold it. */
  ghost predicate OnlyWeakly(h: Heap, t: TableRecord, r: Ref) {
    t.metatable != Object(r) && (Object(r) in t.items ==> Weak(h, t, 'v')) &&
    forall i :: 0 <= i < |t.entries| && t.entries[i].value != Nil ==>
      (t.entries[i].key == Object(r) ==> Weak(h, t, 'k')) && (t.entries[i].value == Object(r) ==> Weak(h, t, 'v'))
  }

  /** Occurring only in weak places of tables does not keep an object. */
  lemma WeaklyHeldGoes(h: Heap, roots: seq<Value>, queue: seq<Id>, order: seq<Id>, r: Ref)
    requires NoDangling(h) && SeedsLive(h, roots, queue)
    requires Object(r) !in roots && !(r.UserData? && r.id in Queue(h, roots, queue, order))
    requires forall id :: id in h.tables && Table(id) != r ==> OnlyWeakly(h, h.tables[id], r)
    requires forall a :: Live(h, a) && !a.Table? && a != r ==> !Holds(h, a, Object(r))
    ensures !Live(Collected(h, roots, queue, order), r)
  {
    forall a | Live(h, a) && a != r ensures !Holds(h, a, Object(r)) {
      if a.Table? { assert OnlyWeakly(h, h.tables[a.id], r); }
    }
    UnheldGoes(h, roots, queue, order, r);
  }

  /** A table that stays with 'k' and without 'v' in its mode keeps the values of its live entries and its items; one
      with 'v' and without 'k' keeps the keys; one with neither keeps both. */
  lemma StrongSidesStay(h: Heap, roots: seq<Value>, queue: seq<Id>, order: seq<Id>, id: Id, i: nat, r: Ref)
    requires NoDangling(h) && SeedsLive(h, roots, queue) && id in h.tables && Live(Collected(h, roots, queue, order), Table(id))
    ensures !Weak(h, h.tables[id], 'v') && i < |h.tables[id].entries| && h.tables[id].entries[i].value == Object(r) ==>
      Live(Collected(h, roots, queue, order), r)
    ensures !Weak(h, h.tables[id], 'v') && i < |h.tables[id].items| && h.tables[id].items[i] == Object(r) ==>
      Live(Collected(h, roots, queue, order), r)
    ensures !Weak(h, h.tables[id], 'k') && i < |h.tables[id].entries| && h.tables[id].entries[i].value != Nil && h.tables[id].entries[i].key == Object(r) ==>
      Live(Collected(h, roots, queue, order), r)
  {
    StayingHolds(h, roots, queue, order);
    var t := h.tables[id];
    if (!Weak(h, t, 'v') && ((i < |t.entries| && t.entries[i].value == Object(r)) || (i < |t.items| && t.items[i] == Object(r)))) ||
       (!Weak(h, t, 'k') && i < |t.entries| && t.entries[i].value != Nil && t.entries[i].key == Object(r)) {
      assert Holds(h, Table(id), Object(r));
    }
  }

  /** What the mode of a metatable with one __mode text says. */
  lemma WeakByText(h: Heap, t: TableRecord, s: string)
    requires Field(h, t.metatable, "__mode", Text(s))
    ensures Weak(h, t, 'k') <==> HasLetter(s, 'k')
    ensures Weak(h, t, 'v') <==> HasLetter(s, 'v')
  {
    forall u: string | Field(h, t.metatable, "__mode", Text(u)) ensures u == s {
      FieldIs(h, t.metatable, "__mode", Text(u));
      FieldIs(h, t.metatable, "__mode", Text(s));
    }
  }

  // ----- finalization -----

  /** The userdata that a collection adds to the queue: unreachable from the roots, not considered before, and with a
      __gc field in its metatable. */
  ghost predicate Dies(h: Heap, roots: seq<Value>, id: Id)
    requires NoDangling(h)
  {
    id in h.userData && id !in h.finalized && !Reachable(h, Targets(roots), UserData(id)) &&
    exists v :: v != Nil && Field(h, h.userData[id].metatable, "__gc", v)
  }

  lemma DiesIs(h: Heap, roots: seq<Value>, id: Id)
    requires NoDangling(h)
    ensures Dies(h, roots, id) <==> QueuedFor(h, Reached(h, Targets(roots)), false, id) == [id]
  {
    ReachedMembers(h, Targets(roots));
    if id in h.userData {
      var v := EventSlot(h, h.userData[id].metatable, "__gc");
      if v != Nil { FieldIs(h, h.userData[id].metatable, "__gc", v); }
      if Dies(h, roots, id) {
        var u :| u != Nil && Field(h, h.userData[id].metatable, "__gc", u);
        FieldIs(h, h.userData[id].metatable, "__gc", u);
      }
    }
  }

  /** The elements of a list stand at these places of the ledger, the youngest first. */
  predicate Placed(order: seq<Id>, list: seq<Id>, places: seq<nat>, below: nat) {
    |places| == |list| && (forall i :: 0 <= i < |list| ==> places[i] < below && places[i] < |order| && order[places[i]] == list[i]) &&
    forall i, j :: 0 <= i < j < |list| ==> places[i] > places[j]
  }

  lemma OneMoreDies(h: Heap, roots: seq<Value>, order: seq<Id>, n: nat)
    requires NoDangling(h) && 0 < n <= |order|
    ensures var marks := Reached(h, Targets(roots));
      ToFinalize(h, order[..n], marks, false) ==
        (if Dies(h, roots, order[n - 1]) then [order[n - 1]] else []) + ToFinalize(h, order[..n - 1], marks, false)
  {
    DiesIs(h, roots, order[n - 1]);
    assert order[..n][..n - 1] == order[..n - 1];
  }

  lemma PlacedOn(order: seq<Id>, list: seq<Id>, places: seq<nat>, n: nat)
    requires 0 < n <= |order| && Placed(order, list, places, n - 1)
    ensures Placed(order, [order[n - 1]] + list, [n - 1] + places, n) && Placed(order, list, places, n)
  {
  }

  lemma {:induction false} ToFinalizeDescends(h: Heap, roots: seq<Value>, order: seq<Id>, n: nat) returns (places: seq<nat>)
    requires NoDangling(h) && n <= |order|
    ensures var more := ToFinalize(h, order[..n], Reached(h, Targets(roots)), false);
      Placed(order, more, places, n) && forall id :: id in more <==> id in order[..n] && Dies(h, roots, id)
  {
    places := [];
    if n > 0 {
      places := ToFinalizeDescends(h, roots, order, n - 1);
      var rest := ToFinalize(h, order[..n - 1], Reached(h, Targets(roots)), false);
      OneMoreDies(h, roots, order, n);
      PlacedOn(order, rest, places, n);
      assert order[..n] == order[..n - 1] + [order[n - 1]];
      assert [] + rest == rest;
      if Dies(h, roots, order[n - 1]) { places := [n - 1] + places; }
    }
  }

  /** What was queued stays in front; behind it come exactly those that die, the youngest first. */
  lemma QueueIs(h: Heap, roots: seq<Value>, queue: seq<Id>, order: seq<Id>) returns (places: seq<nat>)
    requires NoDangling(h) && Members(order) == h.userData.Keys
    ensures var all := Queue(h, roots, queue, order);
      |queue| <= |all| && all[..|queue|] == queue && Placed(order, all[|queue|..], places, |order|) &&
      forall id :: id in all[|queue|..] <==> Dies(h, roots, id)
  {
    var all := Queue(h, roots, queue, order);
    assert order[..|order|] == order;
    places := ToFinalizeDescends(h, roots, order, |order|);
    assert all[|queue|..] == ToFinalize(h, order, Reached(h, Targets(roots)), false);
    forall id | Dies(h, roots, id) ensures id in order { assert id in Members(order); }
  }

  // ----- what is left of the objects that stay -----

  /** The slot is taken from a weak place: its object goes, or it is a value whose finalizer has been considered. */
  ghost predicate Loses(h': Heap, v: Value, key: bool) {
    v.Object? && (!Live(h', v.ref) || (!key && v.ref.UserData? && v.ref.id in h'.finalized))
  }

  /** Flags are set for those that were unreachable from the roots; the others that stay keep theirs. */
  lemma FlagsAre(h: Heap, roots: seq<Value>, queue: seq<Id>, order: seq<Id>, id: Id)
    requires NoDangling(h) && SeedsLive(h, roots, queue) && Live(Collected(h, roots, queue, order), UserData(id))
    ensures id in Collected(h, roots, queue, order).finalized <==> id in h.finalized || !Reachable(h, Targets(roots), UserData(id))
  {
    ReachedMembers(h, Targets(roots));
    CollectionKeepsReachable(h, roots, queue, order);
    CollectionBasis(h, roots, queue, order);
  }

  /** Functions, threads, userdata and metatables stay as they were. */
  lemma RecordsStay(h: Heap, roots: seq<Value>, queue: seq<Id>, order: seq<Id>)
    requires NoDangling(h)
    ensures var h' := Collected(h, roots, queue, order);
      (forall id :: id in h'.functions ==> id in h.functions && h'.functions[id] == h.functions[id]) &&
      (forall id :: id in h'.threads ==> id in h.threads && h'.threads[id] == h.threads[id]) &&
      (forall id :: id in h'.userData ==> id in h.userData && h'.userData[id] == h.userData[id]) &&
      (forall id :: id in h'.tables ==> id in h.tables && h'.tables[id].metatable == h.tables[id].metatable)
  {
  }
  lemma SlotLost(h: Heap, marks: set<Ref>, v: Value, key: bool)
    requires Valid(h, v)
    ensures Loses(Survivors(h, marks), v, key) <==> Lost(h.finalized, marks, v, key)
  {
    if v.Object? { SurvivorsLive(h, marks, v.ref); }
  }

  /** Items of a table stay in their places. Only one with 'v' loses some, and exactly those that are lost. */
  lemma ItemsStay(h: Heap, roots: seq<Value>, queue: seq<Id>, order: seq<Id>, id: Id, i: nat)
    requires NoDangling(h) && SeedsLive(h, roots, queue) && id in Collected(h, roots, queue, order).tables
    requires i < |h.tables[id].items|
    ensures var h' := Collected(h, roots, queue, order); var v := h.tables[id].items[i];
      |h'.tables[id].items| == |h.tables[id].items| &&
      h'.tables[id].items[i] == if Weak(h, h.tables[id], 'v') && Loses(h', v, false) then Nil else v
  {
    var hr, marks := Flagged(RetireAll(h), Reached(h, Targets(roots)), false), Staying(h, roots, queue, order);
    CollectionBasis(h, roots, queue, order);
    assert NoDanglingFacts(hr);
    assert ValidTable(hr, hr.tables[id]);
    SameMode(h, hr, id);
    ModeIs(h, h.tables[id]);
    SlotLost(hr, marks, h.tables[id].items[i], false);
  }

  lemma EntryLeft(h: Heap, h': Heap, id: Id, i: nat)
    requires EntriesSurvive(h, h', id) && i < |h.tables[id].entries| && h.tables[id].entries[i].value != Nil
    ensures var e := h.tables[id].entries[i];
      |h'.tables[id].entries| == |h.tables[id].entries| &&
      if (Weak(h, h.tables[id], 'k') || Weak(h, h.tables[id], 'v')) && (Loses(h', e.key, true) || Loses(h', e.value, false))
      then h'.tables[id].entries[i].value == Nil && !h'.tables[id].entries[i].key.Object?
      else h'.tables[id].entries[i] == e
  {
    ModeIs(h, h.tables[id]);
  }

  /** Live entries of a table stay in their places. Only one with 'k' or 'v' loses some: those that lose their key or
      their value. What is left of a lost one is nothing that holds an object. */
  lemma EntriesStay(h: Heap, roots: seq<Value>, queue: seq<Id>, order: seq<Id>, id: Id, i: nat)
    requires NoDangling(h) && SeedsLive(h, roots, queue) && id in Collected(h, roots, queue, order).tables
    requires i < |h.tables[id].entries| && h.tables[id].entries[i].value != Nil
    ensures var h' := Collected(h, roots, queue, order); var e := h.tables[id].entries[i];
      |h'.tables[id].entries| == |h.tables[id].entries| &&
      if (Weak(h, h.tables[id], 'k') || Weak(h, h.tables[id], 'v')) && (Loses(h', e.key, true) || Loses(h', e.value, false))
      then h'.tables[id].entries[i].value == Nil && !h'.tables[id].entries[i].key.Object?
      else h'.tables[id].entries[i] == e
  {
    CollectionKeepsReachable(h, roots, queue, order);
    CollectionBasis(h, roots, queue, order);
    assert Live(Collected(h, roots, queue, order), Table(id));
    CollectionClearsWeakTables(h, roots, queue, order, id);
    EntryLeft(h, Collected(h, roots, queue, order), id, i);
  }
}
