/** Upvalues as shared variables: a cell points into the stack while its local is live and holds the value
    itself afterwards.  Every operation is tied to a store in which each variable has one place. */
module Upvalues {

  type Value(==, 0)
  type Place = nat
  type Id = nat

  import opened StackCapacity
  import opened Wrappers
  import ThreadState
  import CallStack

  /** `stack` is where the cell points, null once it points at its own storage. */
  datatype Upvalue = Upvalue(stack: array?<Value>, index: nat, storage: Value, next: Option<Id>)

  // ----- the linked list of open cells -----

  /** The slots of listed cells. */
  function Slots(cells: map<Id, Upvalue>, list: seq<Id>): (r: seq<nat>)
    ensures |r| == |list| && forall i :: 0 <= i < |r| ==> r[i] == if list[i] in cells then cells[list[i]].index else 0
  {
    seq(|list|, i requires 0 <= i < |list| => if list[i] in cells then cells[list[i]].index else 0)
  }

  function HeadOf(list: seq<Id>): Option<Id> {
    if list == [] then None else Some(list[0])
  }

  /** The cell at position `i` is open on the stack `at` and its next pointer leads to position `i + 1`. */
  predicate Linked(cells: map<Id, Upvalue>, list: seq<Id>, at: array?<Value>, length: nat, i: nat)
    requires i < |list|
  {
    list[i] in cells && cells[list[i]].stack == at && cells[list[i]].index < length &&
    cells[list[i]].next == HeadOf(list[i + 1..])
  }

  /** Of two listed cells the earlier one has the higher slot. */
  predicate Above(cells: map<Id, Upvalue>, list: seq<Id>, i: nat, j: nat)
    requires i < |list| && j < |list|
  {
    i < j && list[i] in cells && list[j] in cells ==> cells[list[i]].index > cells[list[j]].index
  }

  predicate Descending(cells: map<Id, Upvalue>, list: seq<Id>) {
    forall i, j {:trigger Above(cells, list, i, j)} :: 0 <= i < |list| && 0 <= j < |list| ==> Above(cells, list, i, j)
  }

  /** Exactly the open cells are listed, in strictly descending order of their slots. */
  predicate ListValid(cells: map<Id, Upvalue>, list: seq<Id>, at: array?<Value>, length: nat) {
    (forall i {:trigger Linked(cells, list, at, length, i)} :: 0 <= i < |list| ==> Linked(cells, list, at, length, i)) &&
    Descending(cells, list) &&
    forall u :: u in cells && cells[u].stack != null ==> u in list
  }

  function Inserted(list: seq<Id>, k: nat, u: Id): (r: seq<Id>)
    requires k <= |list|
    ensures |r| == |list| + 1 && r[k] == u
    ensures forall i :: 0 <= i < k ==> r[i] == list[i]
    ensures forall i :: k < i < |r| ==> r[i] == list[i - 1]
    ensures forall y :: y in r <==> y == u || y in list
  {
    var r := list[..k] + [u] + list[k..];
    assert forall i :: 0 <= i < |list| ==> list[i] == r[if i < k then i else i + 1];
    r
  }

  /** Where a cell for `index` belongs. */
  predicate FitsAt(cells: map<Id, Upvalue>, list: seq<Id>, k: nat, index: nat) {
    k <= |list| && (forall i :: 0 <= i < |list| ==> list[i] in cells) &&
    (forall i :: 0 <= i < k ==> cells[list[i]].index > index) && forall i :: k <= i < |list| ==> cells[list[i]].index < index
  }

  /** The cells once `u`, open on slot `index`, has been spliced in at position `k`. */
  function Spliced(cells: map<Id, Upvalue>, list: seq<Id>, k: nat, u: Id, at: array?<Value>, index: nat, storage: Value): map<Id, Upvalue>
    requires k <= |list| && (k > 0 ==> list[k - 1] in cells)
  {
    var added := cells[u := Upvalue(at, index, storage, HeadOf(list[k..]))];
    if k == 0 then added else added[list[k - 1] := cells[list[k - 1]].(next := Some(u))]
  }

  lemma SplicedLinked(cells: map<Id, Upvalue>, list: seq<Id>, k: nat, u: Id, at: array?<Value>, index: nat, storage: Value, length: nat, i: nat)
    requires ListValid(cells, list, at, length) && u !in cells && FitsAt(cells, list, k, index) && index < length && i <= |list|
    ensures Linked(Spliced(cells, list, k, u, at, index, storage), Inserted(list, k, u), at, length, i)
  {
    var r := Inserted(list, k, u);
    if i < k {
      assert Linked(cells, list, at, length, i);
      if i + 1 == k {
        assert r[i + 1..][0] == u;
      } else {
        assert r[i + 1..][0] == list[i + 1..][0];
        assert Above(cells, list, i, k - 1);
      }
    } else if i == k {
      assert r[k + 1..] == list[k..];
    } else {
      assert Linked(cells, list, at, length, i - 1);
      assert r[i + 1..] == list[i..];
      if k > 0 { assert Above(cells, list, k - 1, i - 1); }
    }
  }

  lemma SplicedValid(cells: map<Id, Upvalue>, list: seq<Id>, k: nat, u: Id, at: array?<Value>, index: nat, storage: Value, length: nat)
    requires ListValid(cells, list, at, length) && u !in cells && FitsAt(cells, list, k, index) && index < length
    ensures ListValid(Spliced(cells, list, k, u, at, index, storage), Inserted(list, k, u), at, length)
  {
    var cells', r := Spliced(cells, list, k, u, at, index, storage), Inserted(list, k, u);
    forall i | 0 <= i < |r| ensures Linked(cells', r, at, length, i) {
      SplicedLinked(cells, list, k, u, at, index, storage, length, i);
    }
    forall i, j | 0 <= i < |r| && 0 <= j < |r| ensures Above(cells', r, i, j) {
      assert Linked(cells', r, at, length, i) && Linked(cells', r, at, length, j);
      if i < j < k { assert Above(cells, list, i, j); }
      if i < k < j { assert Above(cells, list, i, j - 1); }
      if k < i < j { assert Above(cells, list, i - 1, j - 1); }
    }
  }

  /** The cells once the first of the list has been closed. */
  function ClosedFirst(cells: map<Id, Upvalue>, list: seq<Id>, value: Value): map<Id, Upvalue>
    requires list != [] && list[0] in cells
  {
    cells[list[0] := Upvalue(null, cells[list[0]].index, value, None)]
  }

  lemma ClosedFirstValid(cells: map<Id, Upvalue>, list: seq<Id>, at: array?<Value>, length: nat, value: Value)
    requires ListValid(cells, list, at, length) && list != [] && list[0] in cells
    ensures ListValid(ClosedFirst(cells, list, value), list[1..], at, length)
  {
    var rest, cells' := list[1..], ClosedFirst(cells, list, value);
    forall i | 0 <= i < |rest| ensures Linked(cells', rest, at, length, i) && rest[i] != list[0] {
      assert Linked(cells, list, at, length, i + 1);
      assert Above(cells, list, 0, i + 1);
      assert rest[i + 1..] == list[i + 2..];
    }
    forall i, j | 0 <= i < |rest| && 0 <= j < |rest| ensures Above(cells', rest, i, j) {
      assert Above(cells, list, i + 1, j + 1);
      assert rest[i] != list[0] && rest[j] != list[0];
    }
    assert list == [list[0]] + rest;
  }

  /** The cells once those listed point into another backing array. */
  function Relocated(cells: map<Id, Upvalue>, list: seq<Id>, to: array?<Value>): map<Id, Upvalue> {
    map u | u in cells :: if u in list then cells[u].(stack := to) else cells[u]
  }

  lemma RelocatedStep(cells: map<Id, Upvalue>, list: seq<Id>, at: array?<Value>, length: nat, to: array?<Value>, k: nat)
    requires ListValid(cells, list, at, length) && k < |list|
    ensures list[k] in Relocated(cells, list[..k], to)
    ensures var cells', u := Relocated(cells, list[..k], to), list[k];
            Relocated(cells, list[..k + 1], to) == cells'[u := cells'[u].(stack := to)] && cells'[u].next == HeadOf(list[k + 1..])
  {
    assert Linked(cells, list, at, length, k);
    assert list[..k + 1] == list[..k] + [list[k]];
  }

  lemma RelocatedValid(cells: map<Id, Upvalue>, list: seq<Id>, at: array?<Value>, length: nat, to: array?<Value>, length': nat)
    requires ListValid(cells, list, at, length) && length <= length'
    ensures ListValid(Relocated(cells, list, to), list, to, length')
  {
    var cells' := Relocated(cells, list, to);
    forall i | 0 <= i < |list| ensures Linked(cells', list, to, length', i) {
      assert Linked(cells, list, at, length, i);
    }
    forall i, j | 0 <= i < |list| && 0 <= j < |list| ensures Above(cells', list, i, j) {
      assert Above(cells, list, i, j);
    }
  }

  /** Only a closed cell's own storage differs. */
  lemma SameList(cells: map<Id, Upvalue>, cells': map<Id, Upvalue>, list: seq<Id>, at: array?<Value>, length: nat)
    requires ListValid(cells, list, at, length) && cells'.Keys == cells.Keys && at != null
    requires forall u :: u in cells ==> cells'[u] == cells[u] || (cells[u].stack == null && cells'[u].stack == null)
    ensures ListValid(cells', list, at, length)
  {
    forall i | 0 <= i < |list| ensures Linked(cells', list, at, length, i) && cells'[list[i]] == cells[list[i]] {
      assert Linked(cells, list, at, length, i);
    }
    forall i, j | 0 <= i < |list| && 0 <= j < |list| ensures Above(cells', list, i, j) {
      assert Above(cells, list, i, j);
    }
  }

  // ----- variables -----

  predicate SlotMatches(places: seq<Place>, store: map<Place, Value>, values: seq<Value>, nextPlace: Place, i: nat)
    requires i < |places| == |values|
  {
    places[i] < nextPlace && places[i] in store && store[places[i]] == values[i]
  }

  predicate SlotsApart(places: seq<Place>, i: nat, j: nat)
    requires i < |places| && j < |places|
  {
    i != j ==> places[i] != places[j]
  }

  /** Each stack slot stands for a variable of its own. */
  predicate SlotsMatch(places: seq<Place>, store: map<Place, Value>, values: seq<Value>, nextPlace: Place) {
    |places| == |values| &&
    (forall i {:trigger SlotMatches(places, store, values, nextPlace, i)} ::
      0 <= i < |places| ==> SlotMatches(places, store, values, nextPlace, i)) &&
    forall i, j {:trigger SlotsApart(places, i, j)} :: 0 <= i < |places| && 0 <= j < |places| ==> SlotsApart(places, i, j)
  }

  /** An open cell stands for the variable in its slot; a closed one holds its variable itself. */
  predicate CellMatches(u: Upvalue, place: Place, places: seq<Place>, store: map<Place, Value>, nextPlace: Place) {
    place < nextPlace && place in store &&
    if u.stack != null then u.index < |places| && places[u.index] == place
    else place !in places && store[place] == u.storage
  }

  predicate CellsApart(placeOf: map<Id, Place>, u: Id, v: Id)
    requires u in placeOf && v in placeOf
  {
    u != v ==> placeOf[u] != placeOf[v]
  }

  predicate CellValid(cells: map<Id, Upvalue>, placeOf: map<Id, Place>, places: seq<Place>, store: map<Place, Value>, nextPlace: Place, u: Id)
    requires u in cells && u in placeOf
  {
    CellMatches(cells[u], placeOf[u], places, store, nextPlace)
  }

  /** Every variable is in one place only, and every cell stands for a different one. */
  predicate VariablesValid(cells: map<Id, Upvalue>, placeOf: map<Id, Place>, places: seq<Place>, store: map<Place, Value>,
                           values: seq<Value>, nextPlace: Place) {
    SlotsMatch(places, store, values, nextPlace) && placeOf.Keys == cells.Keys &&
    (forall u {:trigger CellValid(cells, placeOf, places, store, nextPlace, u)} ::
      u in cells ==> CellValid(cells, placeOf, places, store, nextPlace, u)) &&
    forall u, v {:trigger CellsApart(placeOf, u, v)} :: u in cells && v in cells ==> CellsApart(placeOf, u, v)
  }

  /** The variable of a slot without an open cell has no cell at all. */
  lemma Uncaptured(cells: map<Id, Upvalue>, placeOf: map<Id, Place>, places: seq<Place>, store: map<Place, Value>,
                   values: seq<Value>, nextPlace: Place, v: Id, index: nat)
    requires VariablesValid(cells, placeOf, places, store, values, nextPlace) && index < |places| && v in cells
    ensures placeOf[v] == places[index] ==> cells[v].stack != null && cells[v].index == index
  {
    assert CellValid(cells, placeOf, places, store, nextPlace, v);
    if cells[v].stack != null { assert SlotsApart(places, cells[v].index, index); }
  }

  lemma CapturedVariables(cells: map<Id, Upvalue>, placeOf: map<Id, Place>, places: seq<Place>, store: map<Place, Value>,
                          values: seq<Value>, nextPlace: Place, list: seq<Id>, at: array<Value>, k: nat, u: Id, index: nat, storage: Value)
    requires VariablesValid(cells, placeOf, places, store, values, nextPlace) && ListValid(cells, list, at, |values|)
    requires u !in cells && FitsAt(cells, list, k, index) && index < |values|
    ensures VariablesValid(Spliced(cells, list, k, u, at, index, storage), placeOf[u := places[index]], places, store, values, nextPlace)
  {
    var cells', placeOf' := Spliced(cells, list, k, u, at, index, storage), placeOf[u := places[index]];
    forall v | v in cells' ensures CellValid(cells', placeOf', places, store, nextPlace, v) {
      if v != u {
        assert CellValid(cells, placeOf, places, store, nextPlace, v);
      } else {
        assert SlotMatches(places, store, values, nextPlace, index);
      }
    }
    forall v | v in cells ensures placeOf[v] != places[index] {
      Uncaptured(cells, placeOf, places, store, values, nextPlace, v, index);
      if cells[v].stack != null {
        var i :| 0 <= i < |list| && list[i] == v;
        assert cells[v].index != index;
      }
    }
    forall v, w | v in cells' && w in cells' ensures CellsApart(placeOf', v, w) {
      if v != u && w != u { assert CellsApart(placeOf, v, w); }
    }
  }

  /** Closing a cell keeps its variable in the cell; the slot stands for a new variable from then on. */
  lemma ClosedVariables(cells: map<Id, Upvalue>, placeOf: map<Id, Place>, places: seq<Place>, store: map<Place, Value>,
                        values: seq<Value>, nextPlace: Place, list: seq<Id>, at: array<Value>)
    requires VariablesValid(cells, placeOf, places, store, values, nextPlace) && ListValid(cells, list, at, |values|)
    requires list != [] && list[0] in cells && cells[list[0]].index < |values|
    ensures var index := cells[list[0]].index;
            VariablesValid(ClosedFirst(cells, list, values[index]), placeOf, places[index := nextPlace],
                           store[nextPlace := values[index]], values, nextPlace + 1)
  {
    var index, cells' := cells[list[0]].index, ClosedFirst(cells, list, values[cells[list[0]].index]);
    var places', store', next' := places[index := nextPlace], store[nextPlace := values[index]], nextPlace + 1;
    assert Linked(cells, list, at, |values|, 0);
    assert CellValid(cells, placeOf, places, store, nextPlace, list[0]);
    assert SlotMatches(places, store, values, nextPlace, index);
    forall i | 0 <= i < |places'| ensures SlotMatches(places', store', values, next', i) && (i != index ==> places'[i] != places[index]) {
      assert SlotMatches(places, store, values, nextPlace, i) && SlotsApart(places, i, index);
    }
    forall i, j | 0 <= i < |places'| && 0 <= j < |places'| ensures SlotsApart(places', i, j) {
      assert SlotsApart(places, i, j) && SlotMatches(places, store, values, nextPlace, i) && SlotMatches(places, store, values, nextPlace, j);
    }
    forall v | v in cells' ensures CellValid(cells', placeOf, places', store', next', v) {
      assert CellValid(cells, placeOf, places, store, nextPlace, v) && CellsApart(placeOf, v, list[0]);
    }
    forall v, w | v in cells' && w in cells' ensures CellsApart(placeOf, v, w) {
    }
  }

  /** Assigning a variable changes what that variable holds and nothing else. */
  lemma WrittenOpen(cells: map<Id, Upvalue>, placeOf: map<Id, Place>, places: seq<Place>, store: map<Place, Value>,
                    values: seq<Value>, nextPlace: Place, index: nat, value: Value)
    requires VariablesValid(cells, placeOf, places, store, values, nextPlace) && index < |values|
    ensures VariablesValid(cells, placeOf, places, store[places[index] := value], values[index := value], nextPlace)
  {
    var store', values' := store[places[index] := value], values[index := value];
    forall i | 0 <= i < |places| ensures SlotMatches(places, store', values', nextPlace, i) {
      assert SlotMatches(places, store, values, nextPlace, i) && SlotsApart(places, i, index);
    }
    forall i, j | 0 <= i < |places| && 0 <= j < |places| ensures SlotsApart(places, i, j) {
    }
    forall v | v in cells ensures CellValid(cells, placeOf, places, store', nextPlace, v) {
      assert CellValid(cells, placeOf, places, store, nextPlace, v);
    }
    forall v, w | v in cells && w in cells ensures CellsApart(placeOf, v, w) {
    }
  }

  lemma WrittenClosed(cells: map<Id, Upvalue>, placeOf: map<Id, Place>, places: seq<Place>, store: map<Place, Value>,
                      values: seq<Value>, nextPlace: Place, u: Id, value: Value)
    requires VariablesValid(cells, placeOf, places, store, values, nextPlace) && u in cells && cells[u].stack == null
    ensures VariablesValid(cells[u := cells[u].(storage := value)], placeOf, places, store[placeOf[u] := value], values, nextPlace)
  {
    var cells', store' := cells[u := cells[u].(storage := value)], store[placeOf[u] := value];
    assert CellValid(cells, placeOf, places, store, nextPlace, u);
    forall i | 0 <= i < |places| ensures SlotMatches(places, store', values, nextPlace, i) {
      assert SlotMatches(places, store, values, nextPlace, i);
    }
    forall v | v in cells' ensures CellValid(cells', placeOf, places, store', nextPlace, v) {
      assert CellValid(cells, placeOf, places, store, nextPlace, v) && CellsApart(placeOf, v, u);
    }
    forall v, w | v in cells' && w in cells' ensures CellsApart(placeOf, v, w) {
    }
  }

  /** New slots stand for new variables. */
  function Extended(places: seq<Place>, n: nat, nextPlace: Place): (r: seq<Place>)
    ensures |r| == |places| + n
    ensures forall i :: 0 <= i < |r| ==> r[i] == if i < |places| then places[i] else nextPlace + (i - |places|)
  {
    places + seq(n, i requires 0 <= i < n => nextPlace + i)
  }

  function ExtendedStore(store: map<Place, Value>, values: seq<Value>, from: nat, nextPlace: Place): map<Place, Value>
    requires from <= |values|
  {
    var added := Extended([], |values| - from, nextPlace);
    store + map p | p in added && p !in store :: values[p - nextPlace + from]
  }

  lemma GrownVariables(cells: map<Id, Upvalue>, placeOf: map<Id, Place>, places: seq<Place>, store: map<Place, Value>,
                       values: seq<Value>, nextPlace: Place, values': seq<Value>, list: seq<Id>, to: array<Value>)
    requires VariablesValid(cells, placeOf, places, store, values, nextPlace) && values <= values'
    requires forall p :: p in store ==> p < nextPlace
    requires forall i :: 0 <= i < |list| ==> list[i] in cells && cells[list[i]].stack != null
    ensures var n := |values'| - |values|;
            VariablesValid(Relocated(cells, list, to), placeOf, Extended(places, n, nextPlace),
                           ExtendedStore(store, values', |values|, nextPlace), values', nextPlace + n)
  {
    var n := |values'| - |values|;
    var places', store' := Extended(places, n, nextPlace), ExtendedStore(store, values', |values|, nextPlace);
    var added, next' := Extended([], n, nextPlace), nextPlace + n;
    forall i | 0 <= i < |places'| ensures SlotMatches(places', store', values', next', i) {
      if i < |places| {
        assert SlotMatches(places, store, values, nextPlace, i);
      } else {
        assert added[i - |places|] == places'[i];
      }
    }
    forall i, j | 0 <= i < |places'| && 0 <= j < |places'| ensures SlotsApart(places', i, j) {
      if i < |places| { assert SlotMatches(places, store, values, nextPlace, i); }
      if j < |places| { assert SlotMatches(places, store, values, nextPlace, j); }
      if i < |places| && j < |places| { assert SlotsApart(places, i, j); }
    }
    var cells' := Relocated(cells, list, to);
    forall v | v in cells ensures CellValid(cells', placeOf, places', store', next', v) {
      assert CellValid(cells, placeOf, places, store, nextPlace, v);
    }
    forall v, w | v in cells && w in cells ensures CellsApart(placeOf, v, w) {
    }
  }

  /** The list and the variables together. */
  predicate StateFacts(cells: map<Id, Upvalue>, list: seq<Id>, at: array<Value>, placeOf: map<Id, Place>, places: seq<Place>,
                       store: map<Place, Value>, values: seq<Value>, nextPlace: Place, nextCell: Id) {
    ListValid(cells, list, at, |values|) && VariablesValid(cells, placeOf, places, store, values, nextPlace) &&
    (forall p :: p in store ==> p < nextPlace) && forall u :: u in cells ==> u < nextCell
  }

  /** The same, to be taken apart only where StateFacts is named. */
  ghost predicate StateValid(cells: map<Id, Upvalue>, list: seq<Id>, at: array<Value>, placeOf: map<Id, Place>, places: seq<Place>,
                             store: map<Place, Value>, values: seq<Value>, nextPlace: Place, nextCell: Id) {
    placeOf.Keys == cells.Keys && |places| == |values| &&
    forall n {:trigger StateFacts(cells, list, at, placeOf, places, store, values, nextPlace, n)} ::
      n == nextCell ==> StateFacts(cells, list, at, placeOf, places, store, values, nextPlace, n)
  }

  lemma SplicedState(cells: map<Id, Upvalue>, list: seq<Id>, at: array<Value>, placeOf: map<Id, Place>, places: seq<Place>,
                     store: map<Place, Value>, values: seq<Value>, nextPlace: Place, u: Id, k: nat, index: nat)
    requires StateValid(cells, list, at, placeOf, places, store, values, nextPlace, u)
    requires FitsAt(cells, list, k, index) && index < |values|
    ensures StateValid(Spliced(cells, list, k, u, at, index, values[index]), Inserted(list, k, u), at,
                       placeOf[u := places[index]], places, store, values, nextPlace, u + 1)
  {
    assert StateFacts(cells, list, at, placeOf, places, store, values, nextPlace, u);
    SplicedValid(cells, list, k, u, at, index, values[index], |values|);
    CapturedVariables(cells, placeOf, places, store, values, nextPlace, list, at, k, u, index, values[index]);
  }

  /** The first cell of the list is no longer there, the others are where they were. */
  lemma ClosedSlots(cells: map<Id, Upvalue>, list: seq<Id>, at: array?<Value>, length: nat, value: Value)
    requires ListValid(cells, list, at, length) && list != [] && list[0] in cells
    ensures Slots(ClosedFirst(cells, list, value), list[1..]) == Slots(cells, list)[1..]
  {
    forall i | 0 < i < |list| ensures list[i] != list[0] {
      assert Above(cells, list, 0, i) && Linked(cells, list, at, length, i);
    }
  }

  lemma ClosedState(cells: map<Id, Upvalue>, list: seq<Id>, at: array<Value>, placeOf: map<Id, Place>, places: seq<Place>,
                    store: map<Place, Value>, values: seq<Value>, nextPlace: Place, nextCell: Id)
    requires StateValid(cells, list, at, placeOf, places, store, values, nextPlace, nextCell)
    requires list != [] && list[0] in cells && cells[list[0]].index < |values| == |places|
    ensures var index := cells[list[0]].index;
            StateValid(ClosedFirst(cells, list, values[index]), list[1..], at, placeOf, places[index := nextPlace],
                       store[nextPlace := values[index]], values, nextPlace + 1, nextCell)
    ensures Slots(ClosedFirst(cells, list, values[cells[list[0]].index]), list[1..]) == Slots(cells, list)[1..]
  {
    assert StateFacts(cells, list, at, placeOf, places, store, values, nextPlace, nextCell);
    ClosedFirstValid(cells, list, at, |values|, values[cells[list[0]].index]);
    ClosedSlots(cells, list, at, |values|, values[cells[list[0]].index]);
    ClosedVariables(cells, placeOf, places, store, values, nextPlace, list, at);
  }

  /** What stays the same while cells are closed: variables keep what they hold, and the slots below `from`
      stand for the same variables. */
  ghost predicate Kept(store0: map<Place, Value>, places0: seq<Place>, store: map<Place, Value>, places: seq<Place>, from: nat) {
    (forall p :: p in store0 ==> p in store && store[p] == store0[p]) &&
    |places| == |places0| && forall i :: 0 <= i < |places| && i < from ==> places[i] == places0[i]
  }

  lemma KeptStep(store0: map<Place, Value>, places0: seq<Place>, store: map<Place, Value>, places: seq<Place>, from: nat,
                 added: Place, index: nat, value: Value)
    requires Kept(store0, places0, store, places, from) && from <= index < |places| && added !in store
    ensures Kept(store0, places0, store[added := value], places[index := added], from)
  {
  }

  lemma GrownState(cells: map<Id, Upvalue>, list: seq<Id>, at: array<Value>, placeOf: map<Id, Place>, places: seq<Place>,
                   store: map<Place, Value>, values: seq<Value>, nextPlace: Place, nextCell: Id, values': seq<Value>, to: array<Value>)
    requires StateValid(cells, list, at, placeOf, places, store, values, nextPlace, nextCell) && values <= values'
    ensures var n := |values'| - |values|;
            StateValid(Relocated(cells, list, to), list, to, placeOf, Extended(places, n, nextPlace),
                       ExtendedStore(store, values', |values|, nextPlace), values', nextPlace + n, nextCell)
  {
    assert StateFacts(cells, list, at, placeOf, places, store, values, nextPlace, nextCell);
    forall i | 0 <= i < |list| ensures list[i] in cells && cells[list[i]].stack != null {
      assert Linked(cells, list, at, |values|, i);
    }
    RelocatedValid(cells, list, at, |values|, to, |values'|);
    GrownVariables(cells, placeOf, places, store, values, nextPlace, values', list, to);
    ExtendedBelow(store, values', |values|, nextPlace);
  }

  lemma ExtendedBelow(store: map<Place, Value>, values: seq<Value>, from: nat, nextPlace: Place)
    requires from <= |values| && forall p :: p in store ==> p < nextPlace
    ensures forall p :: p in ExtendedStore(store, values, from, nextPlace) ==> p < nextPlace + (|values| - from)
  {
    var added := Extended([], |values| - from, nextPlace);
    forall p | p in added ensures p < nextPlace + (|values| - from) {
      var i :| 0 <= i < |added| && added[i] == p;
    }
  }

  /** A list of results cut or padded to the number wanted. */
  function Adjusted(results: seq<Value>, wanted: nat, blank: Value): (r: seq<Value>)
    ensures |r| == wanted && forall i :: 0 <= i < wanted ==> r[i] == if i < |results| then results[i] else blank
  {
    seq(wanted, i requires 0 <= i < wanted => if i < |results| then results[i] else blank)
  }

  class UpvalueThread {
    var values: array<Value>       // the backing array of the stack
    var length: nat                // how much of it the stack uses
    var cells: map<Id, Upvalue>
    var openUpvalues: Option<Id>
    var nextCell: Id

    ghost var open: seq<Id>            // the list from openUpvalues on
    ghost var placeOf: map<Id, Place>  // the variable each cell stands for
    ghost var places: seq<Place>       // the variable each stack slot stands for
    ghost var store: map<Place, Value> // what each variable holds
    ghost var nextPlace: Place

    ghost predicate Valid()
      reads this, values
    {
      length == |places| <= values.Length && openUpvalues == HeadOf(open) &&
      StateValid(cells, open, values, placeOf, places, store, values[..length], nextPlace, nextCell)
    }

    lemma Facts()
      requires Valid()
      ensures StateFacts(cells, open, values, placeOf, places, store, values[..length], nextPlace, nextCell)
    {
    }

    predicate Readable(u: Id)
      reads this
    {
      u in cells && (cells[u].stack != null ==> cells[u].index < cells[u].stack.Length)
    }

    function Read(u: Id): Value
      requires Readable(u)
      reads this, cells[u].stack
    {
      if cells[u].stack != null then cells[u].stack[cells[u].index] else cells[u].storage
    }

    /** What a closure reads through a cell is what the variable holds. */
    lemma ReadsVariable(u: Id)
      requires Valid() && u in cells
      ensures Readable(u) && placeOf[u] in store && Read(u) == store[placeOf[u]]
    {
      Facts();
      assert CellValid(cells, placeOf, places, store, nextPlace, u);
      if cells[u].stack != null {
        var i :| 0 <= i < |open| && open[i] == u;
        assert Linked(cells, open, values, length, i);
        assert SlotMatches(places, store, values[..length], nextPlace, cells[u].index);
      }
    }

    constructor (capacity: nat, initial: Value)
      ensures Valid() && length == 0 && cells == map[] && fresh(values) && values.Length == capacity
    {
      values := new Value[capacity](_ => initial);
      length, cells, openUpvalues, nextCell := 0, map[], None, 0;
      open, placeOf, places, store, nextPlace := [], map[], [], map[], 0;
    }

    lemma Listed(i: nat)
      requires Valid() && i < |open|
      ensures open[i] in cells && cells[open[i]].stack == values && cells[open[i]].index < length
      ensures cells[open[i]].next == HeadOf(open[i + 1..])
      ensures placeOf[open[i]] == places[cells[open[i]].index]
    {
      Facts();
      assert Linked(cells, open, values, length, i);
      assert CellValid(cells, placeOf, places, store, nextPlace, open[i]);
    }

    /** Where a cell for `index` is, or belongs. */
    method FindCell(index: nat) returns (previous: Option<Id>, link: Option<Id>, ghost k: nat)
      requires Valid()
      ensures k <= |open| && link == HeadOf(open[k..]) && previous == if k == 0 then None else Some(open[k - 1])
      ensures forall i :: 0 <= i < |open| ==> open[i] in cells
      ensures forall i :: 0 <= i < k ==> cells[open[i]].index > index
      ensures forall i :: k <= i < |open| ==> cells[open[i]].index <= index
    {
      Facts();
      previous, link, k := None, openUpvalues, 0;
      forall i | 0 <= i < |open| ensures open[i] in cells {
        Listed(i);
      }
      while link.Some? && cells[link.value].index > index
        invariant 0 <= k <= |open| && link == HeadOf(open[k..])
        invariant previous == if k == 0 then None else Some(open[k - 1])
        invariant forall i :: 0 <= i < k ==> cells[open[i]].index > index
        decreases |open| - k
      {
        Listed(k);
        previous, link, k := link, cells[link.value].next, k + 1;
      }
      forall i | k <= i < |open| ensures cells[open[i]].index <= index {
        assert Above(cells, open, k, i);
      }
    }

    /** A new cell for `index` between two others. */
    method AddCell(index: nat, previous: Option<Id>, link: Option<Id>, ghost k: nat) returns (u: Id)
      requires Valid() && index < length && FitsAt(cells, open, k, index)
      requires link == HeadOf(open[k..]) && previous == if k == 0 then None else Some(open[k - 1])
      modifies `cells, `openUpvalues, `nextCell, `open, `placeOf
      ensures Valid() && open == Inserted(old(open), k, u) && placeOf == old(placeOf)[u := places[index]]
      ensures u !in old(cells) && u in cells && cells[u].index == index
    {
      Facts();
      u := nextCell;
      ghost var before, vs := cells, values[..length];
      SplicedState(cells, open, values, placeOf, places, store, vs, nextPlace, u, k, index);
      cells := cells[u := Upvalue(values, index, values[index], link)];
      if previous.None? {
        openUpvalues := Some(u);
      } else {
        cells := cells[previous.value := cells[previous.value].(next := Some(u))];
      }
      assert cells == Spliced(before, open, k, u, values, index, vs[index]);
      open, placeOf, nextCell := Inserted(open, k, u), placeOf[u := places[index]], nextCell + 1;
      assert values[..length] == vs;
    }

    /** A slot has one cell at most: capturing it again gives the same cell. */
    method CaptureUpvalue(index: nat) returns (u: Id)
      requires Valid() && index < length
      modifies `cells, `openUpvalues, `nextCell, `open, `placeOf
      ensures Valid() && u in open && u in cells && cells[u].index == index && u in placeOf && placeOf[u] == places[index]
      ensures placeOf == old(placeOf)[u := places[index]]
      ensures u in old(open) || (u !in old(cells) && forall i :: 0 <= i < |old(open)| ==>
                old(open)[i] in old(cells) && old(cells)[old(open)[i]].index != index)
    {
      Facts();
      var previous, link;
      ghost var k;
      previous, link, k := FindCell(index);
      if k < |open| { Listed(k); }
      if link.Some? && cells[link.value].index == index {
        return link.value;
      }
      forall i | k <= i < |open| ensures cells[open[i]].index < index {
        assert Above(cells, open, k, i);
      }
      assert FitsAt(cells, open, k, index);
      u := AddCell(index, previous, link, k);
    }

    /** A write through a closure is an assignment to the variable: the slot sees it while the cell is open,
        and so does every other closure that shares the cell. */
    method WriteUpvalue(u: Id, value: Value)
      requires Valid() && u in cells
      modifies `cells, `store, values
      ensures Valid() && store == old(store)[placeOf[u] := value]
    {
      Facts();
      assert CellValid(cells, placeOf, places, store, nextPlace, u);
      ReadsVariable(u);
      if cells[u].stack != null {
        ghost var index, before := cells[u].index, values[..length];
        assert u in open;
        var at := cells[u].stack;
        ghost var i := OpenHere(u);
        WrittenOpen(cells, placeOf, places, store, before, nextPlace, index, value);
        at[cells[u].index] := value;
        assert values[..length] == before[index := value];
      } else {
        WrittenClosed(cells, placeOf, places, store, values[..length], nextPlace, u, value);
        ghost var before := cells;
        cells := cells[u := cells[u].(storage := value)];
        SameList(before, cells, open, values, length);
      }
      store := store[placeOf[u] := value];
    }

    lemma OpenHere(u: Id) returns (i: nat)
      requires Valid() && u in cells && cells[u].stack != null
      ensures cells[u].stack == values && cells[u].index < length && i < |open| && open[i] == u
    {
      Facts();
      i :| 0 <= i < |open| && open[i] == u;
      assert Linked(cells, open, values, length, i);
    }

    /** What a local holds is what its variable holds. */
    lemma SlotHoldsVariable(i: nat)
      requires Valid() && i < length
      ensures |places| == length && places[i] in store && values[i] == store[places[i]]
    {
      Facts();
      assert SlotMatches(places, store, values[..length], nextPlace, i);
    }

    /** An assignment to a local is an assignment to its variable. */
    method SetLocal(index: nat, value: Value)
      requires Valid() && index < length
      modifies `store, values
      ensures Valid() && store == old(store)[places[index] := value]
      ensures values[..] == old(values[..])[index := value]
    {
      Facts();
      ghost var before := values[..length];
      WrittenOpen(cells, placeOf, places, store, before, nextPlace, index, value);
      assert SlotMatches(places, store, before, nextPlace, index);
      values[index] := value;
      store := store[places[index] := value];
      assert values[..length] == before[index := value];
    }

    /** The slots of the open cells, in the order of the list. */
    ghost function OpenSlots(): (r: seq<nat>)
      requires Valid()
      reads this, values
    {
      Slots(cells, open)
    }

    lemma OpenSlotsDescend()
      requires Valid()
      ensures Descending(cells, open) && ThreadState.Descending(OpenSlots()) && |OpenSlots()| == |open|
    {
      Facts();
      forall i, j | 0 <= i < j < |open| ensures OpenSlots()[i] > OpenSlots()[j] {
        Listed(i);
        Listed(j);
        assert Above(cells, open, i, j);
      }
    }

    /** The first cell of the list gets the value of its slot, which stands for a new variable from then on. */
    method CloseFirst(ghost from: nat)
      requires Valid() && openUpvalues.Some? && openUpvalues.value in cells && cells[openUpvalues.value].index >= from
      modifies `cells, `openUpvalues, `open, `places, `store, `nextPlace
      ensures Valid() && OpenSlots() == old(OpenSlots())[1..] && |open| == |old(open)| - 1
      ensures Kept(old(store), old(places), store, places, from) && cells.Keys == old(cells).Keys
      ensures forall u :: u in cells ==> cells[u] == old(cells)[u] || (cells[u].stack == null && old(cells)[u].index >= from)
    {
      var u := openUpvalues.value;
      var index := cells[u].index;
      Listed(0);
      SlotHoldsVariable(index);
      FreshPlace();
      ClosedState(cells, open, values, placeOf, places, store, values[..length], nextPlace, nextCell);
      KeptStep(store, places, store, places, from, nextPlace, index, values[index]);
      openUpvalues := cells[u].next;
      cells := cells[u := Upvalue(null, index, values[index], None)];
      places, store := places[index := nextPlace], store[nextPlace := values[index]];
      open, nextPlace := open[1..], nextPlace + 1;
    }

    lemma FreshPlace()
      requires Valid()
      ensures nextPlace !in store
    {
      Facts();
    }

    /** The list is sorted: when its first cell is below a slot, all are. */
    lemma AllBelow(from: nat)
      requires Valid() && (openUpvalues.Some? ==> openUpvalues.value in cells && cells[openUpvalues.value].index < from)
      ensures forall i :: 0 <= i < |open| ==> open[i] in cells && cells[open[i]].index < from
    {
      Facts();
      forall i | 0 <= i < |open| ensures open[i] in cells && cells[open[i]].index < from {
        Listed(i);
        Listed(0);
        assert Above(cells, open, 0, i);
      }
    }

    lemma FirstOpen()
      requires Valid() && openUpvalues.Some?
      ensures openUpvalues.value in cells && OpenSlots() != [] && OpenSlots()[0] == cells[openUpvalues.value].index
    {
      Listed(0);
    }

    /** Closing changes nothing that any closure reads; slots below `from` stay shared, the others are no longer. The
        cells that are closed are the first of the list, down to `from`. */
    method CloseUpvalues(from: nat)
      requires Valid()
      modifies `cells, `openUpvalues, `open, `places, `store, `nextPlace
      ensures Valid() && Kept(old(store), old(places), store, places, from) && cells.Keys == old(cells).Keys
      ensures OpenSlots() == ThreadState.ClosedFrom(old(OpenSlots()), from)
      ensures forall i :: 0 <= i < |open| ==> open[i] in cells && cells[open[i]].index < from
      ensures forall u :: u in cells ==> cells[u] == old(cells)[u] || (cells[u].stack == null && old(cells)[u].index >= from)
    {
      if openUpvalues.Some? { FirstOpen(); }
      while openUpvalues.Some? && cells[openUpvalues.value].index >= from
        invariant Valid() && Kept(old(store), old(places), store, places, from) && cells.Keys == old(cells).Keys
        invariant openUpvalues.Some? ==> openUpvalues.value in cells && OpenSlots() != [] && OpenSlots()[0] == cells[openUpvalues.value].index
        invariant ThreadState.ClosedFrom(OpenSlots(), from) == ThreadState.ClosedFrom(old(OpenSlots()), from)
        invariant forall u :: u in cells ==> cells[u] == old(cells)[u] || (cells[u].stack == null && old(cells)[u].index >= from)
        decreases |open|
      {
        CloseFirst(from);
        if openUpvalues.Some? { FirstOpen(); }
      }
      AllBelow(from);
    }

    /** Growing the stack keeps every variable: the cells that were open follow it to the new array. */
    method ReserveValues(required: nat, limit: nat, blank: Value)
      requires Valid() && required <= limit && values.Length <= limit
      modifies `values, `length, `cells, `places, `store, `nextPlace
      ensures Valid() && length == (if required > old(length) then required else old(length))
      ensures values[..old(length)] == old(values[..length]) && Kept(old(store), old(places), store, places[..old(length)], old(length))
      ensures values == old(values) || fresh(values)
    {
      Facts();
      if required <= length {
        return;
      }
      var grown := values;
      if required > values.Length {
        var capacity := GrownCapacity(values.Length, required, limit);
        grown := new Value[capacity](_ => blank);
        Copy(values, grown, length);
      }
      Adopt(grown, required);
    }

    /** The stack continues in an array that starts with its contents. */
    method Adopt(grown: array<Value>, required: nat)
      requires Valid() && length <= required <= grown.Length && grown[..length] == values[..length]
      modifies `values, `length, `cells, `places, `store, `nextPlace
      ensures Valid() && length == required && values == grown
      ensures |old(places)| == old(length) && places == Extended(old(places), required - old(length), old(nextPlace))
      ensures store == ExtendedStore(old(store), grown[..required], old(length), old(nextPlace))
      ensures forall p :: p in old(store) ==> p in store && store[p] == old(store)[p]
    {
      Facts();
      assert values[..length] <= grown[..required];
      GrownState(cells, open, values, placeOf, places, store, values[..length], nextPlace, nextCell, grown[..required], grown);
      if grown != values {
        MoveCells(grown);
      } else {
        Unmoved();
      }
      store := ExtendedStore(store, grown[..required], length, nextPlace);
      places, nextPlace := Extended(places, required - length, nextPlace), nextPlace + (required - length);
      values, length := grown, required;
    }

    static method Copy(source: array<Value>, target: array<Value>, count: nat)
      requires count <= source.Length && count <= target.Length && source != target
      modifies target
      ensures target[..count] == source[..count]
    {
      var i := 0;
      while i < count
        invariant 0 <= i <= count && target[..i] == source[..i]
      {
        target[i] := source[i];
        i := i + 1;
      }
    }

    lemma Unmoved()
      requires Valid()
      ensures Relocated(cells, open, values) == cells
    {
      forall u | u in cells && u in open ensures cells[u].stack == values {
        var i :| 0 <= i < |open| && open[i] == u;
        Listed(i);
      }
    }

    /** The open cells are made to point into the new array, one after the other. */
    method MoveCells(to: array<Value>)
      requires Valid()
      modifies `cells
      ensures cells == Relocated(old(cells), open, to)
    {
      Facts();
      ghost var before := cells;
      var link := openUpvalues;
      ghost var k := 0;
      assert cells == Relocated(before, open[..0], to);
      while link.Some?
        invariant 0 <= k <= |open| && link == HeadOf(open[k..])
        invariant cells == Relocated(before, open[..k], to)
        decreases |open| - k
      {
        RelocatedStep(before, open, values, length, to, k);
        var u := link.value;
        cells := cells[u := cells[u].(stack := to)];
        link, k := cells[u].next, k + 1;
      }
      assert open[..k] == open;
    }

    /** A return closes the callee's cells, hands its results down to where the caller wants them and pads with
        nil. No closure reads anything else than before: no open cell lies between where the results go and the
        callee's registers. */
    method CompleteLuaReturn(ghost frames: seq<CallStack.Activation>, base: nat, resultBase: nat, firstResult: nat, resultCount: nat,
                             outputCount: nat, blank: Value)
      requires Valid() && resultBase <= firstResult && firstResult + resultCount <= length && resultBase + outputCount <= length
      requires frames != [] && frames[|frames| - 1].base == base && frames[|frames| - 1].resultBase == resultBase
      requires ThreadState.WindowsRise(frames) && ThreadState.Owned(frames, OpenSlots())
      modifies `cells, `openUpvalues, `open, `places, `store, `nextPlace, values
      ensures Valid() && cells.Keys == old(cells).Keys && SameReads(old(store), store)
      ensures values[resultBase..resultBase + outputCount] ==
              Adjusted(old(values[firstResult..firstResult + resultCount]), outputCount, blank)
    {
      ghost var vs := values[..length];
      ThreadState.NoCellInWindow(frames, OpenSlots());
      NoneBetween(resultBase, base);
      StoredCells();
      CloseUpvalues(base);
      forall u | u in cells && cells[u].stack != null ensures cells[u].index < resultBase {
        ghost var i := OpenHere(u);
        assert cells[open[i]].index < base;
      }
      assert values[..length] == vs;
      HandDown(resultBase, firstResult, resultCount, outputCount, blank);
    }

    lemma NoneBetween(resultBase: nat, base: nat)
      requires Valid() && forall c :: c in OpenSlots() ==> c < resultBase || base <= c
      ensures forall u :: u in cells && cells[u].stack != null ==> cells[u].index < resultBase || cells[u].index >= base
    {
      forall u | u in cells && cells[u].stack != null ensures cells[u].index < resultBase || cells[u].index >= base {
        var i := OpenHere(u);
        assert OpenSlots()[i] in OpenSlots();
      }
    }

    lemma StoredCells()
      requires Valid()
      ensures forall u :: u in cells ==> placeOf[u] in store
    {
      Facts();
      forall u | u in cells ensures placeOf[u] in store { assert CellValid(cells, placeOf, places, store, nextPlace, u); }
    }

    /** Every variable that a cell stands for holds what it held. */
    ghost predicate SameReads(store0: map<Place, Value>, store': map<Place, Value>)
      reads this
    {
      forall u :: u in cells ==>
        u in placeOf && placeOf[u] in store' && placeOf[u] in store0 && store'[placeOf[u]] == store0[placeOf[u]]
    }

    method HandDown(resultBase: nat, firstResult: nat, resultCount: nat, outputCount: nat, blank: Value)
      requires Valid() && resultBase <= firstResult && firstResult + resultCount <= length && resultBase + outputCount <= length
      requires forall u :: u in cells && cells[u].stack != null ==> cells[u].index < resultBase
      modifies `store, values
      ensures Valid() && SameReads(old(store), store)
      ensures values[resultBase..resultBase + outputCount] ==
              Adjusted(old(values[firstResult..firstResult + resultCount]), outputCount, blank)
    {
      Facts();
      ghost var results := Adjusted(values[firstResult..firstResult + resultCount], outputCount, blank);
      forall u | u in cells ensures u in placeOf && placeOf[u] in store {
        assert CellValid(cells, placeOf, places, store, nextPlace, u);
      }
      var i := 0;
      while i < outputCount
        invariant 0 <= i <= outputCount && Valid() && SameReads(old(store), store)
        invariant forall j :: resultBase <= j < resultBase + i ==> values[j] == results[j - resultBase]
        invariant forall j :: resultBase + i <= j < length ==> values[j] == old(values[j])
      {
        ghost var slot := resultBase + i;
        forall u | u in cells ensures placeOf[u] != places[slot] {
          Facts();
          Uncaptured(cells, placeOf, places, store, values[..length], nextPlace, u, slot);
        }
        SetLocal(resultBase + i, if i < resultCount then values[firstResult + i] else blank);
        i := i + 1;
      }
    }
  }
}
