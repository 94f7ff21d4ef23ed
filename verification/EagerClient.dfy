/** The coalescing client against the eager one it stands in for, over whole runs. */
module EagerClient {
  import opened Words
  import opened VisibleItems
  import opened UnitTable

  /**
   * `live` is what the descriptors show, `server` what an eager client would
   * show: the last value written to each field. Fields never written read zero.
   * `gone` collects units a flush could no longer find.
   */
  datatype World = World(pending: map<Key, Swallowed>, live: map<Key, u32>, server: map<Key, u32>, gone: set<u64>)

  /**
   * `room` says whether the key's probe window had a free cell; `present` which units the object
   * manager knows. `Create` makes a unit, or makes one again under the GUID of one that is gone or is
   * being replaced; its fields start as `shown`, zero where that says nothing.
   */
  datatype Event =
    | Write(key: Key, value: u32, now: u32, unitRef: u32, room: bool)
    | Flush(at: u32, present: set<u64>)
    | Create(guid: u64, shown: map<u32, u32>)

  function Field(fields: map<Key, u32>, key: Key): u32 {
    if key in fields then fields[key] else 0
  }

  /** GUIDs of records still being filled in are not tracked. */
  predicate Keyable(key: Key) {
    key.guid != 0 && key.guid / TWO32 <= 0xffff
  }

  predicate DueKey(pending: map<Key, Swallowed>, key: Key, now: u32) {
    key in pending && WrapSub(now, pending[key].stamp) >= RESTORE_WINDOW_MS
  }

  function DueKeys(pending: map<Key, Swallowed>, now: u32): set<Key> {
    set k | k in pending && DueKey(pending, k, now)
  }

  /** Apply the zeroes of `keys` to the units that still exist. */
  function Zeroed(live: map<Key, u32>, keys: set<Key>, present: set<u64>): map<Key, u32> {
    map k | k in live.Keys + keys && (k in live || k.guid in present) ::
      if k in keys && k.guid in present then 0 else live[k]
  }

  function Absent(keys: set<Key>, present: set<u64>): set<u64> {
    set k | k in keys && k.guid !in present :: k.guid
  }

  /** Apply and forget the zeroes of `keys`. */
  function Applied(w: World, keys: set<Key>, present: set<u64>): World {
    World(w.pending - keys, Zeroed(w.live, keys, present), w.server, w.gone + Absent(keys, present))
  }

  /** Applying keys one at a time is applying them together. */
  lemma AppliedInTurn(w: World, keys: set<Key>, key: Key, present: set<u64>)
    ensures Applied(Applied(w, keys, present), {key}, present) == Applied(w, keys + {key}, present)
  {
    assert w.pending - keys - {key} == w.pending - (keys + {key});
    assert Zeroed(Zeroed(w.live, keys, present), {key}, present) == Zeroed(w.live, keys + {key}, present);
    assert Absent(keys, present) + Absent({key}, present) == Absent(keys + {key}, present);
  }

  lemma ZeroedOne(live: map<Key, u32>, key: Key, present: set<u64>)
    ensures Zeroed(live, {key}, present) == if key.guid in present then live[key := 0] else live
    ensures Absent({key}, present) == if key.guid in present then {} else {key.guid}
  {
  }

  lemma AppliedNothing(w: World, present: set<u64>)
    ensures Applied(w, {}, present) == w
  {
    assert Zeroed(w.live, {}, present) == w.live;
    assert w.pending - {} == w.pending;
    assert Absent({}, present) == {};
  }

  /** A table without a due cell has no due key. */
  lemma NoCellDue(hash: Hash, us: seq<UnitEntry>, cell: map<Key, nat>, now: u32)
    requires Represents(hash, us, cell) && NoneDue(us, 0, |us|, now)
    ensures DueKeys(PendingOf(hash, us, cell), now) == {}
  {
    forall k | k in cell ensures !DueKey(PendingOf(hash, us, cell), k, now) {
      assert !Due(us[cell[k]], now);
    }
  }

  lemma CellDue(hash: Hash, us: seq<UnitEntry>, cell: map<Key, nat>, i: nat, now: u32)
    requires Represents(hash, us, cell) && i < |us| && Due(us[i], now)
    ensures us[i].ItsKey() in DueKeys(PendingOf(hash, us, cell), now)
  {
  }

  lemma NoneLeft(w: World, keys: set<Key>, present: set<u64>, now: u32)
    requires keys <= DueKeys(w.pending, now) && DueKeys(Applied(w, keys, present).pending, now) == {}
    ensures keys == DueKeys(w.pending, now)
  {
    forall k | k in DueKeys(w.pending, now) ensures k in keys {
      assert k !in DueKeys(Applied(w, keys, present).pending, now);
    }
  }

  function Shown(shown: map<u32, u32>, slot: u32): u32 {
    if slot in shown then shown[slot] else 0
  }

  /** Every field of `guid` starts over. */
  function Restarted(fields: map<Key, u32>, guid: u64, shown: map<u32, u32>): map<Key, u32> {
    (map k | k in fields && k.guid != guid :: fields[k]) + (map s | s in shown :: Key(guid, s) := shown[s])
  }

  lemma RestartedField(fields: map<Key, u32>, guid: u64, shown: map<u32, u32>, key: Key)
    ensures Field(Restarted(fields, guid, shown), key) ==
            if key.guid == guid then Shown(shown, key.slot) else Field(fields, key)
  {
    assert key.guid == guid ==> key == Key(guid, key.slot);
  }

  function Step(w: World, e: Event): World {
    match e
    case Write(key, value, now, unitRef, room) =>
      if Keyable(key) then
        var (swallowed, pending) := UnitWriteRefOf(w.pending, room, key, value, Field(w.live, key), now, unitRef);
        World(pending, if swallowed then w.live else w.live[key := value], w.server[key := value], w.gone)
      else
        World(w.pending, w.live[key := value], w.server[key := value], w.gone)
    case Flush(at, present) => Applied(w, DueKeys(w.pending, at), present)
    case Create(guid, shown) =>
      World(w.pending, Restarted(w.live, guid, shown), Restarted(w.server, guid, shown), w.gone - {guid})
  }

  function Run(w: World, es: seq<Event>): World
    decreases es
  {
    if es == [] then w else Run(Step(w, es[0]), es[1..])
  }

  /** The server has removed what a pending key stands for; every other field shows the server's value. */
  predicate Agrees(w: World, key: Key) {
    if key in w.pending then Field(w.server, key) == 0
    else Field(w.live, key) == Field(w.server, key)
  }

  ghost predicate Refines(w: World) {
    && (forall key :: key in w.pending ==> Keyable(key))
    && forall key: Key :: key.guid !in w.gone ==> Agrees(w, key)
  }

  predicate Initial(w: World) {
    w.pending == map[] && w.live == w.server && w.gone == {}
  }

  /** No field of a unit being made again starts with an item while a zero of its predecessor is still pending. */
  predicate Clean(w: World, e: Event) {
    e.Create? ==> forall key :: key in w.pending && key.guid == e.guid ==> Shown(e.shown, key.slot) == 0
  }

  /** A step keeps the refinement exactly when it is clean, as every write and flush is. */
  lemma RefinesStep(w: World, e: Event)
    requires Refines(w)
    ensures Refines(Step(w, e)) <==> Clean(w, e)
  {
    if e.Create? {
      CreateRefines(w, e.guid, e.shown);
    } else {
      var w' := Step(w, e);
      forall key: Key | key.guid !in w'.gone ensures Agrees(w', key) {
        assert Agrees(w, key);
        if e.Flush? && DueKey(w.pending, key, e.at) {
          assert key in DueKeys(w.pending, e.at);
          assert key.guid in e.present;
        }
      }
    }
  }

  lemma CreateRefines(w: World, guid: u64, shown: map<u32, u32>)
    requires Refines(w)
    ensures Refines(Step(w, Create(guid, shown))) <==> Clean(w, Create(guid, shown))
  {
    var w' := Step(w, Create(guid, shown));
    forall key: Key
      ensures key.guid != guid && key.guid !in w'.gone ==> Agrees(w', key)
      ensures key.guid == guid ==> (Agrees(w', key) <==> (key in w.pending ==> Shown(shown, key.slot) == 0))
    {
      assert key.guid !in w.gone ==> Agrees(w, key);
      RestartedField(w.live, guid, shown, key);
      RestartedField(w.server, guid, shown, key);
    }
  }

  /** Every step of the run is clean. */
  predicate CleanRun(w: World, es: seq<Event>)
    decreases es
  {
    es == [] || (Clean(w, es[0]) && CleanRun(Step(w, es[0]), es[1..]))
  }

  lemma {:induction false} RunsRefine(w: World, es: seq<Event>)
    requires Refines(w) && CleanRun(w, es)
    ensures Refines(Run(w, es))
    decreases es
  {
    if es != [] {
      RefinesStep(w, es[0]);
      RunsRefine(Step(w, es[0]), es[1..]);
    }
  }

  /** A run refines the eager client at every point exactly when all its steps are clean. */
  lemma {:induction false} RefinesThroughoutIffClean(w: World, es: seq<Event>)
    requires Refines(w)
    ensures (forall n: nat :: n <= |es| ==> Refines(Run(w, es[..n]))) <==> CleanRun(w, es)
    decreases es
  {
    if es == [] {
      assert es[..0] == [];
    } else {
      var next, rest := Step(w, es[0]), es[1..];
      RefinesStep(w, es[0]);
      assert forall n: nat :: n <= |rest| ==> es[..n + 1][1..] == rest[..n];
      assert forall n: nat :: n <= |rest| ==> Run(w, es[..n + 1]) == Run(next, rest[..n]);
      assert Run(w, es[..0]) == w && Run(next, rest[..0]) == next;
      assert forall n: nat :: 0 < n <= |es| ==> Run(w, es[..n]) == Run(next, rest[..n - 1]);
      if Refines(next) {
        RefinesThroughoutIffClean(next, rest);
      } else {
        assert Run(w, es[..0 + 1]) == next;
      }
    }
  }

  /**
   * A unit made again with an item already in a field, while the zero of that field is still pending,
   * loses the item at the next flush after the window.
   */
  lemma RecreatedUnitLosesItem() returns (w: World, es: seq<Event>, key: Key)
    ensures Initial(w) && key.guid !in Run(w, es).gone
    ensures Run(w, es).pending == map[] && Field(Run(w, es).server, key) == 500 && Field(Run(w, es).live, key) == 0
  {
    key := Key(7, 3);
    w := World(map[], map[key := 500], map[key := 500], {});
    es := [Write(key, 0, 10, 1, true), Create(7, map[3 := 500]), Flush(200, {7})];
    var w1 := Step(w, es[0]);
    var w2 := Step(w1, es[1]);
    var w3 := Step(w2, es[2]);
    assert es[1..][1..] == [es[2]] && [es[2]][1..] == [];
    assert Run(w, es) == Run(w1, es[1..]) == Run(w2, es[1..][1..]) == Run(w3, []);
    assert w1.pending == map[key := Swallowed(10, 1)];
    RestartedField(w1.live, 7, map[3 := 500], key);
    RestartedField(w1.server, 7, map[3 := 500], key);
    assert DueKeys(w2.pending, 200) == {key};
  }

  /** A run in which units start with empty fields is clean, whatever is pending. */
  lemma {:induction false} EmptyStartsAreClean(w: World, es: seq<Event>)
    requires forall e :: e in es && e.Create? ==> forall slot :: slot in e.shown ==> e.shown[slot] == 0
    ensures CleanRun(w, es)
    decreases es
  {
    if es != [] {
      assert es[0] in es;
      EmptyStartsAreClean(Step(w, es[0]), es[1..]);
    }
  }

  /** A pending key of a unit that exists still shows an item. */
  predicate Occupied(w: World, key: Key) {
    key in w.pending ==> Keyable(key) && (key.guid in w.gone || Field(w.live, key) != 0)
  }

  /** The run does not make the unit again. */
  predicate NeverCreated(es: seq<Event>, guid: u64) {
    forall e :: e in es && e.Create? ==> e.guid != guid
  }

  lemma OccupiedStep(w: World, e: Event, key: Key)
    requires Occupied(w, key) && (e.Create? ==> e.guid != key.guid)
    ensures Occupied(Step(w, e), key)
  {
    if e.Create? {
      RestartedField(w.live, e.guid, e.shown, key);
    }
  }

  lemma {:induction false} RunsOccupied(w: World, es: seq<Event>, key: Key)
    requires Occupied(w, key) && NeverCreated(es, key.guid)
    ensures Occupied(Run(w, es), key)
    decreases es
  {
    if es != [] {
      assert es[0] in es;
      OccupiedStep(w, es[0], key);
      RunsOccupied(Step(w, es[0]), es[1..], key);
    }
  }

  /** A field's value after one event, for a client that applies every write. */
  function Eagerly(e: Event, key: Key, value: u32): u32 {
    match e
    case Write(k, v, _, _, _) => if k == key then v else value
    case Flush(_, _) => value
    case Create(guid, shown) => if guid == key.guid then Shown(shown, key.slot) else value
  }

  /** The last value a run gave a field, read off the events alone. */
  function LastWritten(es: seq<Event>, key: Key, otherwise: u32): u32
    decreases es
  {
    if es == [] then otherwise else LastWritten(es[1..], key, Eagerly(es[0], key, otherwise))
  }

  lemma {:induction false} ServerIsLastWritten(w: World, es: seq<Event>, key: Key)
    ensures Field(Run(w, es).server, key) == LastWritten(es, key, Field(w.server, key))
    decreases es
  {
    if es != [] {
      if es[0].Create? {
        RestartedField(w.server, es[0].guid, es[0].shown, key);
      }
      ServerIsLastWritten(Step(w, es[0]), es[1..], key);
    }
  }

  /**
   * On every clean run, for every field of a unit that exists, returning ones included: the field
   * shows the last value the server gave it, except that where a key is pending the server's last
   * value is zero, and the field still shows an item unless the unit has been made again.
   */
  lemma CoalescingRefinesEager(w: World, es: seq<Event>, key: Key)
    requires Initial(w) && CleanRun(w, es) && key.guid !in Run(w, es).gone
    ensures key !in Run(w, es).pending ==> Field(Run(w, es).live, key) == LastWritten(es, key, Field(w.server, key))
    ensures key in Run(w, es).pending ==> LastWritten(es, key, Field(w.server, key)) == 0
    ensures key in Run(w, es).pending && NeverCreated(es, key.guid) ==> Field(Run(w, es).live, key) != 0
  {
    RunsRefine(w, es);
    ServerIsLastWritten(w, es, key);
    assert Agrees(Run(w, es), key);
    if NeverCreated(es, key.guid) {
      RunsOccupied(w, es, key);
    }
  }

  /** Once every pending entry has aged, one flush makes every surviving field eager. */
  lemma FlushSettles(w: World, es: seq<Event>, now: u32, present: set<u64>, key: Key)
    requires Initial(w) && CleanRun(w, es)
    requires forall k :: k in Run(w, es).pending ==> DueKey(Run(w, es).pending, k, now)
    requires key.guid !in Step(Run(w, es), Flush(now, present)).gone
    ensures Step(Run(w, es), Flush(now, present)).pending == map[]
    ensures Field(Step(Run(w, es), Flush(now, present)).live, key) == LastWritten(es, key, Field(w.server, key))
  {
    var before := Run(w, es);
    RunsRefine(w, es);
    RefinesStep(before, Flush(now, present));
    ServerIsLastWritten(w, es, key);
    assert DueKeys(before.pending, now) == before.pending.Keys;
    assert Agrees(Step(before, Flush(now, present)), key);
  }

  /** Right after a flush, any field that differs from the eager client was zeroed inside the window. */
  lemma StaleFieldsAreYoung(w: World, now: u32, present: set<u64>, key: Key)
    requires Refines(w)
    requires var w' := Step(w, Flush(now, present));
             key.guid !in w'.gone && Field(w'.live, key) != Field(w'.server, key)
    ensures key in w.pending && WrapSub(now, w.pending[key].stamp) < RESTORE_WINDOW_MS
  {
    RefinesStep(w, Flush(now, present));
    assert Agrees(Step(w, Flush(now, present)), key);
  }

  /** A zero restored inside the window never reaches the screen and leaves nothing behind. */
  lemma FlickerIsInvisible(w: World, key: Key, value: u32, t0: u32, t1: u32, ref0: u32, ref1: u32, room: bool)
    requires Refines(w) && Keyable(key) && key.guid !in w.gone && key !in w.pending
    requires value != 0 && Field(w.live, key) == value && WrapSub(t1, t0) < RESTORE_WINDOW_MS
    ensures var w' := Step(Step(w, Write(key, 0, t0, ref0, true)), Write(key, value, t1, ref1, room));
            w'.live == w.live && w'.pending == w.pending && Field(w'.server, key) == Field(w.server, key)
  {
    var w1 := Step(w, Write(key, 0, t0, ref0, true));
    assert w1.pending - {key} == w.pending;
    assert Agrees(w, key);
  }
}
