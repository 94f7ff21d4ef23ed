/** What the coalescer is for: which writes reach a descriptor, and how many stores that saves. */
module Stores {
  import opened Words
  import opened VisibleItems
  import opened UnitTable
  import opened EagerClient

  /** The write is answered without running the stock write. */
  predicate Swallows(w: World, e: Event) {
    && e.Write? && Keyable(e.key)
    && UnitWriteRefOf(w.pending, e.room, e.key, e.value, Field(w.live, e.key), e.now, e.unitRef).0
  }

  /** The zeroes a flush writes for real. */
  function Written(w: World, at: u32, present: set<u64>): set<Key> {
    set k | k in DueKeys(w.pending, at) && k.guid in present
  }

  /** Descriptor stores an event makes. */
  function StoresOf(w: World, e: Event): nat {
    match e
    case Write(_, _, _, _, _) => if Swallows(w, e) then 0 else 1
    case Flush(at, present) => |Written(w, at, present)|
    case Create(_, _) => 0
  }

  function RunStores(w: World, es: seq<Event>): nat
    decreases es
  {
    if es == [] then 0 else StoresOf(w, es[0]) + RunStores(Step(w, es[0]), es[1..])
  }

  /** Stores of a client that applies every write. */
  function Writes(es: seq<Event>): nat {
    if es == [] then 0 else (if es[0].Write? then 1 else 0) + Writes(es[1..])
  }

  // ---- Which writes are swallowed ----------------------------------------

  /**
   * A zero is swallowed exactly when the field shows an item and the table holds or can take its key,
   * and then the key is pending from that moment with the unit it was written to.
   */
  lemma ZeroIsSwallowedIff(w: World, key: Key, now: u32, unitRef: u32, room: bool)
    requires 0 < key.guid < 0x1_0000_0000_0000
    ensures var e := Write(key, 0, now, unitRef, room);
      && (Swallows(w, e) <==> Field(w.live, key) != 0 && (key in w.pending || room))
      && (Swallows(w, e) ==>
            Step(w, e).live == w.live && Step(w, e).pending == w.pending[key := Swallowed(now, unitRef)])
      && (!Swallows(w, e) ==> Field(Step(w, e).live, key) == 0 && Step(w, e).pending == w.pending)
  {
  }

  /** The run leaves a key swallowed at `since` alone: no write to it, no new unit, no flush that finds it due. */
  predicate Leaves(es: seq<Event>, key: Key, since: u32) {
    forall e :: e in es ==> Spares(e, key, since)
  }

  predicate Spares(e: Event, key: Key, since: u32) {
    match e
    case Write(k, _, _, _, _) => k != key
    case Flush(at, _) => WrapSub(at, since) < RESTORE_WINDOW_MS
    case Create(guid, _) => guid != key.guid
  }

  /** `held` is `w` with `key` pending besides. */
  ghost predicate HeldBeside(w: World, held: World, key: Key, record: Swallowed) {
    && key !in w.pending && held.pending == w.pending[key := record]
    && held.live == w.live && held.gone == w.gone
  }

  lemma SparedStep(w: World, held: World, e: Event, key: Key, record: Swallowed)
    requires HeldBeside(w, held, key, record) && Spares(e, key, record.stamp)
    ensures HeldBeside(Step(w, e), Step(held, e), key, record)
    ensures StoresOf(held, e) == StoresOf(w, e)
  {
    match e
    case Write(_, _, _, _, _) => SparedWrite(w, held, e, key, record);
    case Flush(at, present) => SparedFlush(w, held, at, present, key, record);
    case Create(_, _) =>
  }

  lemma SparedWrite(w: World, held: World, e: Event, key: Key, record: Swallowed)
    requires HeldBeside(w, held, key, record) && e.Write? && e.key != key
    ensures HeldBeside(Step(w, e), Step(held, e), key, record) && Swallows(held, e) == Swallows(w, e)
  {
    BesideAnother(w.pending, key, record, e.room, e.key, e.value, Field(w.live, e.key), e.now, e.unitRef);
  }

  /** A pending key does not matter to the write of another one. */
  lemma BesideAnother(pending: map<Key, Swallowed>, key: Key, record: Swallowed, room: bool,
                      other: Key, value: u32, current: u32, now: u32, unitRef: u32)
    requires key !in pending && other != key
    ensures var (swallowed, after) := UnitWriteRefOf(pending, room, other, value, current, now, unitRef);
      && key !in after
      && UnitWriteRefOf(pending[key := record], room, other, value, current, now, unitRef)
         == (swallowed, after[key := record])
  {
    var held := pending[key := record];
    assert held - {other} == (pending - {other})[key := record];
    UpdatesCommute(pending, key, record, other, Swallowed(now, 0));
    if other in pending {
      UpdatesCommute(pending, key, record, other, pending[other].(stamp := now));
    }
    var after := UnitWriteOf(pending, room, other, value, current, now).1;
    UpdatesCommute(after, key, record, other, Swallowed(now, unitRef));
  }

  lemma UpdatesCommute(m: map<Key, Swallowed>, key: Key, record: Swallowed, other: Key, v: Swallowed)
    requires other != key
    ensures m[key := record][other := v] == m[other := v][key := record]
  {
  }

  lemma SparedFlush(w: World, held: World, at: u32, present: set<u64>, key: Key, record: Swallowed)
    requires HeldBeside(w, held, key, record) && WrapSub(at, record.stamp) < RESTORE_WINDOW_MS
    ensures HeldBeside(Step(w, Flush(at, present)), Step(held, Flush(at, present)), key, record)
    ensures Written(held, at, present) == Written(w, at, present)
  {
    var due := DueKeys(w.pending, at);
    assert DueKeys(held.pending, at) == due;
    assert held.pending - due == (w.pending - due)[key := record];
  }

  /** A pending key waits through whatever does not concern it, and costs nothing meanwhile. */
  lemma {:induction false} SparedRun(w: World, held: World, es: seq<Event>, key: Key, record: Swallowed)
    requires HeldBeside(w, held, key, record) && Leaves(es, key, record.stamp)
    ensures HeldBeside(Run(w, es), Run(held, es), key, record)
    ensures RunStores(held, es) == RunStores(w, es)
    ensures Field(Run(w, es).live, key) == Field(w.live, key)
    decreases es
  {
    if es != [] {
      assert es[0] in es;
      SparedStep(w, held, es[0], key, record);
      SparedField(w, es[0], key, record.stamp);
      SparedRun(Step(w, es[0]), Step(held, es[0]), es[1..], key, record);
    }
  }

  lemma SparedField(w: World, e: Event, key: Key, since: u32)
    requires key !in w.pending && Spares(e, key, since)
    ensures Field(Step(w, e).live, key) == Field(w.live, key)
  {
    if e.Create? {
      RestartedField(w.live, e.guid, e.shown, key);
    }
  }

  lemma {:induction false} RunConcat(w: World, a: seq<Event>, b: seq<Event>)
    ensures Run(w, a + b) == Run(Run(w, a), b)
    ensures RunStores(w, a + b) == RunStores(w, a) + RunStores(Run(w, a), b)
    decreases a
  {
    if a == [] {
      assert a + b == b;
    } else {
      assert (a + b)[1..] == a[1..] + b;
      RunConcat(Step(w, a[0]), a[1..], b);
    }
  }

  lemma RunOne(w: World, e: Event)
    ensures Run(w, [e]) == Step(w, e) && RunStores(w, [e]) == StoresOf(w, e)
  {
    assert [e][1..] == [];
  }

  /** A zero, whatever else happens meanwhile, and the write that ends it. */
  function Blink(zero: Event, meanwhile: seq<Event>, back: Event): seq<Event> {
    [zero] + meanwhile + [back]
  }

  /**
   * The write that ends a swallowed zero is itself swallowed exactly when it comes less than the
   * window later with the value still shown. Then the blink has made no store at all and the run is
   * left as if it had not happened; otherwise it has made exactly one, of the new value.
   */
  lemma BlinkCostsNothingIff(w: World, key: Key, t0: u32, ref0: u32, meanwhile: seq<Event>,
                             value: u32, t1: u32, ref1: u32, room: bool)
    requires 0 < key.guid < 0x1_0000_0000_0000 && key !in w.pending && Field(w.live, key) != 0 && value != 0
    requires Leaves(meanwhile, key, t0)
    ensures var zero, back := Write(key, 0, t0, ref0, true), Write(key, value, t1, ref1, room);
      var without, blinked := Run(w, meanwhile), Run(w, Blink(zero, meanwhile, back));
      var before := Run(w, [zero] + meanwhile);
      && blinked.pending == without.pending
      && (Swallows(before, back) <==> WrapSub(t1, t0) < 100 && value == Field(w.live, key))
      && (if WrapSub(t1, t0) < 100 && value == Field(w.live, key) then
            blinked.live == without.live && RunStores(w, Blink(zero, meanwhile, back)) == RunStores(w, meanwhile)
          else
            && blinked.live == without.live[key := value]
            && RunStores(w, Blink(zero, meanwhile, back)) == RunStores(w, meanwhile) + 1)
  {
    var zero, back := Write(key, 0, t0, ref0, true), Write(key, value, t1, ref1, room);
    var held := Step(w, zero);
    ZeroIsSwallowedIff(w, key, t0, ref0, true);
    SparedRun(w, held, meanwhile, key, Swallowed(t0, ref0));
    var waited, without := Run(held, meanwhile), Run(w, meanwhile);
    RunOne(w, zero);
    RunConcat(w, [zero], meanwhile);
    RunConcat(w, [zero] + meanwhile, [back]);
    RunOne(waited, back);
    assert waited.pending - {key} == without.pending;
  }

  /** Writes of an object without a GUID, or with one of a record still being filled in, always run the stock write. */
  lemma UnkeyedWritesLand(w: World, e: Event)
    requires e.Write? && (e.key.guid == 0 || e.key.guid >= 0x1_0000_0000_0000)
    ensures !Swallows(w, e) && Step(w, e).pending == w.pending && Field(Step(w, e).live, e.key) == e.value
  {
  }

  /** A nonzero write of a key that is not pending always runs the stock write. */
  lemma UnheldWritesLand(w: World, key: Key, value: u32, now: u32, unitRef: u32, room: bool)
    requires value != 0 && key !in w.pending
    ensures !Swallows(w, Write(key, value, now, unitRef, room))
    ensures Step(w, Write(key, value, now, unitRef, room)).pending == w.pending
  {
    assert w.pending - {key} == w.pending;
  }

  // ---- It never costs more than the eager client -------------------------

  lemma StoresStep(w: World, e: Event)
    ensures StoresOf(w, e) + |Step(w, e).pending| <= |w.pending| + (if e.Write? then 1 else 0)
  {
    match e
    case Write(_, _, _, _, _) => WriteOwes(w, e);
    case Flush(at, present) =>
      var due, left := DueKeys(w.pending, at), Step(w, e).pending;
      assert left.Keys == w.pending.Keys - due && due <= w.pending.Keys;
      SubsetSize(Written(w, at, present), due);
    case Create(_, _) =>
  }

  /** A write that is not stored leaves at most one more key pending, a stored one no more. */
  lemma WriteOwes(w: World, e: Event)
    requires e.Write?
    ensures |Step(w, e).pending| <= |w.pending| + (if Swallows(w, e) then 1 else 0)
  {
    var left := Step(w, e).pending;
    if Swallows(w, e) {
      assert left.Keys <= w.pending.Keys + {e.key};
      KeysFit(left, w.pending.Keys + {e.key});
    } else {
      assert left.Keys <= w.pending.Keys;
      KeysFit(left, w.pending.Keys);
    }
  }

  lemma KeysFit(m: map<Key, Swallowed>, keys: set<Key>)
    requires m.Keys <= keys
    ensures |m| <= |keys|
  {
    SubsetSize(m.Keys, keys);
  }

  lemma SubsetSize<T>(a: set<T>, b: set<T>)
    requires a <= b
    ensures |a| <= |b|
  {
    assert b == a + (b - a);
  }

  /** On every run, the stores made and still owed are at most the writes of the server. */
  lemma {:induction false} NeverMoreStores(w: World, es: seq<Event>)
    ensures RunStores(w, es) + |Run(w, es).pending| <= Writes(es) + |w.pending|
    decreases es
  {
    if es != [] {
      StoresStep(w, es[0]);
      NeverMoreStores(Step(w, es[0]), es[1..]);
    }
  }
}
