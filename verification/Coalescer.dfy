/** The visible-item write coalescer: unit table, player mirror and recently-seen units in one object. */
module Coalescing {
  import opened Words
  import opened VisibleItems
  import opened Options
  import opened UnitTable
  import opened PlayerMirror
  import opened SeenUnits
  import opened Flicker

  /** The two passes over a seen unit's slots, and the verdict. */
  method Compare(was: SeenUnit, shown: Fields, now: u32) returns (entry: SeenUnit, downgrade: bool)
    ensures entry.guid == was.guid && entry.used == was.used && entry.stamp == now && entry.snapshot == shown
    ensures forall s :: 0 <= s < VISIBLE_SLOTS ==>
      entry.zeroStamp[s] == Pruned(Marked(was.snapshot[s], shown[s], was.zeroStamp[s], now), now)
    ensures entry.pending <==> exists s :: 0 <= s < VISIBLE_SLOTS && entry.zeroStamp[s] != 0
    ensures downgrade <==> OnlyRestores(was, shown, now)
  {
    var stored, stamps := was.snapshot, was.zeroStamp;
    var restored, wentZero, allRestored := 0, 0, true;
    for s := 0 to VISIBLE_SLOTS
      invariant forall r :: 0 <= r < s ==> stamps[r] == Marked(stored[r], shown[r], was.zeroStamp[r], now)
      invariant forall r :: s <= r < VISIBLE_SLOTS ==> stamps[r] == was.zeroStamp[r]
      invariant restored >= 0 && wentZero >= 0
      invariant restored > 0 ==> exists r :: 0 <= r < s && Restores(stored[r], shown[r], was.zeroStamp[r], now)
      invariant wentZero == 0 && allRestored && restored == 0 ==> forall r :: 0 <= r < s ==> stored[r] == shown[r]
      invariant wentZero == 0 && allRestored <==>
        forall r :: 0 <= r < s && stored[r] != shown[r] ==> Restores(stored[r], shown[r], was.zeroStamp[r], now)
    {
      if stored[s] == shown[s] {
        continue;
      }
      if stored[s] != 0 && shown[s] == 0 {
        wentZero := wentZero + 1;
        stamps := stamps[s := now];
      } else if stored[s] == 0 && shown[s] != 0 {
        if stamps[s] != 0 && WrapSub(now, stamps[s]) < RESTORE_WINDOW_MS {
          restored := restored + 1;
          stamps := stamps[s := 0];
        } else {
          allRestored := false;
        }
      } else {
        stamps := stamps[s := 0];
        allRestored := false;
      }
    }
    downgrade := restored > 0 && wentZero == 0 && allRestored;
    var pending := false;
    ghost var marked := stamps;
    for s := 0 to VISIBLE_SLOTS
      invariant forall r :: 0 <= r < s ==> stamps[r] == Pruned(marked[r], now)
      invariant forall r :: s <= r < VISIBLE_SLOTS ==> stamps[r] == marked[r]
      invariant pending <==> exists r :: 0 <= r < s && stamps[r] != 0
    {
      if stamps[s] == 0 {
        continue;
      }
      if WrapSub(now, stamps[s]) >= RESTORE_WINDOW_MS {
        stamps := stamps[s := 0];
      } else {
        pending := true;
      }
    }
    entry := SeenUnit(was.guid, now, shown, stamps, pending, was.used);
  }

  class Coalescer {
    const hash: Hash
    const units: array<UnitEntry>
    var unitCount: nat
    /** The cell each pending key occupies. */
    ghost var cell: map<Key, nat>

    const player: array<PlayerSlot>
    var playerCount: nat
    const lastValue: array<u32>
    const equipGuids: array<u64>
    var bound: bool

    const seen: array<SeenUnit>
    /** The entry each tracked unit occupies, and every sighting since it claimed it. */
    ghost var tenure: map<u64, Tenure>
    /** Every sighting so far, with the entry it went through. */
    ghost var visits: seq<Visit>

    ghost predicate Valid()
      reads this, units, player, lastValue, equipGuids, seen
    {
      ValidUnits() && ValidPlayer() && ValidSeen()
    }

    ghost predicate ValidUnits()
      reads this, units
    {
      Represents(hash, units[..], cell) && unitCount == |cell|
    }

    ghost function Pending(): map<Key, Swallowed>
      reads this, units
      requires ValidUnits()
    {
      PendingOf(hash, units[..], cell)
    }

    ghost predicate ValidPlayer()
      reads this, player, lastValue, equipGuids
    {
      && player.Length == lastValue.Length == equipGuids.Length == VISIBLE_SLOTS
      && lastValue as object != equipGuids
      && playerCount == CountValid(player[..])
    }

    /** Everything held about one visible slot. */
    function View(slot: nat): SlotView
      reads this, player, lastValue, equipGuids
      requires slot < player.Length && slot < lastValue.Length && slot < equipGuids.Length
    {
      SlotView(player[slot], lastValue[slot], equipGuids[slot])
    }

    ghost predicate ValidSeen()
      reads this, seen
    {
      Tracked(seen[..], tenure) && tenure == Tenures(visits)
    }

    constructor (hash: Hash)
      ensures Valid() && fresh(units) && fresh(player) && fresh(lastValue) && fresh(equipGuids) && fresh(seen)
      ensures this.hash == hash && Pending() == map[] && !bound && visits == []
      ensures forall slot :: 0 <= slot < VISIBLE_SLOTS ==> View(slot) == NEW_SLOT
    {
      player := new PlayerSlot[VISIBLE_SLOTS](i => EMPTY_PLAYER_SLOT);
      playerCount := 0;
      lastValue := new u32[VISIBLE_SLOTS](i => 0);
      equipGuids := new u64[VISIBLE_SLOTS](i => 0);
      bound := false;
      seen := new SeenUnit[SEEN_UNITS](i => EMPTY_SEEN);
      tenure, visits := map[], [];
      this.hash := hash;
      units := new UnitEntry[UNIT_TABLE_LEN](i => EMPTY_UNIT);
      unitCount := 0;
      cell := map[];
      new;
      NoneValidIffZero(player[..]);
      EmptyTable(hash, units[..]);
    }

    /** Both pending pools are empty. */
    method Idle() returns (idle: bool)
      requires ValidUnits() && ValidPlayer()
      ensures idle <==> Pending() == map[] && forall slot :: 0 <= slot < player.Length ==> !player[slot].valid
    {
      idle := playerCount == 0 && unitCount == 0;
      NoneValidIffZero(player[..]);
      assert idle ==> forall slot :: 0 <= slot < player.Length ==> player[slot] == player[..][slot];
      assert Pending() == map[] <==> cell == map[] by {
        assert Pending().Keys == cell.Keys;
      }
    }

    method UnitFind(key: Key) returns (found: Option<nat>)
      requires ValidUnits()
      ensures found == if key in cell then Some(cell[key]) else None
    {
      var start := hash(key);
      for step := 0 to UNIT_PROBE_LIMIT
        invariant forall s :: 0 <= s < step ==> !(units[Probe(start, s)].used && units[Probe(start, s)].ItsKey() == key)
      {
        var idx := Probe(start, step);
        if units[idx].used && units[idx].ItsKey() == key {
          return Some(idx);
        }
      }
      if key in cell {
        WindowStep(start, cell[key]);
        assert false;
      }
      return None;
    }

    method UnitInsert(key: Key, now: u32, unitRef: u32) returns (inserted: bool)
      requires ValidUnits() && key !in cell
      modifies this`unitCount, this`cell, units
      ensures ValidUnits()
      ensures inserted == old(HasRoom(hash, units[..], key))
      ensures Pending() == if inserted then old(Pending())[key := Swallowed(now, unitRef)] else old(Pending())
    {
      var start := hash(key);
      for step := 0 to UNIT_PROBE_LIMIT
        invariant forall s :: 0 <= s < step ==> units[Probe(start, s)].used
        invariant unchanged(this) && unchanged(units)
      {
        var idx := Probe(start, step);
        if units[idx].used {
          continue;
        }
        assert !units[..][Probe(start, step)].used;
        Fill(idx, UnitEntry(key.guid, key.slot, now, unitRef, true));
        return true;
      }
      return false;
    }

    /** Store a new entry into a free cell of its window. */
    method Fill(idx: nat, e: UnitEntry)
      requires ValidUnits() && idx < units.Length && !units[idx].used
      requires e.used && e.ItsKey() !in cell && InWindow(hash, e.ItsKey(), idx)
      modifies this`unitCount, this`cell, units
      ensures ValidUnits()
      ensures Pending() == old(Pending())[e.ItsKey() := Swallowed(e.stamp, e.unitRef)]
    {
      Occupy(hash, units[..], cell, idx, e);
      units[idx] := e;
      unitCount := unitCount + 1;
      cell := cell[e.ItsKey() := idx];
      assert units[..] == old(units[..])[idx := e];
    }

    method UnitRemove(idx: nat)
      requires ValidUnits() && idx < units.Length
      modifies this`unitCount, this`cell, units
      ensures ValidUnits()
      ensures Pending() == if old(units[idx].used) then old(Pending()) - {old(units[idx].ItsKey())} else old(Pending())
      ensures units[..] == old(units[..])[idx := units[idx]] && !units[idx].used
    {
      if units[idx].used {
        Vacate(hash, units[..], cell, idx);
        cell := cell - {units[idx].ItsKey()};
        units[idx] := units[idx].(used := false);
        unitCount := unitCount - 1;
        assert units[..] == old(units[..])[idx := units[idx]];
      }
    }

    method UnitWrite(key: Key, value: u32, current: u32, now: u32) returns (swallowed: bool)
      requires ValidUnits()
      modifies this`unitCount, this`cell, units
      ensures ValidUnits()
      ensures (swallowed, Pending()) ==
        UnitWriteOf(old(Pending()), old(HasRoom(hash, units[..], key)), key, value, current, now)
    {
      var found := UnitFind(key);
      if value != 0 {
        if found.None? {
          assert Pending() - {key} == Pending();
          return false;
        }
        var idx := found.value;
        var age := WrapSub(now, units[idx].stamp);
        UnitRemove(idx);
        return age < RESTORE_WINDOW_MS && value == current;
      }
      if current == 0 {
        return false;
      }
      match found {
        case Some(idx) =>
          Refresh(hash, units[..], cell, idx, now, units[idx].unitRef);
          units[idx] := units[idx].(stamp := now);
          assert units[..] == old(units[..])[idx := units[idx]];
          return true;
        case None =>
          swallowed := UnitInsert(key, now, 0);
      }
    }

    /** `UnitWrite`, with the unit reference recorded when the zero is swallowed. */
    method UnitWriteRef(key: Key, value: u32, current: u32, now: u32, unitRef: u32) returns (swallowed: bool)
      requires ValidUnits()
      modifies this`unitCount, this`cell, units
      ensures ValidUnits()
      ensures (swallowed, Pending()) ==
        UnitWriteRefOf(old(Pending()), old(HasRoom(hash, units[..], key)), key, value, current, now, unitRef)
    {
      swallowed := UnitWrite(key, value, current, now);
      if swallowed && value == 0 {
        assert key in Pending();
        var found := UnitFind(key);
        label before:
        var idx := found.value;
        Refresh(hash, units[..], cell, idx, units[idx].stamp, unitRef);
        units[idx] := units[idx].(unitRef := unitRef);
        assert units[..] == old@before(units[..])[idx := units[idx]];
      }
    }

    /** The first due cell at or after `from`, or none when no cell from there on is due. */
    method UnitDue(from: nat, now: u32) returns (due: Option<nat>)
      requires ValidUnits() && from <= units.Length
      ensures due.Some? ==> from <= due.value < units.Length && Due(units[due.value], now)
      ensures NoneDue(units[..], from, if due.Some? then due.value else units.Length, now)
    {
      if unitCount == 0 {
        return None;
      }
      for i := from to units.Length
        invariant forall j :: from <= j < i ==> !Due(units[j], now)
      {
        if Due(units[i], now) {
          return Some(i);
        }
      }
      return None;
    }

    method Unbind()
      modifies this`bound
      ensures !bound
    {
      bound := false;
    }

    /** Populate the mirrors from live descriptor state. */
    method Bind(equip: seq<u64>, values: seq<u32>)
      requires ValidPlayer() && |equip| == |values| == VISIBLE_SLOTS
      modifies this`bound, lastValue, equipGuids
      ensures ValidPlayer() && bound
      ensures forall slot :: 0 <= slot < player.Length ==>
        View(slot) == SlotView(player[slot], values[slot], equip[slot])
    {
      forall slot | 0 <= slot < equipGuids.Length {
        equipGuids[slot] := equip[slot];
      }
      forall slot | 0 <= slot < lastValue.Length {
        lastValue[slot] := values[slot];
      }
      bound := true;
      assert player[..] == old(player[..]);
    }

    /** Store one slot's pending entry and keep the count in step. */
    method SetEntry(slot: nat, entry: PlayerSlot)
      requires ValidPlayer() && slot < player.Length
      modifies this`playerCount, player
      ensures ValidPlayer()
      ensures player[..] == old(player[..])[slot := entry]
    {
      CountValidUpdate(player[..], slot, entry);
      if player[slot].valid && !entry.valid {
        playerCount := playerCount - 1;
      } else if !player[slot].valid && entry.valid {
        playerCount := playerCount + 1;
      }
      player[slot] := entry;
      assert player[..] == old(player[..])[slot := entry];
    }

    method PlayerVisibleWrite(slot: nat, value: u32, now: u32) returns (verdict: PlayerWrite)
      requires ValidPlayer() && slot < player.Length
      modifies this`playerCount, player, lastValue
      ensures ValidPlayer()
      ensures (View(slot), verdict) == VisibleWriteOf(old(View(slot)), bound, value, now)
      ensures forall s :: 0 <= s < player.Length && s != slot ==> View(s) == old(View(s))
    {
      var entry := player[slot];
      if value != 0 {
        if !entry.valid {
          lastValue[slot] := value;
          assert player[..] == old(player[..]);
          return Passthrough;
        }
        if value != entry.value {
          SetEntry(slot, Cleared(entry));
          lastValue[slot] := value;
          assert player[..] == old(player[..])[slot := Cleared(entry)];
          return Passthrough;
        }
        if !entry.hasDeferred {
          SetEntry(slot, entry.(valid := false));
          return SwallowAndScan;
        }
        var deferred := entry.deferred;
        SetEntry(slot, Cleared(entry));
        if deferred == 0 {
          return Passthrough;
        }
        var guid := equipGuids[slot];
        if guid == 0 {
          return SwallowAndScan;
        }
        return SwallowDeferredItem(guid, deferred);
      }
      var previous := lastValue[slot];
      if previous == 0 {
        return Passthrough;
      }
      if bound && equipGuids[slot] == 0 {
        lastValue[slot] := 0;
        assert player[..] == old(player[..]);
        return ApplyZero;
      }
      SetEntry(slot, entry.(value := previous, stamp := now, valid := true, hasDeferred := false));
      return Swallow;
    }

    /** A write to one dword of the inventory GUID region; only the equipment pairs are mirrored. */
    method PlayerInvGuidWrite(dword: nat, value: u32) returns (verdict: InvWrite)
      requires ValidPlayer() && dword < INV_GUID_DWORDS
      modifies this`playerCount, player, lastValue, equipGuids
      ensures ValidPlayer()
      ensures dword < 2 * INV_EQUIP_PAIR ==>
        verdict == InvPassthrough && forall s :: 0 <= s < player.Length ==> View(s) == old(View(s))
      ensures dword >= 2 * INV_EQUIP_PAIR ==>
        var slot := dword / 2 - INV_EQUIP_PAIR;
        var (after, applied) := GuidWriteOf(old(View(slot)), dword % 2 == 0, value);
        && View(slot) == after
        && verdict == (if applied then ApplyZeroThenPassthrough(slot) else InvPassthrough)
        && forall s :: 0 <= s < player.Length && s != slot ==> View(s) == old(View(s))
    {
      var pair := dword / 2;
      if dword < 2 * INV_EQUIP_PAIR {
        return InvPassthrough;
      }
      var slot := pair - INV_EQUIP_PAIR;
      var mirrored := equipGuids[slot];
      equipGuids[slot] := if dword % 2 == 0 then mirrored / TWO32 * TWO32 + value else mirrored % TWO32 + value * TWO32;
      assert player[..] == old(player[..]);
      if dword % 2 == 0 && value == 0 && player[slot].valid {
        lastValue[slot] := 0;
        assert player[..] == old(player[..]);
        SetEntry(slot, Cleared(player[slot]));
        return ApplyZeroThenPassthrough(slot);
      }
      return InvPassthrough;
    }

    method DeferItemWrite(slot: nat, value: u32, now: u32) returns (parked: bool)
      requires ValidPlayer() && slot < player.Length
      modifies this`playerCount, player
      ensures ValidPlayer()
      ensures (View(slot), parked) == DeferOf(old(View(slot)), value, now)
      ensures forall s :: 0 <= s < player.Length && s != slot ==> View(s) == old(View(s))
    {
      var entry := player[slot];
      if !entry.valid {
        return false;
      }
      SetEntry(slot, entry.(deferred := value, hasDeferred := true, stamp := now));
      return true;
    }

    /** Drop every parked zero older than its lifetime. */
    method PlayerExpire(now: u32)
      requires ValidPlayer()
      modifies this`playerCount, player
      ensures ValidPlayer()
      ensures forall s :: 0 <= s < player.Length ==> View(s) == ExpireOf(old(View(s)), now)
    {
      if playerCount == 0 {
        NoneValidIffZero(player[..]);
        assert forall s :: 0 <= s < player.Length ==> player[s] == player[..][s];
        return;
      }
      for i := 0 to player.Length
        invariant ValidPlayer()
        invariant forall s :: 0 <= s < i ==> View(s) == ExpireOf(old(View(s)), now)
        invariant forall s :: i <= s < player.Length ==> View(s) == old(View(s))
      {
        if Expired(player[i], now) {
          SetEntry(i, Cleared(player[i]));
        }
      }
    }

    /** Whether any slot has a parked zero. */
    method PlayerHasPending() returns (pending: bool)
      requires ValidPlayer()
      ensures pending <==> exists s :: 0 <= s < player.Length && player[s].valid
    {
      NoneValidIffZero(player[..]);
      assert forall s :: 0 <= s < player.Length ==> player[s] == player[..][s];
      return playerCount > 0;
    }

    /** The unit's own entry, or a cleared one: a free entry if there is one, else the one with the lowest stamp. */
    method SeenSlot(guid: u64, now: u32) returns (idx: nat)
      requires Tracked(seen[..], tenure)
      modifies seen
      ensures idx < seen.Length
      ensures forall i :: 0 <= i < seen.Length && i != idx ==> seen[i] == old(seen[i])
      ensures Claimable(old(seen[..]), tenure, guid, idx)
      ensures guid in tenure ==> seen[idx] == old(seen[idx])
      ensures guid !in tenure ==> seen[idx] == EMPTY_SEEN.(guid := guid, stamp := now, used := true)
    {
      var oldest, oldestStamp: u32 := 0, 0xffff_ffff;
      var free: Option<nat> := None;
      for i := 0 to seen.Length
        invariant oldest < seen.Length
        invariant free.Some? ==> free.value < i && !seen[free.value].used
        invariant free.None? ==> forall j :: 0 <= j < i ==> seen[j].used
        invariant forall j :: 0 <= j < i ==> oldestStamp <= seen[j].stamp && !(seen[j].used && seen[j].guid == guid)
        invariant oldestStamp == seen[oldest].stamp || oldestStamp == 0xffff_ffff
      {
        if seen[i].used && seen[i].guid == guid {
          return i;
        }
        if !seen[i].used && free.None? {
          free := Some(i);
        }
        if seen[i].stamp < oldestStamp {
          oldestStamp, oldest := seen[i].stamp, i;
        }
      }
      idx := if free.Some? then free.value else oldest;
      seen[idx] := EMPTY_SEEN.(guid := guid, stamp := now, used := true);
    }

    /** One sighting, as it changes what is tracked. */
    method Sight(guid: u64, shown: Fields, now: u32) returns (downgrade: bool, ghost place: nat)
      requires Tracked(seen[..], tenure)
      modifies this`tenure, seen
      ensures Tracked(seen[..], tenure) && place < seen.Length
      ensures tenure == Sighted(old(tenure), Visit(guid, place, Sighting(shown, now)))
      ensures downgrade <==> PureFlicker(History(old(tenure), guid), shown, now)
      ensures Claimable(old(seen[..]), old(tenure), guid, place)
    {
      var idx := SeenSlot(guid, now);
      place := idx;
      ghost var visit := Visit(guid, idx, Sighting(shown, now));
      var entry;
      entry, downgrade := Compare(seen[idx], shown, now);
      SightingStep(old(seen[..]), seen[idx], tenure, visit, entry);
      seen[idx] := entry;
      assert seen[..] == old(seen[..])[idx := entry];
      tenure := Sighted(tenure, visit);
    }

    /**
     * Record a unit entering the world; true when nothing but in-window flickers happened since its
     * last sighting. What is held of every unit stays what the run of visits says.
     */
    method SeenEnterWorld(guid: u64, shown: Fields, now: u32) returns (downgrade: bool, ghost place: nat)
      requires ValidSeen()
      modifies this`tenure, this`visits, seen
      ensures ValidSeen() && place < seen.Length
      ensures visits == old(visits) + [Visit(guid, place, Sighting(shown, now))]
      ensures var h := History(Tenures(old(visits)), guid);
        && (downgrade <==> PureFlicker(h, shown, now))
        && forall ticks, tick :: Timed(h, ticks, now, tick) && WithinPeriod(ticks, tick) ==>
             (downgrade <==> PlainFlicker(h, ticks, shown, tick) && !BlankedAtZero(h, shown))
      ensures Claimable(old(seen[..]), old(tenure), guid, place)
    {
      ghost var h := History(tenure, guid);
      forall ticks, tick | Timed(h, ticks, now, tick) && WithinPeriod(ticks, tick)
        ensures PureFlicker(h, shown, now) <==> PlainFlicker(h, ticks, shown, tick) && !BlankedAtZero(h, shown)
      {
        VerdictIsPlain(h, ticks, shown, now, tick);
      }
      downgrade, place := Sight(guid, shown, now);
      visits := visits + [Visit(guid, place, Sighting(shown, now))];
      assert visits[..|visits| - 1] == old(visits);
    }
  }

  /**
   * A zero and the write that ends it, seen by their caller: the zero is swallowed exactly when the
   * table holds or can take the key, and the write after it exactly when that was so, less than 100 ms
   * have passed and it brings back the value still shown.
   */
  method Blink(c: Coalescer, key: Key, shown: u32, t0: u32, value: u32, t1: u32) returns (first: bool, second: bool)
    requires c.ValidUnits() && shown != 0 && value != 0
    modifies c`unitCount, c`cell, c.units
    ensures c.ValidUnits() && c.Pending() == old(c.Pending()) - {key}
    ensures first <==> key in old(c.Pending()) || old(HasRoom(c.hash, c.units[..], key))
    ensures second <==> first && WrapSub(t1, t0) < 100 && value == shown
  {
    ghost var before, room := c.Pending(), HasRoom(c.hash, c.units[..], key);
    first := c.UnitWrite(key, 0, shown, t0);
    ghost var held, roomLeft := c.Pending(), HasRoom(c.hash, c.units[..], key);
    second := c.UnitWrite(key, value, shown, t1);
    BlinkOf(before, room, roomLeft, key, shown, t0, value, t1, first, held, second, c.Pending());
  }

  lemma BlinkOf(before: map<Key, Swallowed>, room: bool, roomLeft: bool, key: Key, shown: u32, t0: u32, value: u32,
                t1: u32, first: bool, held: map<Key, Swallowed>, second: bool, after: map<Key, Swallowed>)
    requires shown != 0 && value != 0
    requires (first, held) == UnitWriteOf(before, room, key, 0, shown, t0)
    requires (second, after) == UnitWriteOf(held, roomLeft, key, value, shown, t1)
    ensures after == before - {key} && (first <==> key in before || room)
    ensures second <==> first && WrapSub(t1, t0) < 100 && value == shown
  {
  }
}
