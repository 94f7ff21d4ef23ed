/** The descriptor-write hook and the scene-end flush around the coalescer. */
module Adapter {
  import opened Words
  import opened VisibleItems
  import opened UnitTable
  import opened Coalescing
  import opened EagerClient
  import Player = PlayerMirror
  import Routing
  import Stores

  const FLUSH_UNITS_CAP: nat := 16

  class Adapter {
    const coalescer: Coalescer
    /** The visible-item fields of every unit's descriptor. */
    var live: map<Key, u32>
    ghost var server: map<Key, u32>
    ghost var gone: set<u64>
    /** The player object the mirrors were read from; zero when unbound. */
    var boundAddress: u32
    var boundGuid: u64
    /** What the coalescer holds about each visible slot of the player. */
    ghost var mirrors: seq<Player.SlotView>

    ghost predicate Valid()
      reads this, coalescer, coalescer.units, coalescer.player, coalescer.lastValue, coalescer.equipGuids
    {
      coalescer.ValidUnits() && ValidMirrors()
    }

    ghost predicate ValidMirrors()
      reads this, coalescer, coalescer.player, coalescer.lastValue, coalescer.equipGuids
    {
      && coalescer.ValidPlayer() && |mirrors| == VISIBLE_SLOTS
      && forall k :: 0 <= k < VISIBLE_SLOTS ==> coalescer.View(k) == mirrors[k]
    }

    /** The unit table and the descriptors. */
    ghost function State(): World
      reads this, coalescer, coalescer.units
      requires coalescer.ValidUnits()
    {
      World(coalescer.Pending(), live, server, gone)
    }

    /** The same with the player's side. */
    ghost function Routed(): Routing.State
      reads this, coalescer, coalescer.units
      requires coalescer.ValidUnits()
    {
      Routing.State(State(), mirrors, coalescer.bound, Routing.Binding(boundAddress, boundGuid))
    }

    constructor (hash: Hash, fields: map<Key, u32>)
      ensures Valid() && Initial(State()) && live == fields
      ensures Routed().binding == Routing.UNBOUND && !Routed().bound
      ensures forall k :: 0 <= k < VISIBLE_SLOTS ==> mirrors[k] == Player.NEW_SLOT
      ensures fresh(coalescer) && fresh(coalescer.units) && fresh(coalescer.player)
      ensures fresh(coalescer.lastValue) && fresh(coalescer.equipGuids)
    {
      coalescer := new Coalescer(hash);
      live, server, gone := fields, fields, {};
      boundAddress, boundGuid := 0, 0;
      mirrors := seq(VISIBLE_SLOTS, _ => Player.NEW_SLOT);
    }

    /** Bind the mirrors to the object written to when it is the active player; whether it is the player. */
    method EnsureBound(c: Routing.Call) returns (player: bool)
      requires Valid()
      modifies this`mirrors, this`boundAddress, this`boundGuid
      modifies coalescer`bound, coalescer.lastValue, coalescer.equipGuids
      ensures Valid() && (player <==> Routing.RouteOf(old(Routed()).binding, c) != Routing.ToUnit)
      ensures Routed() == Routing.Ensured(old(Routed()), c)
    {
      if c.guid == 0 {
        return false;
      }
      if boundAddress == c.address && boundGuid == c.guid {
        return true;
      }
      if c.token == 0 || c.guid != c.token {
        return false;
      }
      Rebind(c);
      return true;
    }

    /** Re-read the mirrors from the player's object, or drop the binding if it is gone. */
    method Rebind(c: Routing.Call)
      requires Valid() && Routing.RouteOf(Routed().binding, c) == Routing.ToNewPlayer
      modifies this`mirrors, this`boundAddress, this`boundGuid
      modifies coalescer`bound, coalescer.lastValue, coalescer.equipGuids
      ensures Valid() && Routed() == Routing.Ensured(old(Routed()), c)
    {
      if c.resolved.None? {
        boundAddress, boundGuid := 0, 0;
        coalescer.Unbind();
        assert State() == old(State());
        return;
      }
      BindMirrors(c);
    }

    method BindMirrors(c: Routing.Call)
      requires Valid() && c.resolved.Some?
      modifies this`mirrors, this`boundAddress, this`boundGuid
      modifies coalescer`bound, coalescer.lastValue, coalescer.equipGuids
      ensures Valid() && State() == old(State()) && coalescer.bound
      ensures boundAddress == c.resolved.value && boundGuid == c.token
      ensures mirrors == Routing.Reread(old(Routed()), c)
    {
      var fields := live;
      var values := seq(VISIBLE_SLOTS, k requires 0 <= k < VISIBLE_SLOTS => Field(fields, Key(c.guid, k)));
      boundAddress, boundGuid := c.resolved.value, c.token;
      ghost var reread := Routing.Reread(Routed(), c);
      coalescer.Bind(c.equip, values);
      mirrors := reread;
    }

    /** A write to a visible-item field; false lets the stock write run. */
    method VisibleWrite(c: Routing.Call, slot: u32, value: u32, now: u32, unitRef: u32) returns (swallowed: bool)
      requires Valid() && slot < VISIBLE_SLOTS
      modifies this`live, this`server, this`mirrors, this`boundAddress, this`boundGuid
      modifies coalescer, coalescer.units, coalescer.player, coalescer.lastValue, coalescer.equipGuids
      ensures Valid()
      ensures var room := old(HasRoom(coalescer.hash, coalescer.units[..], Key(c.guid, slot)));
        && Routed() == Routing.Step(old(Routed()), Routing.Visible(c, slot, value, now, unitRef, room))
        && (swallowed <==> Routing.Swallows(old(Routed()), c, slot, value, now, unitRef, room))
      ensures !swallowed ==> live == old(live)[Key(c.guid, slot) := value]
    {
      var player := EnsureBound(c);
      if player {
        swallowed := PlayerVisibleWrite(Key(c.guid, slot), value, now);
      } else {
        swallowed := UnitVisibleWrite(Key(c.guid, slot), value, now, unitRef);
      }
    }

    /** A write to one of the local player's visible-item fields. */
    method PlayerVisibleWrite(key: Key, value: u32, now: u32) returns (swallowed: bool)
      requires Valid() && key.slot < VISIBLE_SLOTS
      modifies this`live, this`server, this`mirrors
      modifies coalescer`playerCount, coalescer.player, coalescer.lastValue
      ensures Valid() && Routed() == Routing.PlayerWrite(old(Routed()), key, value, now)
      ensures swallowed <==>
        !Player.VisibleWriteOf(old(mirrors)[key.slot], old(coalescer.bound), value, now).1.Passthrough?
      ensures !swallowed ==> live == old(live)[key := value]
    {
      var verdict := coalescer.PlayerVisibleWrite(key.slot, value, now);
      server := server[key := value];
      mirrors := mirrors[key.slot := coalescer.View(key.slot)];
      swallowed := !verdict.Passthrough?;
      live := Routing.LiveAfter(live, key, verdict, value);
    }

    /** A write to one of the player's inventory GUID dwords, which always lands. */
    method InvGuidWrite(c: Routing.Call, dword: u32, half: u32)
      requires Valid() && dword < Player.INV_GUID_DWORDS
      modifies this`live, this`mirrors, this`boundAddress, this`boundGuid
      modifies coalescer, coalescer.player, coalescer.lastValue, coalescer.equipGuids
      ensures Valid() && Routed() == Routing.Step(old(Routed()), Routing.InvGuid(c, dword, half))
    {
      var player := EnsureBound(c);
      if player {
        PlayerGuidWrite(c.guid, dword, half);
      }
    }

    method PlayerGuidWrite(guid: u64, dword: u32, half: u32)
      requires Valid() && dword < Player.INV_GUID_DWORDS
      modifies this`live, this`mirrors
      modifies coalescer`playerCount, coalescer.player, coalescer.lastValue, coalescer.equipGuids
      ensures Valid() && Routed() == Routing.PlayerGuid(old(Routed()), guid, dword, half)
    {
      var verdict := MirrorGuid(dword, half, guid);
      match verdict
      case InvPassthrough =>
      case ApplyZeroThenPassthrough(slot) => live := live[Key(guid, slot) := 0];
    }

    /** The mirrors' part of it; the verdict says whether a parked zero is to be applied first. */
    method MirrorGuid(dword: u32, half: u32, ghost guid: u64) returns (verdict: Player.InvWrite)
      requires Valid() && dword < Player.INV_GUID_DWORDS
      modifies this`mirrors, coalescer`playerCount, coalescer.player, coalescer.lastValue, coalescer.equipGuids
      ensures Valid() && (verdict.ApplyZeroThenPassthrough? ==> verdict.slot < VISIBLE_SLOTS)
      ensures Routing.PlayerGuid(old(Routed()), guid, dword, half) ==
        var t := Routed();
        if verdict.InvPassthrough? then t
        else t.(units := t.units.(live := live[Key(guid, verdict.slot) := 0]))
    {
      verdict := coalescer.PlayerInvGuidWrite(dword, half);
      assert State() == old(State());
      if dword >= 2 * Player.INV_EQUIP_PAIR {
        var slot := dword / 2 - Player.INV_EQUIP_PAIR;
        mirrors := mirrors[slot := Player.GuidWriteOf(mirrors[slot], dword % 2 == 0, half).0];
      }
    }

    /** A write to a visible-item field of a unit that is not the player; false lets the stock write run. */
    method UnitVisibleWrite(key: Key, value: u32, now: u32, unitRef: u32) returns (swallowed: bool)
      requires coalescer.ValidUnits()
      modifies this`live, this`server, coalescer`unitCount, coalescer`cell, coalescer.units
      ensures coalescer.ValidUnits()
      ensures State() ==
        Step(old(State()), Write(key, value, now, unitRef, old(HasRoom(coalescer.hash, coalescer.units[..], key))))
      ensures live == if swallowed then old(live) else old(live)[key := value]
      ensures swallowed <==> Stores.Swallows(
        old(State()), Write(key, value, now, unitRef, old(HasRoom(coalescer.hash, coalescer.units[..], key))))
    {
      server := server[key := value];
      if key.guid == 0 || key.guid / TWO32 > 0xffff {
        live := live[key := value];
        return false;
      }
      var current := Field(live, key);
      swallowed := coalescer.UnitWriteRef(key, value, current, now, unitRef);
      if !swallowed {
        live := live[key := value];
      }
    }

    /** Forget cell `idx` and, if its unit still exists, write its zero for real. */
    method Apply(idx: nat, present: set<u64>) returns (key: Key)
      requires coalescer.ValidUnits() && idx < coalescer.units.Length && coalescer.units[idx].used
      modifies this`live, this`gone, coalescer`unitCount, coalescer`cell, coalescer.units
      ensures coalescer.ValidUnits() && key == old(coalescer.units[idx].ItsKey())
      ensures State() == Applied(old(State()), {key}, present)
      ensures coalescer.units[..] == old(coalescer.units[..])[idx := coalescer.units[idx]] && !coalescer.units[idx].used
    {
      key := coalescer.units[idx].ItsKey();
      coalescer.UnitRemove(idx);
      if key.guid in present {
        live := live[key := 0];
      } else {
        gone := gone + {key.guid};
      }
      ZeroedOne(old(live), key, present);
    }

    /** Apply every due zero, then name the units to refresh, each once and at most the cap. */
    method Flush(now: u32, present: set<u64>) returns (refreshed: seq<u64>)
      requires Valid()
      modifies this`live, this`gone, this`mirrors, coalescer, coalescer.units, coalescer.player
      ensures Valid()
      ensures Routed() == Routing.Step(old(Routed()), Routing.Flush(now, present))
      ensures RefreshList(refreshed, DueKeys(old(State()).pending, now), present)
      ensures |refreshed| < 16 ==>
        forall k :: k in DueKeys(old(State()).pending, now) && k.guid in present ==> k.guid in refreshed
    {
      var idle := coalescer.Idle();
      if idle {
        IdleFlush(now, present);
        return [];
      }
      refreshed := FlushBusy(now, present);
    }

    method FlushBusy(now: u32, present: set<u64>) returns (refreshed: seq<u64>)
      requires Valid()
      modifies this`live, this`gone, this`mirrors, coalescer, coalescer.units, coalescer.player
      ensures Valid()
      ensures Routed() == Routing.Step(old(Routed()), Routing.Flush(now, present))
      ensures RefreshList(refreshed, DueKeys(old(State()).pending, now), present)
    {
      ghost var before := Routed();
      ExpireMirrors(now);
      assert State() == before.units;
      refreshed := DrainUnits(now, present);
    }

    method ExpireMirrors(now: u32)
      requires Valid()
      modifies this`mirrors, coalescer`playerCount, coalescer.player
      ensures Valid() && Routed() == old(Routed()).(mirrors := Routing.Expired(old(mirrors), now))
    {
      coalescer.PlayerExpire(now);
      mirrors := Routing.Expired(mirrors, now);
    }

    /** Draining the unit table leaves the player's side alone. */
    method DrainUnits(now: u32, present: set<u64>) returns (refreshed: seq<u64>)
      requires Valid()
      modifies this`live, this`gone, coalescer`unitCount, coalescer`cell, coalescer.units
      ensures Valid()
      ensures Routed() == old(Routed()).(units := Step(old(State()), EagerClient.Flush(now, present)))
      ensures RefreshList(refreshed, DueKeys(old(State()).pending, now), present)
    {
      refreshed := Drain(now, present);
      assert forall k :: 0 <= k < VISIBLE_SLOTS ==> coalescer.View(k) == old(coalescer.View(k));
    }

    /** With both pools empty a flush has nothing to do. */
    lemma IdleFlush(now: u32, present: set<u64>)
      requires Valid() && coalescer.Pending() == map[]
      requires forall k :: 0 <= k < coalescer.player.Length ==> !coalescer.player[k].valid
      ensures Routing.Step(Routed(), Routing.Flush(now, present)) == Routed()
      ensures RefreshList([], DueKeys(State().pending, now), present)
    {
      NothingExpires(now);
      NothingDue(State(), now, present);
    }

    lemma NothingExpires(now: u32)
      requires ValidMirrors() && forall k :: 0 <= k < coalescer.player.Length ==> !coalescer.player[k].valid
      ensures Routing.Expired(mirrors, now) == mirrors
    {
      forall k | 0 <= k < VISIBLE_SLOTS
        ensures !mirrors[k].entry.valid
      {
        assert coalescer.View(k) == mirrors[k];
      }
    }

    method Drain(now: u32, present: set<u64>) returns (refreshed: seq<u64>)
      requires coalescer.ValidUnits()
      modifies this`live, this`gone, coalescer`unitCount, coalescer`cell, coalescer.units
      ensures coalescer.ValidUnits()
      ensures State() == Step(old(State()), EagerClient.Flush(now, present))
      ensures RefreshList(refreshed, DueKeys(old(coalescer.Pending()), now), present)
    {
      refreshed := [];
      ghost var w := State();
      ghost var applied: set<Key> := {};
      AppliedNothing(w, present);
      var from := 0;
      while true
        invariant coalescer.ValidUnits() && from <= coalescer.units.Length
        invariant applied <= DueKeys(w.pending, now) && State() == Applied(w, applied, present)
        invariant NoneDue(coalescer.units[..], 0, from, now)
        invariant RefreshList(refreshed, applied, present)
        decreases coalescer.units.Length - from
      {
        ghost var us := coalescer.units[..];
        var next := coalescer.UnitDue(from, now);
        if next.None? {
          NoCellDue(coalescer.hash, coalescer.units[..], coalescer.cell, now);
          NoneLeft(w, applied, present, now);
          break;
        }
        CellDue(coalescer.hash, coalescer.units[..], coalescer.cell, next.value, now);
        var key := Apply(next.value, present);
        AppliedInTurn(w, applied, key, present);
        NoneDueStep(us, coalescer.units[..], from, next.value, now);
        from := next.value + 1;
        refreshed := Collect(refreshed, applied, key, present);
        applied := applied + {key};
      }
    }
  }

  lemma NothingDue(w: World, now: u32, present: set<u64>)
    requires w.pending == map[]
    ensures Step(w, EagerClient.Flush(now, present)) == w && DueKeys(w.pending, now) == {}
  {
    AppliedNothing(w, present);
  }

  /** The units of `keys` that still exist, each once; complete unless the cap was reached. */
  ghost predicate RefreshList(refreshed: seq<u64>, keys: set<Key>, present: set<u64>) {
    && |refreshed| <= FLUSH_UNITS_CAP
    && (forall i, j :: 0 <= i < j < |refreshed| ==> refreshed[i] != refreshed[j])
    && (forall g :: g in refreshed ==> g in present && exists k :: k in keys && k.guid == g)
    && (forall k :: k in keys && k.guid in present ==> k.guid in refreshed || |refreshed| == FLUSH_UNITS_CAP)
  }

  method Collect(refreshed: seq<u64>, ghost keys: set<Key>, key: Key, present: set<u64>) returns (r: seq<u64>)
    requires RefreshList(refreshed, keys, present)
    ensures RefreshList(r, keys + {key}, present)
  {
    r := refreshed;
    if key.guid in present && key.guid !in refreshed && |refreshed| < FLUSH_UNITS_CAP {
      r := refreshed + [key.guid];
    }
    forall g | g in r ensures exists k :: k in keys + {key} && k.guid == g {
      if g in refreshed {
        var k :| k in keys && k.guid == g;
        assert k in keys + {key};
      } else {
        assert key in keys + {key};
      }
    }
  }
}
