/** Which path a descriptor write takes: the player's mirrors or the unit table. */
module Routing {
  import opened Words
  import opened Options
  import opened VisibleItems
  import opened UnitTable
  import Units = EagerClient
  import Player = PlayerMirror
  import Stores

  /** The object the mirrors were read from: its address and the GUID it carried. */
  datatype Binding = Binding(address: u32, guid: u64)

  const UNBOUND := Binding(0, 0)

  type Equip = s: seq<u64> | |s| == VISIBLE_SLOTS
    witness [0, 0, 0, 0, 0, 0, 0, 0, 0, 0, 0, 0, 0, 0, 0, 0, 0, 0, 0]

  /**
   * What one call of the hook can see: the object written to and the GUID it carries, the GUID the
   * player token resolves to (zero when it does not), where that GUID's object is (if it has a
   * descriptor) and the equipped GUIDs it holds.
   */
  datatype Call = Call(address: u32, guid: u64, token: u64, resolved: Option<u32>, equip: Equip)

  datatype Route = ToUnit | ToPlayer | ToNewPlayer

  function RouteOf(b: Binding, c: Call): Route {
    if c.guid == 0 then ToUnit
    else if b.address == c.address && b.guid == c.guid then ToPlayer
    else if c.token == 0 || c.guid != c.token then ToUnit
    else ToNewPlayer
  }

  /** The unit table's world, the player's mirrors slot by slot, and the binding. */
  datatype State = State(units: Units.World, mirrors: seq<Player.SlotView>, bound: bool, binding: Binding)

  predicate Sized(s: State) {
    |s.mirrors| == VISIBLE_SLOTS
  }

  /** Read every mirror afresh from the object of `guid`. */
  function Reread(s: State, c: Call): (mirrors: seq<Player.SlotView>)
    requires Sized(s)
    ensures |mirrors| == VISIBLE_SLOTS
  {
    seq(VISIBLE_SLOTS, k requires 0 <= k < VISIBLE_SLOTS =>
      s.mirrors[k].(equip := c.equip[k], last := Units.Field(s.units.live, Key(c.guid, k))))
  }

  /** The state on the player's path, bound first if need be. */
  function Ensured(s: State, c: Call): (t: State)
    requires Sized(s)
    ensures Sized(t) && t.units == s.units
  {
    if RouteOf(s.binding, c) != ToNewPlayer then s
    else if c.resolved.None? then s.(bound := false, binding := UNBOUND)
    else s.(mirrors := Reread(s, c), bound := true, binding := Binding(c.resolved.value, c.token))
  }

  datatype Event =
    | Visible(call: Call, slot: u32, value: u32, now: u32, unitRef: u32, room: bool)
    | InvGuid(who: Call, dword: u32, half: u32)
    | Flush(at: u32, present: set<u64>)

  predicate InRange(e: Event) {
    (e.Visible? ==> e.slot < VISIBLE_SLOTS) && (e.InvGuid? ==> e.dword < Player.INV_GUID_DWORDS)
  }

  /** The descriptors once the hook has acted on a verdict. */
  function LiveAfter(live: map<Key, u32>, key: Key, verdict: Player.PlayerWrite, value: u32): map<Key, u32> {
    match verdict
    case Passthrough => live[key := value]
    case ApplyZero => live[key := 0]
    case _ => live
  }

  /** A write to one of the player's own visible fields. */
  function PlayerWrite(s: State, key: Key, value: u32, now: u32): State
    requires Sized(s) && key.slot < VISIBLE_SLOTS
  {
    var (view, verdict) := Player.VisibleWriteOf(s.mirrors[key.slot], s.bound, value, now);
    s.(mirrors := s.mirrors[key.slot := view],
       units := s.units.(live := LiveAfter(s.units.live, key, verdict, value), server := s.units.server[key := value]))
  }

  function PlayerGuid(s: State, guid: u64, dword: u32, half: u32): State
    requires Sized(s) && dword < Player.INV_GUID_DWORDS
  {
    if dword < 2 * Player.INV_EQUIP_PAIR then s
    else
      var slot := dword / 2 - Player.INV_EQUIP_PAIR;
      var (view, applied) := Player.GuidWriteOf(s.mirrors[slot], dword % 2 == 0, half);
      var live := if applied then s.units.live[Key(guid, slot) := 0] else s.units.live;
      s.(mirrors := s.mirrors[slot := view], units := s.units.(live := live))
  }

  function Expired(mirrors: seq<Player.SlotView>, now: u32): (after: seq<Player.SlotView>)
    ensures |after| == |mirrors|
  {
    seq(|mirrors|, k requires 0 <= k < |mirrors| => Player.ExpireOf(mirrors[k], now))
  }

  function Step(s: State, e: Event): (t: State)
    requires Sized(s) && InRange(e)
    ensures Sized(t)
  {
    match e
    case Visible(c, slot, value, now, unitRef, room) =>
      if RouteOf(s.binding, c) == ToUnit then
        s.(units := Units.Step(s.units, Units.Write(Key(c.guid, slot), value, now, unitRef, room)))
      else PlayerWrite(Ensured(s, c), Key(c.guid, slot), value, now)
    case InvGuid(c, dword, half) =>
      if RouteOf(s.binding, c) == ToUnit then s else PlayerGuid(Ensured(s, c), c.guid, dword, half)
    case Flush(at, present) =>
      s.(units := Units.Step(s.units, Units.Flush(at, present)), mirrors := Expired(s.mirrors, at))
  }

  /** The write is answered without running the stock write. */
  predicate Swallows(s: State, c: Call, slot: u32, value: u32, now: u32, unitRef: u32, room: bool)
    requires Sized(s) && slot < VISIBLE_SLOTS
  {
    if RouteOf(s.binding, c) == ToUnit then
      Stores.Swallows(s.units, Units.Write(Key(c.guid, slot), value, now, unitRef, room))
    else
      var t := Ensured(s, c);
      !Player.VisibleWriteOf(t.mirrors[slot], t.bound, value, now).1.Passthrough?
  }

  function Run(s: State, es: seq<Event>): (t: State)
    requires Sized(s) && forall e :: e in es ==> InRange(e)
    ensures Sized(t)
    decreases es
  {
    if es == [] then s else assert es[0] in es; Run(Step(s, es[0]), es[1..])
  }

  // ---- Who takes the player's path ---------------------------------------

  /** A write takes the player's path exactly when it is to the bound object or to the active player. */
  lemma PlayerPathIff(b: Binding, c: Call)
    ensures RouteOf(b, c) != ToUnit <==> c.guid != 0 && (b == Binding(c.address, c.guid) || c.guid == c.token)
    ensures RouteOf(b, c) == ToNewPlayer <==> c.guid != 0 && b != Binding(c.address, c.guid) && c.guid == c.token
  {
  }

  /** The call found the active player's object and bound the mirrors to it. */
  predicate Resolved(e: Event, b: Binding) {
    var c := Caller(e);
    c.Some? && c.value.token == c.value.guid == b.guid != 0 && c.value.resolved == Some(b.address)
  }

  lemma BindingStep(s: State, e: Event)
    requires Sized(s) && InRange(e)
    ensures Step(s, e).binding in {s.binding, UNBOUND} || Resolved(e, Step(s, e).binding)
  {
  }

  /** On every run the mirrors are bound to what they were before, to nothing, or to a player some call found. */
  lemma {:induction false} BoundIsAPlayer(s: State, es: seq<Event>)
    requires Sized(s) && AllInRange(es)
    ensures var b := Run(s, es).binding;
      b in {s.binding, UNBOUND} || exists e :: e in es && Resolved(e, b)
    decreases es
  {
    if es != [] {
      assert es[0] in es;
      BindingStep(s, es[0]);
      BoundIsAPlayer(Step(s, es[0]), es[1..]);
      assert forall e :: e in es[1..] ==> e in es;
    }
  }

  // ---- The unit table stays off the bound player -------------------------

  predicate PendingFor(s: State, guid: u64) {
    exists key :: key in s.units.pending && key.guid == guid
  }

  /** No pending entry of the unit table names the bound player. */
  predicate Separate(s: State) {
    s.binding.guid != 0 ==> !PendingFor(s, s.binding.guid)
  }

  function Caller(e: Event): Option<Call> {
    match e
    case Visible(c, _, _, _, _, _) => Some(c)
    case InvGuid(c, _, _) => Some(c)
    case Flush(_, _) => None
  }

  /** A player is bound while the unit table still holds a zero of theirs. */
  predicate BindsTooLate(s: State, e: Event) {
    var c := Caller(e);
    c.Some? && RouteOf(s.binding, c.value) == ToNewPlayer && c.value.resolved.Some? && PendingFor(s, c.value.guid)
  }

  /** The bound player's object has moved, the token does not resolve, and the unit table takes the zero. */
  predicate SlipsThrough(s: State, e: Event) {
    && e.Visible? && RouteOf(s.binding, e.call) == ToUnit && e.call.guid == s.binding.guid != 0
    && Units.Keyable(Key(e.call.guid, e.slot)) && e.value == 0 && e.room
    && Units.Field(s.units.live, Key(e.call.guid, e.slot)) != 0
  }

  predicate Hazard(s: State, e: Event) {
    BindsTooLate(s, e) || SlipsThrough(s, e)
  }

  /** The separation is lost by a step exactly when that step meets one of the two guards. */
  lemma SeparateUnlessHazard(s: State, e: Event)
    requires Sized(s) && InRange(e) && Separate(s)
    ensures Separate(Step(s, e)) <==> !Hazard(s, e)
  {
    match e
    case Visible(c, slot, value, now, unitRef, room) =>
      if RouteOf(s.binding, c) == ToUnit {
        UnitPathKeys(s, e);
      } else {
        PlayerPathKeys(s, e);
      }
    case InvGuid(_, _, _) => PlayerPathKeys(s, e);
    case Flush(at, present) => assert Step(s, e).units.pending.Keys <= s.units.pending.Keys;
  }

  /** On the player's path the unit table is as it was; only the binding may change. */
  lemma PlayerPathKeys(s: State, e: Event)
    requires Sized(s) && InRange(e) && !e.Flush?
    requires e.Visible? ==> RouteOf(s.binding, e.call) != ToUnit
    ensures Step(s, e).units.pending == s.units.pending
    ensures var c := Caller(e).value;
      Step(s, e).binding == if RouteOf(s.binding, c) == ToUnit then s.binding else Ensured(s, c).binding
  {
  }

  /** On the unit path only the written key can come to be pending. */
  lemma UnitPathKeys(s: State, e: Event)
    requires Sized(s) && InRange(e) && e.Visible? && RouteOf(s.binding, e.call) == ToUnit && Separate(s)
    ensures Step(s, e).binding == s.binding
    ensures forall key :: key in Step(s, e).units.pending ==>
      key in s.units.pending || key == Key(e.call.guid, e.slot)
    ensures e.call.guid == s.binding.guid != 0 ==>
      (Key(e.call.guid, e.slot) in Step(s, e).units.pending <==> SlipsThrough(s, e))
  {
    var key := Key(e.call.guid, e.slot);
    if e.call.guid == s.binding.guid != 0 {
      assert key !in s.units.pending;
    }
  }

  predicate AllInRange(es: seq<Event>) {
    forall e :: e in es ==> InRange(e)
  }

  /** A run that never meets a guard. */
  predicate Safe(s: State, es: seq<Event>)
    requires Sized(s) && AllInRange(es)
    decreases es
  {
    es == [] || (assert es[0] in es; !Hazard(s, es[0]) && Safe(Step(s, es[0]), es[1..]))
  }

  /** A run keeps the unit table off the bound player at every point exactly when it never meets a guard. */
  lemma {:induction false} SeparateThroughoutIffSafe(s: State, es: seq<Event>)
    requires Sized(s) && AllInRange(es) && Separate(s)
    ensures (forall n: nat :: n <= |es| ==> Separate(Run(s, es[..n]))) <==> Safe(s, es)
    decreases es
  {
    if es == [] {
      assert es[..0] == [];
    } else {
      assert es[0] in es;
      var next, rest := Step(s, es[0]), es[1..];
      SeparateUnlessHazard(s, es[0]);
      assert forall n: nat :: n <= |rest| ==> es[..n + 1][1..] == rest[..n];
      assert forall n: nat :: n <= |rest| ==> Run(s, es[..n + 1]) == Run(next, rest[..n]);
      assert Run(s, es[..0]) == s && Run(next, rest[..0]) == next;
      assert forall n: nat :: 0 < n <= |es| ==> Run(s, es[..n]) == Run(next, rest[..n - 1]);
      if Separate(next) {
        SeparateThroughoutIffSafe(next, rest);
      } else {
        assert Run(s, es[..0 + 1]) == next;
      }
    }
  }

  /** While separate, a flush leaves every field of the bound player alone. */
  lemma FlushSparesPlayer(s: State, at: u32, present: set<u64>, slot: u32)
    requires Sized(s) && Separate(s) && s.binding.guid != 0
    ensures var key := Key(s.binding.guid, slot);
      Units.Field(Step(s, Flush(at, present)).units.live, key) == Units.Field(s.units.live, key)
  {
    var key := Key(s.binding.guid, slot);
    assert key !in s.units.pending;
    assert key !in Units.DueKeys(s.units.pending, at);
  }

  // ---- What the player's path does to one slot ---------------------------

  /** One slot of the player `guid`, as the mirror model sees it. */
  function SlotWorldOf(s: State, guid: u64, k: u32): Player.SlotWorld
    requires Sized(s) && k < VISIBLE_SLOTS
  {
    var key := Key(guid, k);
    Player.SlotWorld(s.mirrors[k], s.bound, Units.Field(s.units.live, key), Units.Field(s.units.server, key), true)
  }

  /** Binding a found player is the mirror model's binding, in every slot. */
  lemma BindingIsMirrored(s: State, c: Call, k: u32)
    requires Sized(s) && k < VISIBLE_SLOTS && RouteOf(s.binding, c) == ToNewPlayer && c.resolved.Some?
    ensures SlotWorldOf(Ensured(s, c), c.guid, k) ==
            Player.Step(SlotWorldOf(s, c.guid, k), Player.Event.Bind(c.equip[k], true, 0))
    ensures Ensured(s, c).bound && Ensured(s, c).binding == Binding(c.resolved.value, c.guid)
    ensures RouteOf(Ensured(s, c).binding, c.(address := c.resolved.value)) == ToPlayer
  {
  }

  /** A player whose object cannot be found is unbound, and the mirrors keep what they hold. */
  lemma LostPlayerIsUnbound(s: State, c: Call, k: u32)
    requires Sized(s) && k < VISIBLE_SLOTS && RouteOf(s.binding, c) == ToNewPlayer && c.resolved.None?
    ensures SlotWorldOf(Ensured(s, c), c.guid, k) == Player.Step(SlotWorldOf(s, c.guid, k), Player.Event.Unbind)
    ensures Ensured(s, c).binding == UNBOUND
  {
  }

  /** A write on the player's path is the mirror model's write in its slot, and nothing in the others. */
  lemma PlayerWriteIsMirrored(s: State, guid: u64, slot: u32, value: u32, now: u32, k: u32)
    requires Sized(s) && slot < VISIBLE_SLOTS && k < VISIBLE_SLOTS
    ensures SlotWorldOf(PlayerWrite(s, Key(guid, slot), value, now), guid, k) ==
            if k == slot then Player.Step(SlotWorldOf(s, guid, k), Player.Event.Visible(value, now))
            else SlotWorldOf(s, guid, k)
  {
  }

  lemma PlayerGuidIsMirrored(s: State, guid: u64, dword: u32, half: u32, k: u32)
    requires Sized(s) && dword < Player.INV_GUID_DWORDS && k < VISIBLE_SLOTS
    ensures SlotWorldOf(PlayerGuid(s, guid, dword, half), guid, k) ==
            if dword / 2 == k + Player.INV_EQUIP_PAIR then
              Player.Step(SlotWorldOf(s, guid, k), Player.Event.GuidHalf(dword % 2 == 0, half))
            else SlotWorldOf(s, guid, k)
  {
  }

  /** While separate, a flush is an expiry to every slot of the bound player. */
  lemma FlushIsExpiry(s: State, at: u32, present: set<u64>, k: u32)
    requires Sized(s) && Separate(s) && s.binding.guid != 0 && k < VISIBLE_SLOTS
    ensures SlotWorldOf(Step(s, Flush(at, present)), s.binding.guid, k) ==
            Player.Step(SlotWorldOf(s, s.binding.guid, k), Player.Event.Expire(at))
  {
    FlushSparesPlayer(s, at, present, k);
  }

  // ---- The input ---------------------------------------------------------

  lemma RunOfThree(s: State, a: Event, b: Event, c: Event)
    requires Sized(s) && InRange(a) && InRange(b) && InRange(c)
    ensures Run(s, [a, b, c]) == Step(Step(Step(s, a), b), c)
  {
    assert [a, b, c][1..] == [b, c] && [b, c][1..] == [c] && [c][1..] == [];
    assert Run(Step(Step(s, a), b), [c]) == Run(Step(Step(Step(s, a), b), c), []);
  }

  /** The zero goes to the unit table, and the item stays on the screen. */
  lemma ZeroGoesToTable(s: State, c: Call, slot: u32)
    requires Sized(s) && slot < VISIBLE_SLOTS && c.guid == 7 && c.token == 0 && s.binding == UNBOUND
    requires s.units.pending == map[] && Units.Field(s.units.live, Key(7, slot)) != 0
    ensures var t := Step(s, Visible(c, slot, 0, 10, 1, true));
      t == s.(units := Units.World(map[Key(7, slot) := Swallowed(10, 1)], s.units.live,
                                   s.units.server[Key(7, slot) := 0], s.units.gone))
  {
  }

  /** The restore goes to the player's mirror, which has nothing parked and lets it through. */
  lemma RestoreGoesToMirror(s: State, c: Call, slot: u32)
    requires Sized(s) && slot < VISIBLE_SLOTS && c.guid == c.token == 7 && c.resolved.Some? && s.binding == UNBOUND
    requires !s.mirrors[slot].entry.valid
    ensures var t := Step(s, Visible(c, slot, 500, 20, 1, true));
      t.units == s.units.(live := s.units.live[Key(7, slot) := 500], server := s.units.server[Key(7, slot) := 500])
  {
  }

  /** The flush then applies the zero the table still holds. */
  lemma FlushAppliesZero(w: Units.World, key: Key)
    requires w.pending == map[key := Swallowed(10, 1)]
    ensures var t := Units.Step(w, Units.Flush(200, {key.guid}));
      Units.Field(t.live, key) == 0 && t.server == w.server
  {
    assert Units.DueKeys(w.pending, 200) == {key};
  }

  /** A zero written to the player before the token resolves blanks the item the server has since restored. */
  lemma UnresolvedPlayerLosesItem() returns (s: State, es: seq<Event>, key: Key)
    ensures Sized(s) && AllInRange(es) && Units.Initial(s.units) && Separate(s)
    ensures Units.Field(Run(s, es).units.server, key) == 500 && Units.Field(Run(s, es).units.live, key) == 0
  {
    key := Key(7, 3);
    var fields: map<Key, u32> := map[key := 500];
    s := State(Units.World(map[], fields, fields, {}), seq(VISIBLE_SLOTS, _ => Player.NEW_SLOT), false, UNBOUND);
    var equip: Equip := seq(VISIBLE_SLOTS, _ => 1);
    var early, late := Call(9, 7, 0, None, equip), Call(9, 7, 7, Some(9), equip);
    es := [Visible(early, 3, 0, 10, 1, true), Visible(late, 3, 500, 20, 1, true), Flush(200, {7})];
    RunOfThree(s, es[0], es[1], es[2]);
    ZeroGoesToTable(s, early, 3);
    var s1 := Step(s, es[0]);
    RestoreGoesToMirror(s1, late, 3);
    FlushAppliesZero(Step(s1, es[1]).units, key);
  }
}
