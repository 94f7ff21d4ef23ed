/** The local player's visible slots: what the coalescer decides, and what the screen then shows. */
module PlayerMirror {
  import opened Options
  import opened Words

  const INV_EQUIP_PAIR: nat := 5
  const INV_GUID_DWORDS: nat := 0x30
  const PLAYER_PENDING_TTL_MS: u32 := 0x1388

  datatype PlayerSlot = PlayerSlot(value: u32, stamp: u32, deferred: u32, valid: bool, hasDeferred: bool)

  const EMPTY_PLAYER_SLOT := PlayerSlot(0, 0, 0, false, false)

  datatype PlayerWrite =
    | Passthrough
    | Swallow
    | SwallowAndScan
    | SwallowDeferredItem(guid: u64, value: u32)
    | ApplyZero

  datatype InvWrite = InvPassthrough | ApplyZeroThenPassthrough(slot: nat)

  /** Everything the coalescer holds about one visible slot. */
  datatype SlotView = SlotView(entry: PlayerSlot, last: u32, equip: u64)

  const NEW_SLOT := SlotView(EMPTY_PLAYER_SLOT, 0, 0)

  function Cleared(e: PlayerSlot): PlayerSlot { e.(valid := false, hasDeferred := false) }

  function VisibleWriteOf(v: SlotView, bound: bool, value: u32, now: u32): (SlotView, PlayerWrite) {
    if value != 0 then
      if !v.entry.valid then
        (v.(last := value), Passthrough)
      else if value != v.entry.value then
        (v.(entry := Cleared(v.entry), last := value), Passthrough)
      else if !v.entry.hasDeferred then
        (v.(entry := v.entry.(valid := false)), SwallowAndScan)
      else if v.entry.deferred == 0 then
        (v.(entry := Cleared(v.entry)), Passthrough)
      else if v.equip == 0 then
        (v.(entry := Cleared(v.entry)), SwallowAndScan)
      else
        (v.(entry := Cleared(v.entry)), SwallowDeferredItem(v.equip, v.entry.deferred))
    else if v.last == 0 then
      (v, Passthrough)
    else if bound && v.equip == 0 then
      (v.(last := 0), ApplyZero)
    else
      (v.(entry := PlayerSlot(v.last, now, v.entry.deferred, true, false)), Swallow)
  }

  /** A write to the low or the high half of the slot's equipped-item GUID; the flag asks for a zero on screen first. */
  function GuidWriteOf(v: SlotView, low: bool, value: u32): (SlotView, bool) {
    var equip: u64 := if low then v.equip / TWO32 * TWO32 + value else v.equip % TWO32 + value * TWO32;
    if low && value == 0 && v.entry.valid then
      (SlotView(Cleared(v.entry), 0, equip), true)
    else
      (v.(equip := equip), false)
  }

  function DeferOf(v: SlotView, value: u32, now: u32): (SlotView, bool) {
    if v.entry.valid then
      (v.(entry := v.entry.(deferred := value, hasDeferred := true, stamp := now)), true)
    else
      (v, false)
  }

  predicate Expired(e: PlayerSlot, now: u32) {
    e.valid && WrapSub(now, e.stamp) >= PLAYER_PENDING_TTL_MS
  }

  function ExpireOf(v: SlotView, now: u32): SlotView {
    if Expired(v.entry, now) then v.(entry := Cleared(v.entry)) else v
  }

  /** How many slots hold a parked zero. */
  function CountValid(ps: seq<PlayerSlot>): nat {
    if ps == [] then 0 else CountValid(ps[..|ps| - 1]) + if ps[|ps| - 1].valid then 1 else 0
  }

  /** Replacing one slot moves the count by the change in that slot. */
  lemma {:induction false} CountValidUpdate(ps: seq<PlayerSlot>, i: nat, p: PlayerSlot)
    requires i < |ps|
    ensures CountValid(ps[i := p]) == CountValid(ps) - (if ps[i].valid then 1 else 0) + (if p.valid then 1 else 0)
  {
    var n := |ps| - 1;
    if i < n {
      assert ps[i := p][..n] == ps[..n][i := p];
      CountValidUpdate(ps[..n], i, p);
    } else {
      assert ps[i := p][..n] == ps[..n];
    }
  }

  /** The count is zero exactly when nothing is parked. */
  lemma {:induction false} NoneValidIffZero(ps: seq<PlayerSlot>)
    ensures CountValid(ps) == 0 <==> forall i :: 0 <= i < |ps| ==> !ps[i].valid
  {
    if ps != [] {
      var n := |ps| - 1;
      NoneValidIffZero(ps[..n]);
      assert forall i :: 0 <= i < n ==> ps[..n][i] == ps[i];
    }
  }

  /** One slot, the descriptor field behind it, and the value the server last wrote to that field. */
  datatype SlotWorld = SlotWorld(view: SlotView, bound: bool, screen: u32, server: u32, known: bool)

  /** `Bind` names whether the player object is still the one the mirrors described. */
  datatype Event =
    | Visible(value: u32, now: u32)
    | GuidHalf(low: bool, half: u32)
    | Defer(item: u32, at: u32)
    | Expire(tick: u32)
    | Bind(equip: u64, sameObject: bool, shown: u32)
    | Unbind

  /** The descriptor after the adapter has acted on a verdict. */
  function ScreenAfter(verdict: PlayerWrite, value: u32, screen: u32): u32 {
    match verdict
    case Passthrough => value
    case ApplyZero => 0
    case _ => screen
  }

  function Step(w: SlotWorld, e: Event): SlotWorld {
    match e
    case Visible(value, now) =>
      var (view, verdict) := VisibleWriteOf(w.view, w.bound, value, now);
      SlotWorld(view, w.bound, ScreenAfter(verdict, value, w.screen), value, true)
    case GuidHalf(low, half) =>
      var (view, applied) := GuidWriteOf(w.view, low, half);
      w.(view := view, screen := if applied then 0 else w.screen)
    case Defer(item, at) => w.(view := DeferOf(w.view, item, at).0)
    case Expire(tick) => w.(view := ExpireOf(w.view, tick))
    case Bind(equip, same, shown) =>
      var screen := if same then w.screen else shown;
      SlotWorld(w.view.(equip := equip, last := screen), true, screen, if same then w.server else shown, true)
    case Unbind => w.(bound := false)
  }

  function Run(w: SlotWorld, es: seq<Event>): SlotWorld
    decreases es
  {
    if es == [] then w else Run(Step(w, es[0]), es[1..])
  }

  predicate Initial(w: SlotWorld) {
    w.view == NEW_SLOT && !w.bound && w.screen == w.server && !w.known
  }

  /** What every run keeps, whatever order the writes come in. */
  predicate WellFormed(w: SlotWorld) {
    && (!w.known ==> w.view.last == 0)
    && (w.view.entry.valid ==> w.known && w.view.entry.value != 0)
    && (w.view.entry.hasDeferred ==> w.view.entry.valid)
  }

  /**
   * The mirror is the screen, a pending entry describes the screen, and the
   * screen contradicts the server only by still showing an item.
   */
  predicate Faithful(w: SlotWorld) {
    && WellFormed(w)
    && (w.known ==> w.view.last == w.screen)
    && (w.view.entry.valid ==> w.view.entry.value == w.screen && w.server == 0)
    && (w.server != 0 ==> w.screen == w.server)
  }

  /** The two guards under which a pending entry outlives the state it described. */
  predicate Hazard(w: SlotWorld, e: Event) {
    match e
    case Visible(value, _) => value == 0 && w.view.last != 0 && w.bound && w.view.equip == 0 && w.view.entry.valid
    case Bind(_, same, _) => !same && w.view.entry.valid
    case _ => false
  }

  lemma {:induction false} RunsStayWellFormed(w: SlotWorld, es: seq<Event>)
    requires WellFormed(w)
    ensures WellFormed(Run(w, es))
    decreases es
  {
    if es != [] {
      RunsStayWellFormed(Step(w, es[0]), es[1..]);
    }
  }

  /** Faithfulness is lost by a step exactly when that step hits a hazard. */
  lemma FaithfulUnlessHazard(w: SlotWorld, e: Event)
    requires Faithful(w)
    ensures Faithful(Step(w, e)) <==> !Hazard(w, e)
  {
    match e
    case Visible(_, _) =>
    case Bind(_, _, _) =>
    case _ =>
  }

  /** A run that never meets a hazard. */
  predicate Safe(w: SlotWorld, es: seq<Event>)
    decreases es
  {
    es == [] || (!Hazard(w, es[0]) && Safe(Step(w, es[0]), es[1..]))
  }

  lemma {:induction false} SafeRunsStayFaithful(w: SlotWorld, es: seq<Event>)
    requires Faithful(w) && Safe(w, es)
    ensures Faithful(Run(w, es))
    decreases es
  {
    if es != [] {
      FaithfulUnlessHazard(w, es[0]);
      SafeRunsStayFaithful(Step(w, es[0]), es[1..]);
    }
  }

  /** A run is faithful at every point exactly when it never meets a hazard. */
  lemma {:induction false} FaithfulThroughoutIffSafe(w: SlotWorld, es: seq<Event>)
    requires Faithful(w)
    ensures (forall n: nat :: n <= |es| ==> Faithful(Run(w, es[..n]))) <==> Safe(w, es)
    decreases es
  {
    if es == [] {
      assert es[..0] == [];
    } else {
      var next, rest := Step(w, es[0]), es[1..];
      FaithfulUnlessHazard(w, es[0]);
      assert forall n: nat :: n <= |rest| ==> es[..n + 1][1..] == rest[..n];
      assert forall n: nat :: n <= |rest| ==> Run(w, es[..n + 1]) == Run(next, rest[..n]);
      assert Run(w, es[..0]) == w && Run(next, rest[..0]) == next;
      assert forall n: nat :: 0 < n <= |es| ==> Run(w, es[..n]) == Run(next, rest[..n - 1]);
      if Faithful(next) {
        FaithfulThroughoutIffSafe(next, rest);
      } else {
        assert Run(w, es[..0 + 1]) == next;
      }
    }
  }

  /**
   * How a slot is meant to be driven: GUID halves come back to back, low first,
   * and no binding names a new object or an empty slot while a zero is parked.
   */
  predicate Disciplined(w: SlotWorld, es: seq<Event>)
    decreases es
  {
    if es == [] then true
    else
      match es[0]
      case GuidHalf(low, lo) =>
        && low && |es| > 1 && es[1].GuidHalf? && !es[1].low
        && Disciplined(Step(Step(w, es[0]), es[1]), es[2..])
      case Bind(equip, same, _) =>
        (w.view.entry.valid ==> same && equip != 0) && Disciplined(Step(w, es[0]), es[1..])
      case _ => Disciplined(Step(w, es[0]), es[1..])
  }

  /** While bound, nothing is parked on an empty slot. */
  predicate NoneParkedOnEmpty(w: SlotWorld) {
    w.bound && w.view.equip == 0 ==> !w.view.entry.valid
  }

  lemma {:induction false} DisciplinedRunsAreSafe(w: SlotWorld, es: seq<Event>)
    requires NoneParkedOnEmpty(w) && Disciplined(w, es)
    ensures Safe(w, es) && NoneParkedOnEmpty(Run(w, es))
    decreases es
  {
    if es != [] {
      if es[0].GuidHalf? {
        assert es[1..][1..] == es[2..];
        DisciplinedRunsAreSafe(Step(Step(w, es[0]), es[1]), es[2..]);
      } else {
        DisciplinedRunsAreSafe(Step(w, es[0]), es[1..]);
      }
    }
  }

  /** With whole GUID writes the mirror, the parked entries, the screen and the server agree on every run. */
  lemma DisciplinedRunsStayFaithful(w: SlotWorld, es: seq<Event>)
    requires Initial(w) && Disciplined(w, es)
    ensures Faithful(Run(w, es))
  {
    DisciplinedRunsAreSafe(w, es);
    SafeRunsStayFaithful(w, es);
  }

  /** In a faithful world a swallowed nonzero write is one the screen already shows. */
  lemma SwallowedRestoreIsNoOp(w: SlotWorld, value: u32, now: u32)
    requires Faithful(w) && value != 0
    ensures Step(w, Visible(value, now)).screen == value
  {
  }

  /**
   * Without the pairing the property fails: zeroes written between and after
   * the two halves of a cleared GUID leave a parked entry behind, and the next
   * real item is swallowed while the screen shows an empty slot.
   */
  lemma SplitGuidLosesAnItem() returns (w: SlotWorld, es: seq<Event>)
    ensures Initial(w) && Run(w, es).server == 500 && Run(w, es).screen == 0
  {
    w := SlotWorld(NEW_SLOT, false, 500, 500, false);
    es := [Bind(TWO32 + 7, true, 500), GuidHalf(true, 0), Visible(0, 10),
           GuidHalf(false, 0), Visible(0, 20), Visible(500, 30)];
    var w1 := Step(w, es[0]);
    var w2 := Step(w1, es[1]);
    var w3 := Step(w2, es[2]);
    var w4 := Step(w3, es[3]);
    var w5 := Step(w4, es[4]);
    assert Run(w, es) == Run(w1, es[1..]) == Run(w2, es[1..][1..]) == Run(w3, es[1..][1..][1..]);
    assert es[1..][1..][1..] == es[3..];
    assert Run(w3, es[3..]) == Run(w4, es[3..][1..]) == Run(w5, es[3..][1..][1..]);
    assert es[3..][1..][1..] == [es[5]] && [es[5]][1..] == [];
    assert Run(w5, [es[5]]) == Run(Step(w5, es[5]), []);
  }

  // ---- What is swallowed, and what comes back ----------------------------

  /** A low and a high half, in either order, make the whole GUID; either one alone keeps the other half. */
  lemma HalvesMake(v: SlotView, lo: u32, hi: u32)
    ensures GuidWriteOf(GuidWriteOf(v, true, lo).0, false, hi).0.equip == hi * TWO32 + lo
    ensures GuidWriteOf(GuidWriteOf(v, false, hi).0, true, lo).0.equip == hi * TWO32 + lo
    ensures GuidWriteOf(v, true, lo).0.equip / TWO32 == v.equip / TWO32
    ensures GuidWriteOf(v, false, hi).0.equip % TWO32 == v.equip % TWO32
  {
  }

  /** A zero the mirror agrees to: the screen shows an item, and the slot is not known to be empty. */
  predicate Swallowable(w: SlotWorld) {
    w.view.last != 0 && (w.bound ==> w.view.equip != 0)
  }

  /**
   * In agreement, a zero is swallowed exactly when the screen shows an item in a slot that is not known
   * to be empty; the item then stays on the screen. In every other case the screen is blank afterwards.
   */
  lemma ZeroIsSwallowedIff(w: SlotWorld, now: u32)
    requires Faithful(w) && w.known
    ensures var (view, verdict) := VisibleWriteOf(w.view, w.bound, 0, now);
      && (verdict == Swallow <==> w.screen != 0 && !(w.bound && w.view.equip == 0))
      && (verdict == ApplyZero <==> w.screen != 0 && w.bound && w.view.equip == 0)
      && (verdict == Passthrough <==> w.screen == 0)
      && Step(w, Visible(0, now)).screen == (if verdict == Swallow then w.screen else 0)
      && (verdict == Swallow ==> view.entry.valid && view.entry.value == w.screen && view.entry.stamp == now)
  {
  }

  /** Nothing ends a zero parked at `since`: item writes, younger ticks, GUID halves that do not clear the slot. */
  predicate Waits(es: seq<Event>, since: u32)
    decreases es
  {
    if es == [] then true
    else
      match es[0]
      case Defer(_, at) => Waits(es[1..], at)
      case Expire(tick) => WrapSub(tick, since) < 5000 && Waits(es[1..], since)
      case GuidHalf(low, half) => !(low && half == 0) && Waits(es[1..], since)
      case Unbind => Waits(es[1..], since)
      case _ => false
  }

  /** The last item write of a run, if there is one. */
  function LastItem(es: seq<Event>, otherwise: Option<u32>): Option<u32>
    decreases es
  {
    if es == [] then otherwise
    else LastItem(es[1..], if es[0].Defer? then Some(es[0].item) else otherwise)
  }

  /** When the entry was last touched. */
  function LastTouch(es: seq<Event>, since: u32): u32
    decreases es
  {
    if es == [] then since else LastTouch(es[1..], if es[0].Defer? then es[0].at else since)
  }

  /** A zero parked over `shown`, with the item written meanwhile. */
  predicate Parked(w: SlotWorld, shown: u32, since: u32, item: Option<u32>) {
    && w.view.entry.valid && w.view.entry.value == shown && w.view.entry.stamp == since
    && w.view.entry.hasDeferred == item.Some? && (item.Some? ==> w.view.entry.deferred == item.value)
  }

  lemma {:induction false} ParkedWaits(w: SlotWorld, es: seq<Event>, shown: u32, since: u32, item: Option<u32>)
    requires Parked(w, shown, since, item) && Waits(es, since)
    ensures Parked(Run(w, es), shown, LastTouch(es, since), LastItem(es, item))
    ensures Run(w, es).screen == w.screen
    decreases es
  {
    if es != [] {
      var next := Step(w, es[0]);
      ParkedWaits(next, es[1..], shown, if es[0].Defer? then es[0].at else since,
                  if es[0].Defer? then Some(es[0].item) else item);
    }
  }

  /** What a write of the shown value is answered with, given the item parked and the GUID now equipped. */
  function Answer(item: Option<u32>, equip: u64): PlayerWrite {
    match item
    case None => SwallowAndScan
    case Some(0) => Passthrough
    case Some(value) => if equip == 0 then SwallowAndScan else SwallowDeferredItem(equip, value)
  }

  /**
   * After a swallowed zero and whatever waits behind it, the write of the value still shown is answered
   * with the last item written meanwhile, for the GUID then equipped; any other value goes through and
   * drops the item. Either way nothing stays parked.
   */
  lemma RestoreReturnsItem(w: SlotWorld, t0: u32, meanwhile: seq<Event>, value: u32, t1: u32)
    requires Swallowable(w) && value != 0 && Waits(meanwhile, t0)
    ensures VisibleWriteOf(w.view, w.bound, 0, t0).1 == Swallow
    ensures var held := Run(Step(w, Visible(0, t0)), meanwhile);
      var (view, verdict) := VisibleWriteOf(held.view, held.bound, value, t1);
      && held.screen == w.screen && !view.entry.valid
      && verdict == if value == w.view.last then Answer(LastItem(meanwhile, None), held.view.equip) else Passthrough
  {
    var parked := Step(w, Visible(0, t0));
    ParkedWaits(parked, meanwhile, w.view.last, t0, None);
  }

  /** A parked zero is dropped, with its item, exactly by a tick 5 seconds or more after it was last touched. */
  lemma ExpiresIff(w: SlotWorld, t0: u32, meanwhile: seq<Event>, tick: u32)
    requires Swallowable(w) && Waits(meanwhile, t0)
    ensures var held := Run(Step(w, Visible(0, t0)), meanwhile);
      var after := Step(held, Expire(tick));
      && (after.view.entry.valid <==> WrapSub(tick, LastTouch(meanwhile, t0)) < 5000)
      && (!after.view.entry.valid ==> !after.view.entry.hasDeferred)
      && after.screen == w.screen && after.view.last == held.view.last
  {
    var parked := Step(w, Visible(0, t0));
    ParkedWaits(parked, meanwhile, w.view.last, t0, None);
  }

  /** With nothing parked, an item write is left to the stock client and a nonzero write goes through. */
  lemma NothingParked(v: SlotView, bound: bool, value: u32, now: u32)
    requires !v.entry.valid
    ensures !DeferOf(v, value, now).1 && DeferOf(v, value, now).0 == v
    ensures value != 0 ==> VisibleWriteOf(v, bound, value, now) == (v.(last := value), Passthrough)
  {
  }
}
