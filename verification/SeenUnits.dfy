/** Recently seen units: when an enter-world is nothing but an appearance flicker. */
module SeenUnits {
  import opened Words
  import opened VisibleItems
  import opened Options

  const SEEN_UNITS: nat := 64

  type Fields = s: seq<u32> | |s| == VISIBLE_SLOTS witness [0, 0, 0, 0, 0, 0, 0, 0, 0, 0, 0, 0, 0, 0, 0, 0, 0, 0, 0]

  const NO_FIELDS: Fields := [0, 0, 0, 0, 0, 0, 0, 0, 0, 0, 0, 0, 0, 0, 0, 0, 0, 0, 0]

  datatype SeenUnit = SeenUnit(guid: u64, stamp: u32, snapshot: Fields, zeroStamp: Fields, pending: bool, used: bool)

  const EMPTY_SEEN := SeenUnit(0, 0, NO_FIELDS, NO_FIELDS, false, false)

  /** One enter-world of a unit: its live fields and the clock. */
  datatype Sighting = Sighting(shown: Fields, at: u32)

  function Snapshot(h: seq<Sighting>): Fields {
    if h == [] then NO_FIELDS else h[|h| - 1].shown
  }

  /**
   * Sighting `j` recorded slot `s` going from an item to nothing, and every sighting since found it
   * empty within the window.
   */
  predicate ZeroedAt(h: seq<Sighting>, s: nat, j: int)
    requires s < VISIBLE_SLOTS
  {
    && 0 < j < |h| && h[j].at != 0 && h[j - 1].shown[s] != 0
    && forall k :: j <= k < |h| ==> h[k].shown[s] == 0 && WrapSub(h[k].at, h[j].at) < RESTORE_WINDOW_MS
  }

  /** Slot `s` came back, and its own zeroing is less than the window ago. */
  ghost predicate RestoredInWindow(h: seq<Sighting>, s: nat, shown: Fields, now: u32)
    requires s < VISIBLE_SLOTS
  {
    && Snapshot(h)[s] == 0 && shown[s] != 0
    && exists j :: ZeroedAt(h, s, j) && WrapSub(now, h[j].at) < RESTORE_WINDOW_MS
  }

  /** Something differs from the last sighting, and every difference is a slot restored in its window. */
  ghost predicate PureFlicker(h: seq<Sighting>, shown: Fields, now: u32) {
    && shown != Snapshot(h)
    && forall s :: 0 <= s < VISIBLE_SLOTS && shown[s] != Snapshot(h)[s] ==> RestoredInWindow(h, s, shown, now)
  }

  /** The entry is the digest of its unit's sightings. */
  ghost predicate Digests(e: SeenUnit, h: seq<Sighting>) {
    && (h != [] ==> e.stamp == h[|h| - 1].at)
    && e.snapshot == Snapshot(h)
    && forall s :: 0 <= s < VISIBLE_SLOTS ==> StampRight(e.zeroStamp[s], h, s)
  }

  /** A slot's stamp is the time of its open zeroing, or zero when there is none. */
  ghost predicate StampRight(z: u32, h: seq<Sighting>, s: nat)
    requires s < VISIBLE_SLOTS
  {
    && (forall j :: ZeroedAt(h, s, j) ==> z == h[j].at)
    && (z != 0 ==> exists j :: ZeroedAt(h, s, j))
  }

  /** First pass over one slot: stamp a zeroing, forget a stamp that a restore or a direct change used up. */
  function Marked(stored: u32, live: u32, z: u32, now: u32): u32 {
    if stored == live then z
    else if stored != 0 && live == 0 then now
    else if stored == 0 && live != 0 then
      if z != 0 && WrapSub(now, z) < RESTORE_WINDOW_MS then 0 else z
    else 0
  }

  /** Second pass: drop a stamp that left the window. */
  function Pruned(z: u32, now: u32): u32 {
    if z != 0 && WrapSub(now, z) >= RESTORE_WINDOW_MS then 0 else z
  }

  predicate Restores(stored: u32, live: u32, z: u32, now: u32) {
    stored == 0 && live != 0 && z != 0 && WrapSub(now, z) < RESTORE_WINDOW_MS
  }

  /** An open zeroing stays open while the slot stays empty within the window. */
  lemma ZeroedLonger(h: seq<Sighting>, s: nat, x: Sighting, j: nat)
    requires s < VISIBLE_SLOTS && j < |h|
    ensures ZeroedAt(h + [x], s, j) <==>
            ZeroedAt(h, s, j) && x.shown[s] == 0 && WrapSub(x.at, h[j].at) < RESTORE_WINDOW_MS
  {
    var h' := h + [x];
    assert forall k :: 0 <= k < |h| ==> h'[k] == h[k];
    assert h'[|h|] == x;
  }

  /** A sighting is itself a zeroing when it finds the slot newly empty. */
  lemma ZeroedNow(h: seq<Sighting>, s: nat, x: Sighting)
    requires s < VISIBLE_SLOTS
    ensures ZeroedAt(h + [x], s, |h|) <==> x.at != 0 && Snapshot(h)[s] != 0 && x.shown[s] == 0
  {
    assert (h + [x])[|h|] == x && (h != [] ==> (h + [x])[|h| - 1] == h[|h| - 1]);
  }

  /** A slot with an open zeroing was last seen empty. */
  lemma OpenIsEmpty(h: seq<Sighting>, s: nat, j: int)
    requires s < VISIBLE_SLOTS && ZeroedAt(h, s, j)
    ensures Snapshot(h)[s] == 0
  {
    assert h[|h| - 1].shown[s] == 0;
  }

  /** The two passes move a right stamp to the right stamp after one more sighting. */
  lemma StampStep(z: u32, h: seq<Sighting>, s: nat, shown: Fields, now: u32)
    requires s < VISIBLE_SLOTS && StampRight(z, h, s)
    ensures StampRight(Pruned(Marked(Snapshot(h)[s], shown[s], z, now), now), h + [Sighting(shown, now)], s)
  {
    var x := Sighting(shown, now);
    var h' := h + [x];
    var z' := Pruned(Marked(Snapshot(h)[s], shown[s], z, now), now);
    ZeroedNow(h, s, x);
    forall j | ZeroedAt(h', s, j) ensures z' == h'[j].at {
      if j < |h| {
        ZeroedLonger(h, s, x, j);
        OpenIsEmpty(h, s, j);
        assert h'[j] == h[j];
      }
    }
    if z' != 0 && !ZeroedAt(h', s, |h|) {
      var j :| ZeroedAt(h, s, j);
      OpenIsEmpty(h, s, j);
      ZeroedLonger(h, s, x, j);
    }
  }

  /** The stamp test of the code is the history test. */
  lemma RestoresIsHistory(z: u32, h: seq<Sighting>, s: nat, shown: Fields, now: u32)
    requires s < VISIBLE_SLOTS && StampRight(z, h, s)
    ensures Restores(Snapshot(h)[s], shown[s], z, now) <==> RestoredInWindow(h, s, shown, now)
  {
    if z != 0 {
      var j :| ZeroedAt(h, s, j);
    }
  }

  /** A digest's nonzero stamps belong to empty slots and are younger than the window. */
  lemma StampsAreOpen(e: SeenUnit, h: seq<Sighting>, s: nat)
    requires Digests(e, h) && s < VISIBLE_SLOTS && e.zeroStamp[s] != 0
    ensures e.snapshot[s] == 0 && WrapSub(e.stamp, e.zeroStamp[s]) < RESTORE_WINDOW_MS
  {
    assert StampRight(e.zeroStamp[s], h, s);
    var j :| ZeroedAt(h, s, j);
    assert h[|h| - 1].shown[s] == 0;
  }

  /** Something changed, and every changed slot passes the code's stamp test. */
  predicate OnlyRestores(e: SeenUnit, shown: Fields, now: u32) {
    && e.snapshot != shown
    && forall s :: 0 <= s < VISIBLE_SLOTS && e.snapshot[s] != shown[s] ==>
         Restores(e.snapshot[s], shown[s], e.zeroStamp[s], now)
  }

  /** One sighting: the updated entry digests the longer history, and the code's verdict is the history's verdict. */
  lemma DigestStep(was: SeenUnit, h: seq<Sighting>, shown: Fields, now: u32, e: SeenUnit)
    requires Digests(was, h)
    requires e.stamp == now && e.snapshot == shown
    requires forall s :: 0 <= s < VISIBLE_SLOTS ==>
      e.zeroStamp[s] == Pruned(Marked(was.snapshot[s], shown[s], was.zeroStamp[s], now), now)
    ensures Digests(e, h + [Sighting(shown, now)])
    ensures OnlyRestores(was, shown, now) <==> PureFlicker(h, shown, now)
  {
    forall s | 0 <= s < VISIBLE_SLOTS
      ensures StampRight(e.zeroStamp[s], h + [Sighting(shown, now)], s)
      ensures Restores(was.snapshot[s], shown[s], was.zeroStamp[s], now) <==> RestoredInWindow(h, s, shown, now)
    {
      StampStep(was.zeroStamp[s], h, s, shown, now);
      RestoresIsHistory(was.zeroStamp[s], h, s, shown, now);
    }
  }

  lemma FreshDigest(guid: u64, stamp: u32)
    ensures Digests(EMPTY_SEEN.(guid := guid, stamp := stamp, used := true), [])
  {
  }

  /** Where a unit's entry sits and what it has been shown since it claimed it. */
  datatype Tenure = Tenure(place: nat, history: seq<Sighting>)

  /** The table tracks exactly the units of `tenure`, each in its own entry. */
  ghost predicate Tracked(seen: seq<SeenUnit>, tenure: map<u64, Tenure>) {
    && |seen| == SEEN_UNITS
    && (forall g :: g in tenure ==>
          && tenure[g].place < |seen| && seen[tenure[g].place].used && seen[tenure[g].place].guid == g
          && tenure[g].history != [])
    && (forall i :: 0 <= i < |seen| && seen[i].used ==>
          seen[i].guid in tenure && tenure[seen[i].guid].place == i && Digests(seen[i], tenure[seen[i].guid].history))
  }

  function History(tenure: map<u64, Tenure>, guid: u64): seq<Sighting> {
    if guid in tenure then tenure[guid].history else []
  }

  /** A sighting of `guid` that went through entry `place`. */
  datatype Visit = Visit(guid: u64, place: nat, sighting: Sighting)

  /** The tenures after one visit: whichever other unit held that entry gives it up. */
  ghost function Sighted(tenure: map<u64, Tenure>, v: Visit): map<u64, Tenure> {
    (map g | g in tenure && tenure[g].place != v.place :: tenure[g])
      [v.guid := Tenure(v.place, History(tenure, v.guid) + [v.sighting])]
  }

  /** The entry a unit uses: its own, else a free one, else one with the lowest stamp of a full table. */
  ghost predicate Claimable(seen: seq<SeenUnit>, tenure: map<u64, Tenure>, guid: u64, place: nat)
    requires place < |seen|
  {
    if guid in tenure then place == tenure[guid].place
    else seen[place].used ==> forall i :: 0 <= i < |seen| ==> seen[i].used && seen[place].stamp <= seen[i].stamp
  }

  /**
   * A sighting extends its own unit's history and keeps every other unit's,
   * except that a new unit in a full table ends the tenure of a unit whose last
   * sighting carries the lowest stamp.
   */
  lemma SightedKeeps(seen: seq<SeenUnit>, tenure: map<u64, Tenure>, v: Visit)
    requires Tracked(seen, tenure) && v.place < |seen| && Claimable(seen, tenure, v.guid, v.place)
    ensures var after := Sighted(tenure, v);
      && History(after, v.guid) == History(tenure, v.guid) + [v.sighting]
      && (forall g :: g in after && g != v.guid ==> g in tenure && after[g] == tenure[g])
      && (forall g :: g in tenure && g !in after ==>
            && g == seen[v.place].guid && v.guid !in tenure
            && forall g' :: g' in tenure ==> LastStamp(tenure[g]) <= LastStamp(tenure[g']))
  {
    forall g, g' | g in tenure && g !in Sighted(tenure, v) && g' in tenure
      ensures LastStamp(tenure[g]) <= LastStamp(tenure[g'])
    {
      assert Digests(seen[tenure[g].place], tenure[g].history);
      assert Digests(seen[tenure[g'].place], tenure[g'].history);
    }
  }

  function LastStamp(t: Tenure): u32 {
    if t.history == [] then 0 else t.history[|t.history| - 1].at
  }

  /** Replacing one entry by the digest of its new history keeps every unit in exactly one entry. */
  lemma SightedTracked(seen: seq<SeenUnit>, tenure: map<u64, Tenure>, v: Visit, e: SeenUnit)
    requires Tracked(seen, tenure) && v.place < |seen|
    requires v.guid in tenure ==> tenure[v.guid].place == v.place
    requires e.used && e.guid == v.guid && Digests(e, History(tenure, v.guid) + [v.sighting])
    ensures Tracked(seen[v.place := e], Sighted(tenure, v))
  {
  }

  /** The whole effect of one sighting through entry `place`, seen as histories. */
  lemma SightingStep(seen: seq<SeenUnit>, claimed: SeenUnit, tenure: map<u64, Tenure>, v: Visit, e: SeenUnit)
    requires Tracked(seen, tenure) && v.place < |seen|
    requires v.guid in tenure ==> tenure[v.guid].place == v.place && claimed == seen[v.place]
    requires v.guid !in tenure ==> claimed == EMPTY_SEEN.(guid := v.guid, stamp := v.sighting.at, used := true)
    requires e.used && e.guid == v.guid && e.stamp == v.sighting.at && e.snapshot == v.sighting.shown
    requires var now := v.sighting.at;
             forall s :: 0 <= s < VISIBLE_SLOTS ==>
               e.zeroStamp[s] ==
               Pruned(Marked(claimed.snapshot[s], v.sighting.shown[s], claimed.zeroStamp[s], now), now)
    ensures Tracked(seen[v.place := e], Sighted(tenure, v))
    ensures OnlyRestores(claimed, v.sighting.shown, v.sighting.at) <==>
            PureFlicker(History(tenure, v.guid), v.sighting.shown, v.sighting.at)
  {
    var h := History(tenure, v.guid);
    assert Digests(claimed, h) by {
      FreshDigest(v.guid, v.sighting.at);
    }
    DigestStep(claimed, h, v.sighting.shown, v.sighting.at, e);
    SightedTracked(seen, tenure, v, e);
  }

  // ---- Whole runs of sightings -------------------------------------------

  /** The tenures after a run of visits. */
  ghost function Tenures(log: seq<Visit>): map<u64, Tenure> {
    if log == [] then map[] else Sighted(Tenures(log[..|log| - 1]), log[|log| - 1])
  }

  /** The entry a unit holds after a run: the one of its last visit, until another unit is sighted through it. */
  function PlaceOf(log: seq<Visit>, guid: u64): Option<nat> {
    if log == [] then None
    else
      var before, last := PlaceOf(log[..|log| - 1], guid), log[|log| - 1];
      if last.guid == guid then Some(last.place)
      else if before == Some(last.place) then None
      else before
  }

  /** All sightings of one unit in a run. */
  function Sightings(log: seq<Visit>, guid: u64): seq<Sighting> {
    if log == [] then []
    else
      var last := log[|log| - 1];
      Sightings(log[..|log| - 1], guid) + if last.guid == guid then [last.sighting] else []
  }

  /** Visit `c` gave `guid` the entry it has held ever since. */
  ghost predicate ClaimedAt(log: seq<Visit>, guid: u64, c: nat) {
    && c < |log| && log[c].guid == guid && PlaceOf(log[..c], guid).None?
    && forall k :: c < k <= |log| ==> PlaceOf(log[..k], guid).Some?
  }

  lemma {:induction false} TenuresArePlaces(log: seq<Visit>, guid: u64)
    ensures guid in Tenures(log) <==> PlaceOf(log, guid).Some?
    ensures guid in Tenures(log) ==> PlaceOf(log, guid) == Some(Tenures(log)[guid].place)
  {
    if log != [] {
      TenuresArePlaces(log[..|log| - 1], guid);
    }
  }

  /** A unit that keeps its entry through one more visit keeps its claim, and gains that visit if it is its own. */
  lemma ClaimKept(front: seq<Visit>, last: Visit, guid: u64, c: nat)
    requires ClaimedAt(front, guid, c) && PlaceOf(front + [last], guid).Some?
    ensures ClaimedAt(front + [last], guid, c)
    ensures Sightings((front + [last])[c..], guid) ==
            Sightings(front[c..], guid) + if last.guid == guid then [last.sighting] else []
  {
    var log := front + [last];
    forall k | c < k <= |log|
      ensures PlaceOf(log[..k], guid).Some?
    {
      if k == |log| {
        assert log[..k] == log;
      } else {
        assert log[..k] == front[..k];
      }
    }
    assert log[..c] == front[..c];
    assert log[c..] == front[c..] + [last];
    assert log[c..][..|front| - c] == front[c..];
  }

  lemma ClaimStarts(front: seq<Visit>, last: Visit)
    requires PlaceOf(front, last.guid).None?
    ensures ClaimedAt(front + [last], last.guid, |front|)
    ensures Sightings((front + [last])[|front|..], last.guid) == [last.sighting]
  {
    var log := front + [last];
    assert log[..|front|] == front;
    assert PlaceOf(log, last.guid) == Some(last.place);
    forall k | |front| < k <= |log|
      ensures PlaceOf(log[..k], last.guid).Some?
    {
      assert log[..k] == log;
    }
    assert log[|front|..] == [last];
    OneSighting(last);
  }

  lemma OneSighting(v: Visit)
    ensures Sightings([v], v.guid) == [v.sighting]
  {
    assert [v][..0] == [];
  }

  /** The history kept for a unit is exactly its sightings since it last claimed an entry. */
  lemma {:induction false} HistoryIsSinceClaim(log: seq<Visit>, guid: u64) returns (c: nat)
    requires guid in Tenures(log)
    ensures ClaimedAt(log, guid, c) && Tenures(log)[guid].history == Sightings(log[c..], guid)
  {
    var front, last := log[..|log| - 1], log[|log| - 1];
    assert log == front + [last];
    TenuresArePlaces(front, guid);
    TenuresArePlaces(log, guid);
    if guid in Tenures(front) {
      c := HistoryIsSinceClaim(front, guid);
      ClaimKept(front, last, guid, c);
    } else {
      c := |front|;
      ClaimStarts(front, last);
    }
  }

  lemma ClaimIsUnique(log: seq<Visit>, guid: u64, c: nat, d: nat)
    requires ClaimedAt(log, guid, c) && ClaimedAt(log, guid, d)
    ensures c == d
  {
  }

  lemma ClaimHoldsEntry(log: seq<Visit>, guid: u64, c: nat)
    requires ClaimedAt(log, guid, c)
    ensures guid in Tenures(log)
  {
    TenuresArePlaces(log, guid);
    assert log[..|log|] == log;
  }

  /**
   * After any run of sightings, recycling included: a unit that holds an entry has as its history its
   * sightings since it last claimed one, and any other unit has none.
   */
  lemma HistoryOfRun(log: seq<Visit>, guid: u64)
    ensures (exists c: nat :: ClaimedAt(log, guid, c)) <==> guid in Tenures(log)
    ensures forall c: nat :: ClaimedAt(log, guid, c) ==> History(Tenures(log), guid) == Sightings(log[c..], guid)
    ensures guid !in Tenures(log) ==> History(Tenures(log), guid) == []
  {
    forall c: nat | ClaimedAt(log, guid, c)
      ensures guid in Tenures(log) && History(Tenures(log), guid) == Sightings(log[c..], guid)
    {
      ClaimHoldsEntry(log, guid, c);
      var d := HistoryIsSinceClaim(log, guid);
      ClaimIsUnique(log, guid, c, d);
    }
    if guid in Tenures(log) {
      var c := HistoryIsSinceClaim(log, guid);
    }
  }
}
