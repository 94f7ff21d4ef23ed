/**
 * The enter-world verdict against the plain rule it stands for: something changed since the last
 * sighting, and every change is a slot that came back less than the window after it was blanked.
 */
module Flicker {
  import opened Words
  import opened VisibleItems
  import opened SeenUnits

  /** Sighting `j` found the slot newly empty and every one since found it empty. */
  predicate BlankedAt(h: seq<Sighting>, s: nat, j: int)
    requires s < VISIBLE_SLOTS
  {
    0 < j < |h| && h[j - 1].shown[s] != 0 && forall k :: j <= k < |h| ==> h[k].shown[s] == 0
  }

  /** The slot is back, and it was blanked less than the window ago on a clock that does not wrap. */
  ghost predicate CameBack(h: seq<Sighting>, ticks: seq<nat>, s: nat, shown: Fields, tick: nat)
    requires s < VISIBLE_SLOTS && |ticks| == |h|
  {
    && Snapshot(h)[s] == 0 && shown[s] != 0
    && exists j :: BlankedAt(h, s, j) && tick - ticks[j] < RESTORE_WINDOW_MS
  }

  ghost predicate PlainFlicker(h: seq<Sighting>, ticks: seq<nat>, shown: Fields, tick: nat)
    requires |ticks| == |h|
  {
    && shown != Snapshot(h)
    && forall s :: 0 <= s < VISIBLE_SLOTS && shown[s] != Snapshot(h)[s] ==> CameBack(h, ticks, s, shown, tick)
  }

  /** The stamps are the low 32 bits of a clock that only runs forward. */
  ghost predicate Timed(h: seq<Sighting>, ticks: seq<nat>, now: u32, tick: nat) {
    && |ticks| == |h| && now == tick % TWO32
    && (forall k :: 0 <= k < |h| ==> h[k].at == ticks[k] % TWO32 && ticks[k] <= tick)
    && (forall j, k :: 0 <= j < k < |h| ==> ticks[j] <= ticks[k])
  }

  /** The 32-bit clock has gone round since the blanking, and every sighting since and now read as inside the window. */
  predicate Aliased(h: seq<Sighting>, ticks: seq<nat>, j: nat, tick: nat)
    requires |ticks| == |h| && j < |h|
  {
    && tick - ticks[j] >= TWO32 && (tick - ticks[j]) % TWO32 < RESTORE_WINDOW_MS
    && forall k :: j <= k < |h| ==> (ticks[k] - ticks[j]) % TWO32 < RESTORE_WINDOW_MS
  }

  /** An age on the 32-bit clock is the true age modulo the clock's period. */
  lemma AgeModulo(a: nat, b: nat)
    requires a <= b
    ensures WrapSub(b % TWO32, a % TWO32) == (b - a) % TWO32
  {
    var p, q := a / TWO32, b / TWO32;
    assert a == TWO32 * p + a % TWO32 && b == TWO32 * q + b % TWO32;
    assert b - a == TWO32 * (q - p) + (b % TWO32 - a % TWO32);
  }

  /** What the code keeps of a blanking, on the true clock. */
  lemma KeptOnTrueClock(h: seq<Sighting>, ticks: seq<nat>, s: nat, now: u32, tick: nat, j: nat)
    requires s < VISIBLE_SLOTS && Timed(h, ticks, now, tick) && j < |h|
    ensures ZeroedAt(h, s, j) && WrapSub(now, h[j].at) < RESTORE_WINDOW_MS <==>
            && BlankedAt(h, s, j) && h[j].at != 0
            && (tick - ticks[j] < RESTORE_WINDOW_MS || Aliased(h, ticks, j, tick))
  {
    AgeModulo(ticks[j], tick);
    forall k | j <= k < |h|
      ensures WrapSub(h[k].at, h[j].at) == (ticks[k] - ticks[j]) % TWO32
      ensures 0 <= ticks[k] - ticks[j] <= tick - ticks[j]
    {
      AgeModulo(ticks[j], ticks[k]);
    }
  }

  /**
   * Exactly when the code takes a slot for restored, on any forward clock: it came back inside the
   * window by the true clock or by one that has gone round unseen, and was not blanked at stamp zero.
   */
  lemma RestoredExactly(h: seq<Sighting>, ticks: seq<nat>, s: nat, shown: Fields, now: u32, tick: nat)
    requires s < VISIBLE_SLOTS && Timed(h, ticks, now, tick)
    ensures RestoredInWindow(h, s, shown, now) <==>
            && Snapshot(h)[s] == 0 && shown[s] != 0
            && exists j: nat :: j < |h| && BlankedAt(h, s, j) && h[j].at != 0 &&
                 (tick - ticks[j] < RESTORE_WINDOW_MS || Aliased(h, ticks, j, tick))
  {
    forall j: nat | j < |h|
      ensures ZeroedAt(h, s, j) && WrapSub(now, h[j].at) < RESTORE_WINDOW_MS <==>
              && BlankedAt(h, s, j) && h[j].at != 0
              && (tick - ticks[j] < RESTORE_WINDOW_MS || Aliased(h, ticks, j, tick))
    {
      KeptOnTrueClock(h, ticks, s, now, tick, j);
    }
  }

  /** A slot is blank since one sighting at most. */
  lemma OneBlanking(h: seq<Sighting>, s: nat, i: int, j: int)
    requires s < VISIBLE_SLOTS && BlankedAt(h, s, i) && BlankedAt(h, s, j)
    ensures i == j
  {
  }

  /** Some changed slot was blanked by a sighting stamped zero. */
  ghost predicate BlankedAtZero(h: seq<Sighting>, shown: Fields) {
    exists s, j :: 0 <= s < VISIBLE_SLOTS && shown[s] != Snapshot(h)[s] && BlankedAt(h, s, j) && h[j].at == 0
  }

  /** The clock has run less than its period since the first sighting kept. */
  predicate WithinPeriod(ticks: seq<nat>, tick: nat) {
    ticks != [] ==> tick - ticks[0] < TWO32
  }

  lemma RestoredIsCameBack(h: seq<Sighting>, ticks: seq<nat>, s: nat, shown: Fields, now: u32, tick: nat)
    requires s < VISIBLE_SLOTS && Timed(h, ticks, now, tick) && WithinPeriod(ticks, tick)
    ensures RestoredInWindow(h, s, shown, now) <==>
            CameBack(h, ticks, s, shown, tick) && forall j :: BlankedAt(h, s, j) ==> h[j].at != 0
  {
    RestoredExactly(h, ticks, s, shown, now, tick);
    forall j: nat | j < |h|
      ensures !Aliased(h, ticks, j, tick)
    {
      assert ticks[0] <= ticks[j];
    }
    forall i, j | BlankedAt(h, s, i) && BlankedAt(h, s, j)
      ensures i == j
    {
      OneBlanking(h, s, i, j);
    }
  }

  /**
   * Within one period of the clock the code's verdict is the plain one, except that it also wants no
   * changed slot to have been blanked at stamp zero.
   */
  lemma VerdictIsPlain(h: seq<Sighting>, ticks: seq<nat>, shown: Fields, now: u32, tick: nat)
    requires Timed(h, ticks, now, tick) && WithinPeriod(ticks, tick)
    ensures PureFlicker(h, shown, now) <==> PlainFlicker(h, ticks, shown, tick) && !BlankedAtZero(h, shown)
  {
    forall s | 0 <= s < VISIBLE_SLOTS
      ensures RestoredInWindow(h, s, shown, now) <==>
              CameBack(h, ticks, s, shown, tick) && forall j :: BlankedAt(h, s, j) ==> h[j].at != 0
    {
      RestoredIsCameBack(h, ticks, s, shown, now, tick);
    }
  }

  function Only(value: u32): Fields {
    NO_FIELDS[0 := value]
  }

  /** A unit blanked at stamp zero and back 40 ms later is not taken for a flicker. */
  lemma ZeroStampIsMissed() returns (h: seq<Sighting>, ticks: seq<nat>, shown: Fields, now: u32, tick: nat)
    ensures Timed(h, ticks, now, tick) && WithinPeriod(ticks, tick)
    ensures PlainFlicker(h, ticks, shown, tick) && !PureFlicker(h, shown, now)
  {
    h := [Sighting(Only(500), 0xffff_fff6), Sighting(NO_FIELDS, 0)];
    ticks := [0xffff_fff6, TWO32];
    shown, now, tick := Only(500), 40, TWO32 + 40;
    assert BlankedAt(h, 0, 1);
    assert shown[0] != Snapshot(h)[0];
    VerdictIsPlain(h, ticks, shown, now, tick);
    forall s | 0 <= s < VISIBLE_SLOTS && shown[s] != Snapshot(h)[s]
      ensures CameBack(h, ticks, s, shown, tick)
    {
      assert s == 0;
    }
  }

  /** A unit blanked and not seen again for one period of the clock and 40 ms is taken for a flicker. */
  lemma WholePeriodIsMissed() returns (h: seq<Sighting>, ticks: seq<nat>, shown: Fields, now: u32, tick: nat)
    ensures Timed(h, ticks, now, tick)
    ensures !PlainFlicker(h, ticks, shown, tick) && PureFlicker(h, shown, now)
  {
    h := [Sighting(Only(500), 10), Sighting(NO_FIELDS, 20)];
    ticks := [10, 20];
    shown, now, tick := Only(500), 60, TWO32 + 60;
    assert BlankedAt(h, 0, 1);
    assert shown[0] != Snapshot(h)[0];
    RestoredExactly(h, ticks, 0, shown, now, tick);
    assert Aliased(h, ticks, 1, tick);
    forall s | 0 <= s < VISIBLE_SLOTS && shown[s] != Snapshot(h)[s]
      ensures RestoredInWindow(h, s, shown, now)
    {
      assert s == 0;
    }
    assert !CameBack(h, ticks, 0, shown, tick);
  }
}
