/**
 * Layer III alias reduction (ISO/IEC 11172-3, section 2.4.3.4): butterflies
 * across subband boundaries, run in place, over the reals.
 */
module Antialias {
  const LINE: nat := 18
  const TAPS: nat := 8

  /** New value of the lane below a boundary, from the old values below (`bu`) and above (`bd`) it. */
  function Down(bu: real, bd: real, ca: real, cs: real): real { bu * cs - bd * ca }

  /** New value of the lane above a boundary. */
  function Up(bu: real, bd: real, ca: real, cs: real): real { bd * cs + bu * ca }

  function LowLane(b: nat, i: nat): int { LINE * (b + 1) - 1 - i }

  function HighLane(b: nat, i: nat): nat { LINE * (b + 1) + i }

  /** The butterfly, counted over all boundaries, that owns lane `j`; negative for lanes no butterfly owns. */
  function Owner(j: nat): int {
    var line, r := j / LINE, j % LINE;
    if r < TAPS then TAPS * (line - 1) + r
    else if r >= LINE - TAPS then TAPS * line + LINE - 1 - r
    else -1
  }

  lemma SameDigits(base: nat, a: int, r: int, b: int, s: int)
    requires 0 <= r < base && 0 <= s < base && (base == LINE || base == TAPS)
    ensures base * a + r == base * b + s <==> a == b && r == s
  {
  }

  /** Each butterfly owns exactly its two lanes. */
  lemma OwnedLanes(b: nat, i: nat, j: nat)
    requires i < TAPS
    ensures Owner(j) == TAPS * b + i <==> j == LowLane(b, i) || j == HighLane(b, i)
  {
    var line, r := j / LINE, j % LINE;
    assert j == LINE * line + r;
    SameDigits(LINE, line, r, b + 1, i);
    SameDigits(LINE, line, r, b, LINE - 1 - i);
    if r < TAPS {
      SameDigits(TAPS, line - 1, r, b, i);
    } else if r >= LINE - TAPS {
      SameDigits(TAPS, line, LINE - 1 - r, b, i);
    }
  }

  predicate Fits(x: seq<real>, boundaries: nat, ca: seq<real>, cs: seq<real>) {
    |ca| == |cs| == TAPS && (boundaries > 0 ==> |x| >= LINE * boundaries + TAPS)
  }

  /** Lane `j` after the first `done` butterflies, each reading only original values. */
  function Lane(x: seq<real>, done: nat, ca: seq<real>, cs: seq<real>, j: nat): real
    requires |ca| == |cs| == TAPS && j < |x|
  {
    var t := Owner(j);
    if 0 <= t < done then
      var b, i := t / TAPS, t % TAPS;
      if HighLane(b, i) < |x| then
        if j == HighLane(b, i) then Up(x[LowLane(b, i)], x[j], ca[i], cs[i])
        else Down(x[j], x[HighLane(b, i)], ca[i], cs[i])
      else x[j]
    else x[j]
  }

  /** All butterflies at once. */
  function Simultaneous(x: seq<real>, done: nat, ca: seq<real>, cs: seq<real>): (y: seq<real>)
    requires |ca| == |cs| == TAPS
    ensures |y| == |x|
  {
    seq(|x|, j requires 0 <= j < |x| => Lane(x, done, ca, cs, j))
  }

  lemma NothingDone(x: seq<real>, ca: seq<real>, cs: seq<real>)
    requires |ca| == |cs| == TAPS
    ensures Simultaneous(x, 0, ca, cs) == x
  {
  }

  /** The two lanes of a butterfly that has been done. */
  lemma LanePair(x: seq<real>, done: nat, ca: seq<real>, cs: seq<real>, b: nat, i: nat)
    requires |ca| == |cs| == TAPS && i < TAPS && HighLane(b, i) < |x| && TAPS * b + i < done
    ensures Lane(x, done, ca, cs, LowLane(b, i)) == Down(x[LowLane(b, i)], x[HighLane(b, i)], ca[i], cs[i])
    ensures Lane(x, done, ca, cs, HighLane(b, i)) == Up(x[LowLane(b, i)], x[HighLane(b, i)], ca[i], cs[i])
  {
    OwnedLanes(b, i, LowLane(b, i));
    OwnedLanes(b, i, HighLane(b, i));
    TapDigits(b, i);
  }

  lemma TapDigits(b: nat, i: nat)
    requires i < TAPS
    ensures (TAPS * b + i) / TAPS == b && (TAPS * b + i) % TAPS == i
  {
  }

  /** One more butterfly matters to its own lanes alone. */
  lemma LaneKept(x: seq<real>, b: nat, i: nat, ca: seq<real>, cs: seq<real>, j: nat)
    requires |ca| == |cs| == TAPS && i < TAPS && j < |x|
    ensures j == LowLane(b, i) || j == HighLane(b, i) ==> Lane(x, TAPS * b + i, ca, cs, j) == x[j]
    ensures j != LowLane(b, i) && j != HighLane(b, i) ==>
      Lane(x, TAPS * b + i + 1, ca, cs, j) == Lane(x, TAPS * b + i, ca, cs, j)
  {
    OwnedLanes(b, i, j);
  }

  lemma TwoUpdates(y: seq<real>, z: seq<real>, lo: nat, hi: nat)
    requires lo < hi < |y| == |z| && forall j :: 0 <= j < |y| && j != lo && j != hi ==> z[j] == y[j]
    ensures z == y[lo := z[lo]][hi := z[hi]]
  {
  }

  /** One more butterfly changes its own two lanes and reads two lanes nothing has changed. */
  lemma OneMore(x: seq<real>, b: nat, i: nat, ca: seq<real>, cs: seq<real>)
    requires |ca| == |cs| == TAPS && i < TAPS && HighLane(b, i) < |x|
    ensures var y, lo, hi := Simultaneous(x, TAPS * b + i, ca, cs), LowLane(b, i), HighLane(b, i);
      && y[lo] == x[lo] && y[hi] == x[hi]
      && Simultaneous(x, TAPS * b + i + 1, ca, cs)
         == y[lo := Down(x[lo], x[hi], ca[i], cs[i])][hi := Up(x[lo], x[hi], ca[i], cs[i])]
  {
    var y, z := Simultaneous(x, TAPS * b + i, ca, cs), Simultaneous(x, TAPS * b + i + 1, ca, cs);
    OneMoreHere(x, b, i, ca, cs);
    OneMoreElsewhere(x, y, z, b, i, ca, cs);
    TwoUpdates(y, z, LowLane(b, i), HighLane(b, i));
  }

  lemma OneMoreHere(x: seq<real>, b: nat, i: nat, ca: seq<real>, cs: seq<real>)
    requires |ca| == |cs| == TAPS && i < TAPS && HighLane(b, i) < |x|
    ensures var y, lo, hi := Simultaneous(x, TAPS * b + i, ca, cs), LowLane(b, i), HighLane(b, i);
      var z := Simultaneous(x, TAPS * b + i + 1, ca, cs);
      && y[lo] == x[lo] && y[hi] == x[hi]
      && z[lo] == Down(x[lo], x[hi], ca[i], cs[i]) && z[hi] == Up(x[lo], x[hi], ca[i], cs[i])
  {
    LaneKept(x, b, i, ca, cs, LowLane(b, i));
    LaneKept(x, b, i, ca, cs, HighLane(b, i));
    LanePair(x, TAPS * b + i + 1, ca, cs, b, i);
  }

  lemma OneMoreElsewhere(x: seq<real>, y: seq<real>, z: seq<real>, b: nat, i: nat, ca: seq<real>, cs: seq<real>)
    requires |ca| == |cs| == TAPS && i < TAPS
    requires y == Simultaneous(x, TAPS * b + i, ca, cs) && z == Simultaneous(x, TAPS * b + i + 1, ca, cs)
    ensures forall j :: 0 <= j < |x| && j != LowLane(b, i) && j != HighLane(b, i) ==> z[j] == y[j]
  {
    forall j | 0 <= j < |x| && j != LowLane(b, i) && j != HighLane(b, i)
      ensures z[j] == y[j]
    {
      LaneKept(x, b, i, ca, cs, j);
    }
  }

  /** The two lanes about boundary `b` at distance `i`, before and after, as the standard writes them. */
  predicate Turned(x: seq<real>, y: seq<real>, b: nat, i: nat, ca: seq<real>, cs: seq<real>)
    requires |ca| == |cs| == 8 && i < 8 && 18 * b + 18 + i < |x| == |y|
  {
    && y[18 * b + 17 - i] == x[18 * b + 17 - i] * cs[i] - x[18 * b + 18 + i] * ca[i]
    && y[18 * b + 18 + i] == x[18 * b + 18 + i] * cs[i] + x[18 * b + 17 - i] * ca[i]
  }

  /** Lane `j` is within eight lanes of one of the boundaries. */
  predicate NearBoundary(j: nat, boundaries: nat) {
    (j / 18 < boundaries && j % 18 >= 10) || (1 <= j / 18 <= boundaries && j % 18 < 8)
  }

  lemma PassTurns(x: seq<real>, boundaries: nat, ca: seq<real>, cs: seq<real>, b: nat, i: nat)
    requires Fits(x, boundaries, ca, cs) && b < boundaries && i < TAPS
    ensures Turned(x, Simultaneous(x, TAPS * boundaries, ca, cs), b, i, ca, cs)
  {
    LanesOf(x, boundaries, ca, cs, b, i);
    var y := Simultaneous(x, TAPS * boundaries, ca, cs);
    TurnedBy(x, y, b, i, ca, cs);
  }

  lemma LanesOf(x: seq<real>, boundaries: nat, ca: seq<real>, cs: seq<real>, b: nat, i: nat)
    requires Fits(x, boundaries, ca, cs) && b < boundaries && i < TAPS
    ensures HighLane(b, i) < |x|
    ensures var y, lo, hi := Simultaneous(x, TAPS * boundaries, ca, cs), LowLane(b, i), HighLane(b, i);
      y[lo] == Down(x[lo], x[hi], ca[i], cs[i]) && y[hi] == Up(x[lo], x[hi], ca[i], cs[i])
  {
    LanePair(x, TAPS * boundaries, ca, cs, b, i);
  }

  lemma TurnedBy(x: seq<real>, y: seq<real>, b: nat, i: nat, ca: seq<real>, cs: seq<real>)
    requires |ca| == |cs| == TAPS && i < TAPS && HighLane(b, i) < |x| == |y|
    requires y[LowLane(b, i)] == Down(x[LowLane(b, i)], x[HighLane(b, i)], ca[i], cs[i])
    requires y[HighLane(b, i)] == Up(x[LowLane(b, i)], x[HighLane(b, i)], ca[i], cs[i])
    ensures Turned(x, y, b, i, ca, cs)
  {
    assert LowLane(b, i) == 18 * b + 17 - i && HighLane(b, i) == 18 * b + 18 + i;
  }

  lemma PassSpares(x: seq<real>, boundaries: nat, ca: seq<real>, cs: seq<real>, j: nat)
    requires Fits(x, boundaries, ca, cs) && j < |x| && !NearBoundary(j, boundaries)
    ensures Simultaneous(x, TAPS * boundaries, ca, cs)[j] == x[j]
  {
  }

  /** Every lane of the pass, in the standard's own terms. */
  lemma PassByLanes(x: seq<real>, boundaries: nat, ca: seq<real>, cs: seq<real>)
    requires Fits(x, boundaries, ca, cs)
    ensures var y := Simultaneous(x, TAPS * boundaries, ca, cs);
      && (forall b: nat, i: nat :: b < boundaries && i < TAPS ==> Turned(x, y, b, i, ca, cs))
      && forall j: nat :: j < |x| && !NearBoundary(j, boundaries) ==> y[j] == x[j]
  {
    var y := Simultaneous(x, TAPS * boundaries, ca, cs);
    forall b: nat, i: nat | b < boundaries && i < TAPS
      ensures Turned(x, y, b, i, ca, cs)
    {
      PassTurns(x, boundaries, ca, cs, b, i);
    }
    forall j: nat | j < |x| && !NearBoundary(j, boundaries)
      ensures y[j] == x[j]
    {
      PassSpares(x, boundaries, ca, cs, j);
    }
  }

  method Butterfly(buf: array<real>, b: nat, i: nat, ca: seq<real>, cs: seq<real>, ghost x: seq<real>)
    requires |ca| == |cs| == TAPS && i < TAPS && HighLane(b, i) < buf.Length
    requires buf[..] == Simultaneous(x, TAPS * b + i, ca, cs)
    modifies buf
    ensures buf[..] == Simultaneous(x, TAPS * b + i + 1, ca, cs)
  {
    OneMore(x, b, i, ca, cs);
    var lo, hi := LowLane(b, i), HighLane(b, i);
    ghost var y := buf[..];
    var bu := buf[lo];
    var bd := buf[hi];
    assert bu == y[lo] && bd == y[hi];
    buf[lo] := Down(bu, bd, ca[i], cs[i]);
    buf[hi] := Up(bu, bd, ca[i], cs[i]);
    assert buf[..] == y[lo := Down(bu, bd, ca[i], cs[i])][hi := Up(bu, bd, ca[i], cs[i])];
  }

  /** The in-place pass is the simultaneous one: each butterfly turns two original values, the other lanes stay. */
  method AliasReduce(buf: array<real>, boundaries: nat, ca: seq<real>, cs: seq<real>)
    requires Fits(buf[..], boundaries, ca, cs)
    modifies buf
    ensures buf[..] == Simultaneous(old(buf[..]), TAPS * boundaries, ca, cs)
    ensures forall b: nat, i: nat :: b < boundaries && i < TAPS ==> Turned(old(buf[..]), buf[..], b, i, ca, cs)
    ensures forall j: nat :: j < buf.Length && !NearBoundary(j, boundaries) ==> buf[j] == old(buf[j])
  {
    ghost var x := buf[..];
    PassByLanes(x, boundaries, ca, cs);
    for b := 0 to boundaries
      invariant buf[..] == Simultaneous(x, TAPS * b, ca, cs)
    {
      for i := 0 to TAPS
        invariant buf[..] == Simultaneous(x, TAPS * b + i, ca, cs)
      {
        Butterfly(buf, b, i, ca, cs, x);
      }
    }
  }

  function Square(r: real): real { r * r }

  function Energy(x: seq<real>): real {
    if x == [] then 0.0 else Energy(x[..|x| - 1]) + Square(x[|x| - 1])
  }

  lemma {:induction false} EnergyUpdate(x: seq<real>, i: nat, v: real)
    requires i < |x|
    ensures Energy(x[i := v]) == Energy(x) - Square(x[i]) + Square(v)
  {
    var n := |x| - 1;
    if i < n {
      assert x[i := v][..n] == x[..n][i := v];
      EnergyUpdate(x[..n], i, v);
    } else {
      assert x[i := v][..n] == x[..n];
    }
  }

  predicate Rotation(ca: real, cs: real) {
    cs * cs + ca * ca == 1.0
  }

  predicate Rotations(ca: seq<real>, cs: seq<real>) {
    |ca| == |cs| == TAPS && forall i :: 0 <= i < TAPS ==> Rotation(ca[i], cs[i])
  }

  lemma RotationKeepsEnergy(bu: real, bd: real, ca: real, cs: real)
    requires Rotation(ca, cs)
    ensures Square(Down(bu, bd, ca, cs)) + Square(Up(bu, bd, ca, cs)) == Square(bu) + Square(bd)
  {
    assert (bu * cs - bd * ca) * (bu * cs - bd * ca) + (bd * cs + bu * ca) * (bd * cs + bu * ca)
        == (bu * bu + bd * bd) * (cs * cs + ca * ca);
  }

  lemma TwoLanes(y: seq<real>, lo: nat, hi: nat, down: real, up: real)
    requires lo < |y| && hi < |y| && lo != hi && Square(down) + Square(up) == Square(y[lo]) + Square(y[hi])
    ensures Energy(y[lo := down][hi := up]) == Energy(y)
  {
    EnergyUpdate(y, lo, down);
    EnergyUpdate(y[lo := down], hi, up);
  }

  lemma OneMoreEnergy(x: seq<real>, b: nat, i: nat, ca: seq<real>, cs: seq<real>)
    requires Rotations(ca, cs) && i < TAPS && HighLane(b, i) < |x|
    ensures Energy(Simultaneous(x, TAPS * b + i + 1, ca, cs)) == Energy(Simultaneous(x, TAPS * b + i, ca, cs))
  {
    var y, lo, hi := Simultaneous(x, TAPS * b + i, ca, cs), LowLane(b, i), HighLane(b, i);
    OneMore(x, b, i, ca, cs);
    RotationKeepsEnergy(x[lo], x[hi], ca[i], cs[i]);
    TwoLanes(y, lo, hi, Down(x[lo], x[hi], ca[i], cs[i]), Up(x[lo], x[hi], ca[i], cs[i]));
  }

  /** Which butterfly comes after `done` others. */
  lemma Located(done: nat, boundaries: nat) returns (b: nat, i: nat)
    requires done < TAPS * boundaries
    ensures i < TAPS && done == TAPS * b + i && b < boundaries
  {
    b, i := done / TAPS, done % TAPS;
  }

  lemma StepKeepsEnergy(x: seq<real>, done: nat, boundaries: nat, ca: seq<real>, cs: seq<real>)
    requires Fits(x, boundaries, ca, cs) && Rotations(ca, cs) && done < TAPS * boundaries
    ensures Energy(Simultaneous(x, done + 1, ca, cs)) == Energy(Simultaneous(x, done, ca, cs))
  {
    var b, i := Located(done, boundaries);
    OneMoreEnergy(x, b, i, ca, cs);
  }

  lemma {:induction false} Constant(f: nat -> real, n: nat)
    requires forall k: nat :: k < n ==> f(k + 1) == f(k)
    ensures f(n) == f(0)
  {
    if n > 0 {
      assert f(n - 1 + 1) == f(n - 1);
      Constant(f, n - 1);
    }
  }

  /** With rotation coefficients the pass conserves the signal's energy. */
  lemma EnergyConserved(x: seq<real>, boundaries: nat, ca: seq<real>, cs: seq<real>)
    requires Fits(x, boundaries, ca, cs) && Rotations(ca, cs)
    ensures Energy(Simultaneous(x, TAPS * boundaries, ca, cs)) == Energy(x)
  {
    var f := (done: nat) => Energy(Simultaneous(x, done, ca, cs));
    forall k: nat | k < TAPS * boundaries
      ensures f(k + 1) == f(k)
    {
      StepKeepsEnergy(x, k, boundaries, ca, cs);
    }
    Constant(f, TAPS * boundaries);
    NothingDone(x, ca, cs);
  }

  lemma RotateBack(bu: real, bd: real, ca: real, cs: real)
    requires Rotation(ca, cs)
    ensures Down(Down(bu, bd, ca, cs), Up(bu, bd, ca, cs), -ca, cs) == bu
    ensures Up(Down(bu, bd, ca, cs), Up(bu, bd, ca, cs), -ca, cs) == bd
  {
    assert (bu * cs - bd * ca) * cs + (bd * cs + bu * ca) * ca == bu * (cs * cs + ca * ca);
    assert (bd * cs + bu * ca) * cs - (bu * cs - bd * ca) * ca == bd * (cs * cs + ca * ca);
  }

  lemma PairUndone(x: seq<real>, done: nat, ca: seq<real>, back: seq<real>, cs: seq<real>, b: nat, i: nat)
    requires Rotations(ca, cs) && i < TAPS && HighLane(b, i) < |x| && TAPS * b + i < done
    requires |back| == TAPS && back[i] == -ca[i]
    ensures var y := Simultaneous(x, done, ca, cs);
      && Lane(y, done, back, cs, LowLane(b, i)) == x[LowLane(b, i)]
      && Lane(y, done, back, cs, HighLane(b, i)) == x[HighLane(b, i)]
  {
    LanePair(x, done, ca, cs, b, i);
    LanePair(Simultaneous(x, done, ca, cs), done, back, cs, b, i);
    RotateBack(x[LowLane(b, i)], x[HighLane(b, i)], ca[i], cs[i]);
  }

  lemma LaneUndone(x: seq<real>, boundaries: nat, ca: seq<real>, back: seq<real>, cs: seq<real>, j: nat)
    requires Fits(x, boundaries, ca, cs) && Rotations(ca, cs) && j < |x|
    requires |back| == TAPS && forall i :: 0 <= i < TAPS ==> back[i] == -ca[i]
    ensures Lane(Simultaneous(x, TAPS * boundaries, ca, cs), TAPS * boundaries, back, cs, j) == x[j]
  {
    var t := Owner(j);
    if 0 <= t < TAPS * boundaries {
      OwnedLanes(t / TAPS, t % TAPS, j);
      PairUndone(x, TAPS * boundaries, ca, back, cs, t / TAPS, t % TAPS);
    }
  }

  /** Running the pass again with negated `ca` undoes it. */
  lemma PassUndone(x: seq<real>, boundaries: nat, ca: seq<real>, back: seq<real>, cs: seq<real>)
    requires Fits(x, boundaries, ca, cs) && Rotations(ca, cs)
    requires |back| == TAPS && forall i :: 0 <= i < TAPS ==> back[i] == -ca[i]
    ensures Simultaneous(Simultaneous(x, TAPS * boundaries, ca, cs), TAPS * boundaries, back, cs) == x
  {
    forall j | 0 <= j < |x|
      ensures Lane(Simultaneous(x, TAPS * boundaries, ca, cs), TAPS * boundaries, back, cs, j) == x[j]
    {
      LaneUndone(x, boundaries, ca, back, cs, j);
    }
  }
}
