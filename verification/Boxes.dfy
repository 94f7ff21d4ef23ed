/** Axis-aligned boxes over the reals: segment clipping and the matrix transform. */
module Boxes {
  const EPS: real := 0.00001

  type Vec = v: seq<real> | |v| == 3 witness [0.0, 0.0, 0.0]

  /** Corners `[minX, minY, minZ, maxX, maxY, maxZ]`. */
  type Box = b: seq<real> | |b| == 6 witness [0.0, 0.0, 0.0, 0.0, 0.0, 0.0]

  predicate Ordered(box: Box) {
    box[0] <= box[3] && box[1] <= box[4] && box[2] <= box[5]
  }

  function Times(k: real, x: real): real { k * x }

  /** Coordinate `s` moved a fraction `u` of the way to `e`. */
  function Along(s: real, e: real, u: real): real {
    Times(e - s, u) + s
  }

  function PointAt(start: Vec, end: Vec, u: real): Vec {
    [Along(start[0], end[0], u), Along(start[1], end[1], u), Along(start[2], end[2], u)]
  }

  /** `p` is in the box grown by `margin` on every side. */
  predicate Inside(box: Box, p: Vec, margin: real) {
    forall a :: 0 <= a < 3 ==> box[a] - margin <= p[a] <= box[a + 3] + margin
  }

  /** Some point of the segment lies in the box grown by `margin`. */
  ghost predicate Touches(box: Box, start: Vec, end: Vec, margin: real) {
    exists u :: 0.0 <= u <= 1.0 && Inside(box, PointAt(start, end, u), margin)
  }

  /** The start is strictly beyond a plane and the end is not. */
  predicate Clips(box: Box, start: Vec, end: Vec, a: nat, plane: real)
    requires a < 3
  {
    && start[a] != end[a]
    && ((start[a] < box[a] == plane <= end[a]) || (start[a] >= box[a] && start[a] > box[a + 3] == plane >= end[a]))
  }

  predicate StartsWithin(box: Box, start: Vec, a: nat)
    requires a < 3
  {
    box[a] <= start[a] <= box[a + 3]
  }

  lemma ScaleMonotone(k: real, x: real, y: real)
    requires k >= 0.0 && x <= y
    ensures Times(k, x) <= Times(k, y)
  {
  }

  lemma AlongMirrored(s: real, e: real, u: real)
    ensures Along(-s, -e, u) == -Along(s, e, u)
  {
    assert -e - -s == -(e - s);
    TimesNegated(e - s, u);
  }

  lemma TimesNegated(k: real, u: real)
    ensures Times(-k, u) == -Times(k, u)
  {
  }

  lemma AlongRises(s: real, e: real, t: real, u: real)
    requires t <= u && s <= e
    ensures Along(s, e, t) <= Along(s, e, u)
  {
    ScaleMonotone(e - s, t, u);
  }

  lemma AlongEnds(s: real, e: real)
    ensures Along(s, e, 0.0) == s && Along(s, e, 1.0) == e
  {
  }

  /** Moving less far along a segment stays between the start and the farther point. */
  lemma AlongMonotone(s: real, e: real, t: real, u: real)
    requires 0.0 <= t <= u
    ensures s <= e ==> s <= Along(s, e, t) <= Along(s, e, u)
    ensures s >= e ==> s >= Along(s, e, t) >= Along(s, e, u)
  {
    AlongEnds(s, e);
    AlongEnds(-s, -e);
    if s <= e {
      AlongRises(s, e, 0.0, t);
      AlongRises(s, e, t, u);
    }
    if s >= e {
      AlongRises(-s, -e, 0.0, t);
      AlongRises(-s, -e, t, u);
      AlongMirrored(s, e, t);
      AlongMirrored(s, e, u);
    }
  }

  lemma AlongBetween(s: real, e: real, u: real, lo: real, hi: real)
    requires 0.0 <= u <= 1.0 && lo <= s <= hi && lo <= e <= hi
    ensures lo <= Along(s, e, u) <= hi
  {
    AlongMonotone(s, e, u, 1.0);
    AlongEnds(s, e);
  }

  /** A clipped axis is entered at its parameter, which is in the segment. */
  lemma EntryParameter(s: real, e: real, plane: real)
    requires s < plane <= e || s > plane >= e
    ensures 0.0 < (plane - s) / (e - s) <= 1.0 && Along(s, e, (plane - s) / (e - s)) == plane
  {
    var t := (plane - s) / (e - s);
    Quotient(plane - s, e - s);
    AlongEnds(s, e);
    if t <= 0.0 {
      if t < 0.0 {
        AlongStrict(s, e, t, 0.0);
      }
    } else if t > 1.0 {
      AlongStrict(s, e, 1.0, t);
    }
  }

  lemma Quotient(a: real, b: real)
    requires b != 0.0
    ensures Times(b, a / b) == a
  {
  }

  lemma AlongStrict(s: real, e: real, t: real, u: real)
    requires t < u && s != e
    ensures s < e ==> Along(s, e, t) < Along(s, e, u)
    ensures s > e ==> Along(s, e, t) > Along(s, e, u)
  {
    ScaleStrict(e - s, t, u);
  }

  lemma ScaleStrict(k: real, x: real, y: real)
    requires x < y
    ensures k > 0.0 ==> Times(k, x) < Times(k, y)
    ensures k < 0.0 ==> Times(k, x) > Times(k, y)
  {
    var step := y - x;
    ProductSign(k, step);
    assert k * y == k * x + k * step by {
      assert y == x + step;
    }
  }

  lemma ProductSign(k: real, step: real)
    requires step > 0.0
    ensures k > 0.0 ==> k * step > 0.0
    ensures k < 0.0 ==> k * step < 0.0
  {
  }

  /** Whatever is at or past the plane is at or past the entry parameter. */
  lemma EntryIsFirst(s: real, e: real, plane: real, u: real)
    requires s < plane <= e || s > plane >= e
    requires if s < plane then Along(s, e, u) >= plane else Along(s, e, u) <= plane
    ensures u >= (plane - s) / (e - s)
  {
    var t := (plane - s) / (e - s);
    EntryParameter(s, e, plane);
    if u < t {
      AlongStrict(s, e, u, t);
    }
  }

  lemma RejectsSoundly(box: Box, start: Vec, end: Vec, a: nat)
    requires a < 3 && ((start[a] < box[a] && end[a] < box[a]) || (start[a] > box[a + 3] && end[a] > box[a + 3]))
    ensures !Touches(box, start, end, 0.0)
  {
    forall u | 0.0 <= u <= 1.0 ensures !Inside(box, PointAt(start, end, u), 0.0) {
      var far := if start[a] < box[a] then (if start[a] > end[a] then start[a] else end[a])
                 else if start[a] < end[a] then start[a] else end[a];
      if start[a] < box[a] {
        AlongBetween(start[a], end[a], u, if start[a] < end[a] then start[a] else end[a], far);
      } else {
        AlongBetween(start[a], end[a], u, far, if start[a] > end[a] then start[a] else end[a]);
      }
      assert PointAt(start, end, u)[a] == Along(start[a], end[a], u);
    }
  }

  /**
   * On any axis, the point at parameter `t` is within the slab if a later point is and so is either
   * the start or a plane entered by `t`.
   */
  lemma StaysWithin(box: Box, start: Vec, end: Vec, a: nat, t: real, u: real)
    requires a < 3 && 0.0 <= t <= u <= 1.0
    requires box[a] <= Along(start[a], end[a], u) <= box[a + 3]
    requires StartsWithin(box, start, a) ||
             exists plane :: Clips(box, start, end, a, plane) && t >= (plane - start[a]) / (end[a] - start[a])
    ensures box[a] <= Along(start[a], end[a], t) <= box[a + 3]
  {
    var s, e := start[a], end[a];
    AlongMonotone(s, e, t, u);
    if !StartsWithin(box, start, a) {
      var plane :| Clips(box, start, end, a, plane) && t >= (plane - s) / (e - s);
      EntryParameter(s, e, plane);
      AlongMonotone(s, e, (plane - s) / (e - s), t);
    }
  }

  /** What the clip pass establishes about one axis. */
  predicate Classified(box: Box, start: Vec, end: Vec, a: nat, clipped: bool, plane: real)
    requires a < 3
  {
    if clipped then Clips(box, start, end, a, plane) else StartsWithin(box, start, a)
  }

  /** The clip pass: reject, or say per axis whether the start is outside its slab and which plane is entered. */
  method Clip(box: Box, start: Vec, end: Vec) returns (rejected: bool, clipped: seq<bool>, plane: seq<real>)
    ensures rejected ==> !Touches(box, start, end, 0.0)
    ensures |clipped| == |plane| == 3
    ensures !rejected ==> forall i :: 0 <= i < 3 ==> Classified(box, start, end, i, clipped[i], plane[i])
  {
    rejected, clipped, plane := false, [false, false, false], [0.0, 0.0, 0.0];
    for a := 0 to 3
      invariant |clipped| == |plane| == 3 && !rejected
      invariant forall i :: 0 <= i < a ==> Classified(box, start, end, i, clipped[i], plane[i])
      invariant forall i :: a <= i < 3 ==> !clipped[i]
    {
      var mn, s := box[a], start[a];
      var near;
      if s < mn {
        if end[a] < mn {
          RejectsSoundly(box, start, end, a);
          rejected := true;
          return;
        }
        near := mn;
      } else {
        var mx := box[a + 3];
        if !(mx < s) {
          continue;
        }
        if mx < end[a] {
          RejectsSoundly(box, start, end, a);
          rejected := true;
          return;
        }
        near := mx;
      }
      clipped := clipped[a := true];
      plane := plane[a := near];
    }
  }

  /** The entry parameter of an axis, negative when the start is already within its slab. */
  function EntryOf(start: Vec, end: Vec, a: nat, clipped: bool, plane: real): real
    requires a < 3
  {
    if clipped && start[a] != end[a] then (plane - start[a]) / (end[a] - start[a]) else -1.0
  }

  method Entries(start: Vec, end: Vec, clipped: seq<bool>, plane: seq<real>) returns (t: seq<real>)
    requires |clipped| == |plane| == 3 && forall i :: 0 <= i < 3 && clipped[i] ==> start[i] != end[i]
    ensures |t| == 3 && forall i :: 0 <= i < 3 ==> t[i] == EntryOf(start, end, i, clipped[i], plane[i])
  {
    t := [-1.0, -1.0, -1.0];
    for a := 0 to 3
      invariant |t| == 3
      invariant forall i :: 0 <= i < a ==> t[i] == EntryOf(start, end, i, clipped[i], plane[i])
      invariant forall i :: a <= i < 3 ==> t[i] == -1.0
    {
      if clipped[a] {
        var direction := end[a] - start[a];
        t := t[a := (plane[a] - start[a]) / direction];
      }
    }
  }

  /** The candidate point against the grown box, on every axis but its own. */
  method Validate(box: Box, start: Vec, end: Vec, best: nat, tb: real) returns (ok: bool)
    ensures ok <==> forall i :: 0 <= i < 3 && i != best ==>
      box[i] - EPS <= Along(start[i], end[i], tb) <= box[i + 3] + EPS
  {
    for a := 0 to 3
      invariant forall i :: 0 <= i < a && i != best ==> box[i] - EPS <= Along(start[i], end[i], tb) <= box[i + 3] + EPS
    {
      if best != a {
        var coordinate := Along(start[a], end[a], tb);
        if coordinate < box[a] - EPS || box[a + 3] + EPS < coordinate {
          return false;
        }
      }
    }
    return true;
  }

  /** Segment against box by slab clipping: the latest entry plane gives the one candidate point. */
  method IntersectSegment(box: Box, start: Vec, end: Vec) returns (hit: int)
    ensures hit == 0 || hit == 1
    ensures Touches(box, start, end, 0.0) ==> hit == 1
    ensures hit == 1 && Ordered(box) ==> Touches(box, start, end, EPS)
  {
    var rejected, clipped, plane := Clip(box, start, end);
    if rejected {
      return 0;
    }
    if !clipped[0] && !clipped[1] && !clipped[2] {
      StartInside(box, start, end);
      return 1;
    }
    assert forall i :: 0 <= i < 3 && clipped[i] ==> Clips(box, start, end, i, plane[i]);
    var t := Entries(start, end, clipped, plane);
    var best: nat := 0;
    if t[1] > t[0] {
      best := 1;
    }
    if t[2] > t[best] {
      best := 2;
    }
    var tb := t[best];
    Candidate(box, start, end, clipped, plane, t, best);
    if tb < 0.0 {
      return 0;
    }
    var ok := Validate(box, start, end, best, tb);
    Verdict(box, start, end, best, tb, ok);
    return if ok then 1 else 0;
  }

  lemma StartInside(box: Box, start: Vec, end: Vec)
    requires StartsWithin(box, start, 0) && StartsWithin(box, start, 1) && StartsWithin(box, start, 2)
    ensures Touches(box, start, end, EPS)
  {
    assert PointAt(start, end, 0.0) == start;
    assert Inside(box, PointAt(start, end, 0.0), EPS);
  }

  lemma Verdict(box: Box, start: Vec, end: Vec, best: nat, tb: real, ok: bool)
    requires best < 3 && 0.0 < tb <= 1.0
    requires Along(start[best], end[best], tb) == box[best] || Along(start[best], end[best], tb) == box[best + 3]
    requires ok <==> forall i :: 0 <= i < 3 && i != best ==>
      box[i] - EPS <= Along(start[i], end[i], tb) <= box[i + 3] + EPS
    ensures ok && Ordered(box) ==> Touches(box, start, end, EPS)
    ensures Inside(box, PointAt(start, end, tb), 0.0) ==> ok
  {
    var p := PointAt(start, end, tb);
    assert forall i :: 0 <= i < 3 ==> p[i] == Along(start[i], end[i], tb);
    if ok && Ordered(box) {
      assert Inside(box, p, EPS);
    }
  }

  lemma AxisEntry(box: Box, start: Vec, end: Vec, a: nat, clipped: bool, plane: real)
    requires a < 3 && Classified(box, start, end, a, clipped, plane)
    ensures clipped ==> 0.0 < EntryOf(start, end, a, clipped, plane) <= 1.0
    ensures clipped ==> Along(start[a], end[a], EntryOf(start, end, a, clipped, plane)) == plane
    ensures clipped ==> plane == box[a] || plane == box[a + 3]
    ensures !clipped ==> EntryOf(start, end, a, clipped, plane) == -1.0
  {
    if clipped {
      EntryParameter(start[a], end[a], plane);
    }
  }

  /** If the segment is within the slab at `u`, it is from its entry on. */
  lemma AxisInside(box: Box, start: Vec, end: Vec, a: nat, clipped: bool, plane: real, t: real, u: real)
    requires a < 3 && Classified(box, start, end, a, clipped, plane) && 0.0 <= t <= u <= 1.0
    requires EntryOf(start, end, a, clipped, plane) <= t
    requires box[a] <= Along(start[a], end[a], u) <= box[a + 3]
    ensures box[a] <= Along(start[a], end[a], t) <= box[a + 3]
  {
    if clipped {
      assert Clips(box, start, end, a, plane) && t >= (plane - start[a]) / (end[a] - start[a]);
    }
    StaysWithin(box, start, end, a, t, u);
  }

  /** What lies in the slab lies past its entry. */
  lemma AxisEntryFirst(box: Box, start: Vec, end: Vec, a: nat, plane: real, u: real)
    requires a < 3 && Classified(box, start, end, a, true, plane)
    requires box[a] <= Along(start[a], end[a], u) <= box[a + 3]
    ensures u >= EntryOf(start, end, a, true, plane)
  {
    EntryIsFirst(start[a], end[a], plane, u);
  }

  /** The clip pass found an axis to clip, and `best` is one with the latest entry. */
  ghost predicate Latest(box: Box, start: Vec, end: Vec, clipped: seq<bool>, plane: seq<real>,
                         t: seq<real>, best: nat) {
    && |clipped| == |plane| == |t| == 3 && best < 3
    && (clipped[0] || clipped[1] || clipped[2])
    && (forall i :: 0 <= i < 3 ==> Classified(box, start, end, i, clipped[i], plane[i]))
    && (forall i :: 0 <= i < 3 ==> t[i] == EntryOf(start, end, i, clipped[i], plane[i]))
    && t[0] <= t[best] && t[1] <= t[best] && t[2] <= t[best]
  }

  /** The latest entry is a parameter of the segment on a face. */
  lemma CandidateOnFace(box: Box, start: Vec, end: Vec, clipped: seq<bool>, plane: seq<real>, t: seq<real>, best: nat)
    requires Latest(box, start, end, clipped, plane, t, best)
    ensures clipped[best] && 0.0 < t[best] <= 1.0
    ensures Along(start[best], end[best], t[best]) == plane[best]
    ensures plane[best] == box[best] || plane[best] == box[best + 3]
  {
    AxisEntry(box, start, end, 0, clipped[0], plane[0]);
    AxisEntry(box, start, end, 1, clipped[1], plane[1]);
    AxisEntry(box, start, end, 2, clipped[2], plane[2]);
  }

  /** If a point of the segment is in the box, so is the candidate. */
  lemma CandidateInside(box: Box, start: Vec, end: Vec, clipped: seq<bool>, plane: seq<real>, t: seq<real>, best: nat,
                        u: real)
    requires Latest(box, start, end, clipped, plane, t, best) && clipped[best] && 0.0 < t[best]
    requires 0.0 <= u <= 1.0 && Inside(box, PointAt(start, end, u), 0.0)
    ensures Inside(box, PointAt(start, end, t[best]), 0.0)
  {
    PointInside(box, start, end, u);
    AxisEntryFirst(box, start, end, best, plane[best], u);
    AxisInside(box, start, end, 0, clipped[0], plane[0], t[best], u);
    AxisInside(box, start, end, 1, clipped[1], plane[1], t[best], u);
    AxisInside(box, start, end, 2, clipped[2], plane[2], t[best], u);
    PointInside(box, start, end, t[best]);
  }

  /** The latest entry is a parameter of the segment on a face, and if any point is in the box, that point is. */
  lemma Candidate(box: Box, start: Vec, end: Vec, clipped: seq<bool>, plane: seq<real>, t: seq<real>, best: nat)
    requires Latest(box, start, end, clipped, plane, t, best)
    ensures clipped[best] && 0.0 < t[best] <= 1.0
    ensures Along(start[best], end[best], t[best]) == plane[best]
    ensures plane[best] == box[best] || plane[best] == box[best + 3]
    ensures Touches(box, start, end, 0.0) ==> Inside(box, PointAt(start, end, t[best]), 0.0)
  {
    CandidateOnFace(box, start, end, clipped, plane, t, best);
    if Touches(box, start, end, 0.0) {
      var u :| 0.0 <= u <= 1.0 && Inside(box, PointAt(start, end, u), 0.0);
      CandidateInside(box, start, end, clipped, plane, t, best, u);
    }
  }

  lemma PointInside(box: Box, start: Vec, end: Vec, u: real)
    ensures Inside(box, PointAt(start, end, u), 0.0) <==>
      && box[0] <= Along(start[0], end[0], u) <= box[3]
      && box[1] <= Along(start[1], end[1], u) <= box[4]
      && box[2] <= Along(start[2], end[2], u) <= box[5]
  {
    var p := PointAt(start, end, u);
    assert Inside(box, p, 0.0) ==> box[0] <= p[0] <= box[3] && box[1] <= p[1] <= box[4] && box[2] <= p[2] <= box[5];
  }

  /** Rows of a 3x3 matrix. */
  type Mat = m: seq<seq<real>> | |m| == 3 && forall j :: 0 <= j < 3 ==> |m[j]| == 3
    witness [[0.0, 0.0, 0.0], [0.0, 0.0, 0.0], [0.0, 0.0, 0.0]]

  function Least(a: real, b: real): real { if a < b then a else b }
  function Greatest(a: real, b: real): real { if a < b then b else a }

  /** Component `i` of the image of `p`. */
  function Image(rows: Mat, p: Vec, i: nat): real
    requires i < 3
  {
    Times(rows[0][i], p[0]) + Times(rows[1][i], p[1]) + Times(rows[2][i], p[2])
  }

  /** Each row of the matrix is the image of one source axis. */
  lemma ImageOfAxes(rows: Mat, k: real, i: nat)
    requires i < 3
    ensures Image(rows, [k, 0.0, 0.0], i) == k * rows[0][i]
    ensures Image(rows, [0.0, k, 0.0], i) == k * rows[1][i]
    ensures Image(rows, [0.0, 0.0, k], i) == k * rows[2][i]
  {
  }

  /** `p` lies in the box spanned by the two corners of `src`, whichever way round they are. */
  predicate Spanned(src: Box, p: Vec) {
    forall j :: 0 <= j < 3 ==> Least(src[j], src[j + 3]) <= p[j] <= Greatest(src[j], src[j + 3])
  }

  /** Lower and upper contribution of source axis `j` to component `i`. */
  function LowTerm(rows: Mat, src: Box, i: nat, j: nat): real
    requires i < 3 && j < 3
  {
    Least(Times(rows[j][i], src[j]), Times(rows[j][i], src[j + 3]))
  }

  function HighTerm(rows: Mat, src: Box, i: nat, j: nat): real
    requires i < 3 && j < 3
  {
    Greatest(Times(rows[j][i], src[j]), Times(rows[j][i], src[j + 3]))
  }

  /** First `n` contributions in accumulation order. */
  function LowSum(rows: Mat, src: Box, i: nat, n: nat): real
    requires i < 3 && n <= 3
  {
    if n == 0 then 0.0 else LowSum(rows, src, i, n - 1) + LowTerm(rows, src, i, n - 1)
  }

  function HighSum(rows: Mat, src: Box, i: nat, n: nat): real
    requires i < 3 && n <= 3
  {
    if n == 0 then 0.0 else HighSum(rows, src, i, n - 1) + HighTerm(rows, src, i, n - 1)
  }

  /** Both faces of component `i` have accumulated the first `n` contributions. */
  predicate Accumulated(out: Box, rows: Mat, src: Box, prior: Box, i: nat, n: nat)
    requires i < 3 && n <= 3
  {
    out[i] == prior[i] + LowSum(rows, src, i, n) && out[i + 3] == prior[i + 3] + HighSum(rows, src, i, n)
  }

  /** The accumulated box of a matrix image added to a prior box. */
  method TransformBy3x3(rows: Mat, src: Box, prior: Box) returns (out: Box)
    ensures forall i :: 0 <= i < 3 ==> Accumulated(out, rows, src, prior, i, 3)
    ensures Encloses(out, rows, src, prior)
    ensures Ordered(prior) ==> forall other :: Encloses(other, rows, src, prior) ==> Holds(other, out)
  {
    out := prior;
    for i := 0 to 3
      invariant forall k :: 0 <= k < i ==> Accumulated(out, rows, src, prior, k, 3)
      invariant forall k :: i <= k < 3 ==> Accumulated(out, rows, src, prior, k, 0)
    {
      for j := 0 to 3
        invariant Accumulated(out, rows, src, prior, i, j)
        invariant forall k :: 0 <= k < i ==> Accumulated(out, rows, src, prior, k, 3)
        invariant forall k :: i < k < 3 ==> Accumulated(out, rows, src, prior, k, 0)
      {
        ghost var before := out;
        var p0, p1 := Times(rows[j][i], src[j]), Times(rows[j][i], src[j + 3]);
        var low, high := if p0 < p1 then p0 else p1, if p0 < p1 then p1 else p0;
        assert low == LowTerm(rows, src, i, j) && high == HighTerm(rows, src, i, j);
        out := out[i := low + out[i]];
        out := out[i + 3 := high + out[i + 3]];
        Accumulate(before, out, rows, src, prior, i, j);
      }
    }
    ResultEncloses(out, rows, src, prior);
    if Ordered(prior) {
      ResultIsLeast(out, rows, src, prior);
    }
  }

  /** A point of the prior box carried along by the image of a source point. */
  function Displaced(rows: Mat, p: Vec, q: Vec): Vec {
    [q[0] + Image(rows, p, 0), q[1] + Image(rows, p, 1), q[2] + Image(rows, p, 2)]
  }

  /** The box holds every point of the prior box carried along by the image of any source point. */
  ghost predicate Encloses(out: Box, rows: Mat, src: Box, prior: Box) {
    forall p: Vec, q: Vec :: Spanned(src, p) && Inside(prior, q, 0.0) ==> Inside(out, Displaced(rows, p, q), 0.0)
  }

  /** `inner` lies within `outer`. */
  predicate Holds(outer: Box, inner: Box) {
    && outer[0] <= inner[0] && outer[1] <= inner[1] && outer[2] <= inner[2]
    && inner[3] <= outer[3] && inner[4] <= outer[4] && inner[5] <= outer[5]
  }

  lemma ResultEncloses(out: Box, rows: Mat, src: Box, prior: Box)
    requires forall i :: 0 <= i < 3 ==> Accumulated(out, rows, src, prior, i, 3)
    ensures Encloses(out, rows, src, prior)
  {
    forall p: Vec, q: Vec | Spanned(src, p) && Inside(prior, q, 0.0)
      ensures Inside(out, Displaced(rows, p, q), 0.0)
    {
      DisplacedWithin(out, rows, src, prior, p, q, 0);
      DisplacedWithin(out, rows, src, prior, p, q, 1);
      DisplacedWithin(out, rows, src, prior, p, q, 2);
      InsideByAxis(out, Displaced(rows, p, q));
    }
  }

  lemma DisplacedWithin(out: Box, rows: Mat, src: Box, prior: Box, p: Vec, q: Vec, i: nat)
    requires i < 3 && Accumulated(out, rows, src, prior, i, 3)
    requires Spanned(src, p) && prior[i] <= q[i] <= prior[i + 3]
    ensures out[i] <= q[i] + Image(rows, p, i) <= out[i + 3]
  {
    TransformCovers(rows, src, prior, p, q, i);
  }

  lemma InsideByAxis(box: Box, p: Vec)
    requires box[0] <= p[0] <= box[3] && box[1] <= p[1] <= box[4] && box[2] <= p[2] <= box[5]
    ensures Inside(box, p, 0.0)
  {
  }

  /** Any box that encloses as much holds the result: it is the least one. */
  lemma ResultIsLeast(out: Box, rows: Mat, src: Box, prior: Box)
    requires Ordered(prior) && forall i :: 0 <= i < 3 ==> Accumulated(out, rows, src, prior, i, 3)
    ensures forall other :: Encloses(other, rows, src, prior) ==> Holds(other, out)
  {
    forall other | Encloses(other, rows, src, prior)
      ensures Holds(other, out)
    {
      FacesReached(other, out, rows, src, prior, 0);
      FacesReached(other, out, rows, src, prior, 1);
      FacesReached(other, out, rows, src, prior, 2);
    }
  }

  lemma FacesReached(other: Box, out: Box, rows: Mat, src: Box, prior: Box, i: nat)
    requires i < 3 && Ordered(prior) && Accumulated(out, rows, src, prior, i, 3)
    requires Encloses(other, rows, src, prior)
    ensures other[i] <= out[i] && out[i + 3] <= other[i + 3]
  {
    var low, high := TransformIsTight(rows, src, i);
    var near: Vec, far: Vec := [prior[0], prior[1], prior[2]], [prior[3], prior[4], prior[5]];
    assert Inside(prior, near, 0.0) && Inside(prior, far, 0.0);
    assert Inside(other, Displaced(rows, low, near), 0.0);
    assert Inside(other, Displaced(rows, high, far), 0.0);
    assert Displaced(rows, low, near)[i] == out[i];
    assert Displaced(rows, high, far)[i] == out[i + 3];
  }

  lemma Accumulate(before: Box, out: Box, rows: Mat, src: Box, prior: Box, i: nat, j: nat)
    requires i < 3 && j < 3 && Accumulated(before, rows, src, prior, i, j)
    requires out ==
      before[i := LowTerm(rows, src, i, j) + before[i]][i + 3 := HighTerm(rows, src, i, j) + before[i + 3]]
    ensures Accumulated(out, rows, src, prior, i, j + 1)
    ensures forall k: nat, n: nat :: k < 3 && k != i && n <= 3 && Accumulated(before, rows, src, prior, k, n) ==>
      Accumulated(out, rows, src, prior, k, n)
  {
  }

  lemma SumOfTerms(rows: Mat, src: Box, i: nat)
    requires i < 3
    ensures LowSum(rows, src, i, 3) == LowTerm(rows, src, i, 0) + LowTerm(rows, src, i, 1) + LowTerm(rows, src, i, 2)
    ensures HighSum(rows, src, i, 3) ==
            HighTerm(rows, src, i, 0) + HighTerm(rows, src, i, 1) + HighTerm(rows, src, i, 2)
  {
    assert LowSum(rows, src, i, 1) == LowSum(rows, src, i, 0) + LowTerm(rows, src, i, 0);
    assert LowSum(rows, src, i, 2) == LowSum(rows, src, i, 1) + LowTerm(rows, src, i, 1);
    assert HighSum(rows, src, i, 1) == HighSum(rows, src, i, 0) + HighTerm(rows, src, i, 0);
    assert HighSum(rows, src, i, 2) == HighSum(rows, src, i, 1) + HighTerm(rows, src, i, 1);
  }

  lemma TermBounds(rows: Mat, src: Box, p: Vec, i: nat, j: nat)
    requires i < 3 && j < 3 && Spanned(src, p)
    ensures LowTerm(rows, src, i, j) <= Times(rows[j][i], p[j]) <= HighTerm(rows, src, i, j)
  {
    ProductBounds(rows[j][i], src[j], src[j + 3], p[j]);
  }

  lemma ProductBounds(k: real, a: real, b: real, x: real)
    requires Least(a, b) <= x <= Greatest(a, b)
    ensures Least(Times(k, a), Times(k, b)) <= Times(k, x) <= Greatest(Times(k, a), Times(k, b))
  {
    var lo, hi := Least(a, b), Greatest(a, b);
    if k >= 0.0 {
      ScaleMonotone(k, lo, x);
      ScaleMonotone(k, x, hi);
    } else {
      ScaleMonotone(-k, lo, x);
      ScaleMonotone(-k, x, hi);
      TimesNegated(k, lo);
      TimesNegated(k, x);
      TimesNegated(k, hi);
    }
  }

  /** The result covers every point of the prior box displaced by every image of a source point. */
  lemma TransformCovers(rows: Mat, src: Box, prior: Box, p: Vec, q: Vec, i: nat)
    requires i < 3 && Spanned(src, p) && prior[i] <= q[i] <= prior[i + 3]
    ensures prior[i] + LowSum(rows, src, i, 3) <= q[i] + Image(rows, p, i) <= prior[i + 3] + HighSum(rows, src, i, 3)
  {
    TermBounds(rows, src, p, i, 0);
    TermBounds(rows, src, p, i, 1);
    TermBounds(rows, src, p, i, 2);
    SumOfTerms(rows, src, i);
  }

  /** Each face is attained by the image of a corner, so no smaller box would do. */
  lemma TransformIsTight(rows: Mat, src: Box, i: nat) returns (low: Vec, high: Vec)
    requires i < 3
    ensures Spanned(src, low) && Image(rows, low, i) == LowSum(rows, src, i, 3)
    ensures Spanned(src, high) && Image(rows, high, i) == HighSum(rows, src, i, 3)
  {
    low := Extreme(rows, src, i, true);
    high := Extreme(rows, src, i, false);
    SumOfTerms(rows, src, i);
  }

  /** The corner of `src` whose image is lowest, or highest, in component `i`. */
  lemma Extreme(rows: Mat, src: Box, i: nat, low: bool) returns (p: Vec)
    requires i < 3
    ensures Spanned(src, p)
    ensures forall j :: 0 <= j < 3 ==>
      Times(rows[j][i], p[j]) == if low then LowTerm(rows, src, i, j) else HighTerm(rows, src, i, j)
  {
    p := [Corner(rows[0][i], src[0], src[3], low),
          Corner(rows[1][i], src[1], src[4], low),
          Corner(rows[2][i], src[2], src[5], low)];
  }

  /** The end of an axis whose product with `k` is the smaller, or the larger. */
  function Corner(k: real, a: real, b: real, low: bool): (x: real)
    ensures x == a || x == b
    ensures Times(k, x) == if low then Least(Times(k, a), Times(k, b)) else Greatest(Times(k, a), Times(k, b))
  {
    if (Times(k, a) < Times(k, b)) == low then a else b
  }
}
