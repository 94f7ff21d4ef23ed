/** The synthesis transform as the decoder runs it: folds into local arrays, then an unrolled tail. */
module Synthesis {
  import opened Dct

  /** The combinations of one stage-3 quad that the tail consumes. */
  datatype QuadFold = QuadFold(hs: real, h: real, ls: real, l: real, full: real)

  predicate Accumulated(q: QuadFold) {
    q.full == q.hs + q.ls
  }

  /** A quad's rows, in row order. */
  function Rows(q: QuadFold): seq<real> {
    [q.hs, q.ls, q.h, q.l, 0.0]
  }

  /** The last two stages, on the vectors they pass through. */
  lemma QuadRows(y: seq<real>, t3: seq<real>, t4: seq<real>, q0: real, q1: real, q2: real, q3: real, h: real, l: real)
    requires |y| == 4 && |t3| == 2 && |t4| == 1
    requires Sums(y) == [q0, q1] && Twists(y, t3) == [q2, q3]
    requires Twists([q0, q1], t4) == [h] && Twists([q2, q3], t4) == [l]
    ensures Sized(y, [t3, t4])
    ensures FastRows(y, [t3, t4]) == [q0 + q1, q2 + q3 + l, h, l, 0.0]
  {
    assert [t3, t4][1..] == [t4];
    PairRows([q0, q1], t4, q0 + q1, h);
    PairRows([q2, q3], t4, q2 + q3, l);
    StageRows(y, [t3, t4], [q0, q1], [q2, q3]);
    ExpandThree(q0 + q1, h, q2 + q3, l);
  }

  lemma ExpandThree(a: real, b: real, c: real, d: real)
    ensures Expand([a, b, 0.0], [c, d, 0.0]) == [a, c + d, b, d, 0.0]
  {
  }

  lemma PairRows(y: seq<real>, t4: seq<real>, s: real, d: real)
    requires |y| == 2 && |t4| == 1
    requires Sums(y) == [s] && Twists(y, t4) == [d]
    ensures Sized(y, [t4])
    ensures FastRows(y, [t4]) == [s, d, 0.0]
  {
    assert [t4][1..] == [];
    assert Expand([s, 0.0], [d, 0.0]) == [s, d, 0.0];
  }

  function Rows8(s: QuadFold, d: QuadFold): (rows: seq<real>)
    ensures |rows| == 9
  {
    Expand(Rows(s), Rows(d))
  }

  /** The eight quads of a 32-point transform, named after the folds that lead to them. */
  datatype Quads = Quads(aa: QuadFold, ab: QuadFold, ba: QuadFold, bb: QuadFold,
                         ada: QuadFold, adb: QuadFold, bda: QuadFold, bdb: QuadFold)

  function AllRows(q: Quads): (rows: seq<real>)
    ensures |rows| == 33
  {
    Expand(SumSide(q), TwistSide(q))
  }

  predicate TableSizes(pnts: seq<seq<real>>) {
    |pnts| == 5 && |pnts[0]| == 16 && |pnts[1]| == 8 && |pnts[2]| == 4 && |pnts[3]| == 2 && |pnts[4]| == 1
  }

  /** One stage on the vectors it passes through. */
  lemma StageRows(x: seq<real>, tws: seq<seq<real>>, s: seq<real>, d: seq<real>)
    requires tws != [] && |x| % 2 == 0 && |tws[0]| == |x| / 2
    requires Sums(x) == s && Twists(x, tws[0]) == d && Sized(s, tws[1..]) && Sized(d, tws[1..])
    ensures Sized(x, tws)
    ensures FastRows(x, tws) == Expand(FastRows(s, tws[1..]), FastRows(d, tws[1..]))
  {
  }

  method Butterfly(x: array<real>, tw: seq<real>, i: nat) returns (s: real, d: real)
    requires |tw| == x.Length / 2 && i < x.Length / 2
    ensures s == Sums(x[..])[i] && d == Twists(x[..], tw)[i]
  {
    var lo, hi := x[i], x[x.Length - 1 - i];
    s, d := lo + hi, Twist(lo, hi, tw[i]);
  }

  /** One butterfly stage: the plain and the twiddled fold of a vector. */
  method Fold(x: array<real>, tw: seq<real>) returns (sums: array<real>, twists: array<real>)
    requires |tw| == x.Length / 2
    ensures fresh(sums) && fresh(twists)
    ensures sums[..] == Sums(x[..]) && twists[..] == Twists(x[..], tw)
  {
    var half := x.Length / 2;
    ghost var xs := x[..];
    sums, twists := new real[half], new real[half];
    for i := 0 to half
      invariant x[..] == xs
      invariant sums[..i] == Sums(xs)[..i]
      invariant twists[..i] == Twists(xs, tw)[..i]
    {
      var s, d := Butterfly(x, tw, i);
      sums[i], twists[i] := s, d;
    }
    assert sums[..] == sums[..half] && twists[..] == twists[..half];
  }

  method FirstFold(y: array<real>, t3: seq<real>) returns (q0: real, q1: real, q2: real, q3: real)
    requires y.Length == 4 && |t3| == 2
    ensures Sums(y[..]) == [q0, q1] && Twists(y[..], t3) == [q2, q3]
  {
    q0 := y[0] + y[3];
    q1 := y[1] + y[2];
    q2 := Twist(y[0], y[3], t3[0]);
    q3 := Twist(y[1], y[2], t3[1]);
  }

  method LastTwist(a: real, b: real, t4: seq<real>) returns (d: real)
    requires |t4| == 1
    ensures Twists([a, b], t4) == [d]
  {
    d := Twist(a, b, t4[0]);
  }

  /** Stages 4 and 5 of one quad. */
  method FoldQuad(y: array<real>, t3: seq<real>, t4: seq<real>) returns (q: QuadFold)
    requires y.Length == 4 && |t3| == 2 && |t4| == 1
    ensures Sized(y[..], [t3, t4]) && Rows(q) == FastRows(y[..], [t3, t4]) && Accumulated(q)
  {
    var q0, q1, q2, q3 := FirstFold(y, t3);
    var h := LastTwist(q0, q1, t4);
    var l := LastTwist(q2, q3, t4);
    q := QuadFold(q0 + q1, h, q2 + q3 + l, l, q0 + q1 + (q2 + q3 + l));
    QuadRows(y[..], t3, t4, q0, q1, q2, q3, h, l);
  }

  /** Stages 3 to 5 of one octet. */
  method FoldOct(x: array<real>, t2: seq<real>, t3: seq<real>, t4: seq<real>) returns (s: QuadFold, d: QuadFold)
    requires x.Length == 8 && |t2| == 4 && |t3| == 2 && |t4| == 1
    ensures Sized(x[..], [t2, t3, t4]) && Rows8(s, d) == FastRows(x[..], [t2, t3, t4])
    ensures Accumulated(s) && Accumulated(d)
  {
    var sums, twists := Fold(x, t2);
    s := FoldQuad(sums, t3, t4);
    d := FoldQuad(twists, t3, t4);
    assert [t2, t3, t4][1..] == [t3, t4];
    StageRows(x[..], [t2, t3, t4], sums[..], twists[..]);
  }

  /** Stages 2 to 5 of one half. */
  method FoldHalf(x: array<real>, pnts: seq<seq<real>>) returns (aa: QuadFold, ab: QuadFold, ba: QuadFold, bb: QuadFold)
    requires x.Length == 16 && TableSizes(pnts)
    ensures Sized(x[..], pnts[1..]) && Expand(Rows8(aa, ab), Rows8(ba, bb)) == FastRows(x[..], pnts[1..])
    ensures Accumulated(aa) && Accumulated(ab) && Accumulated(ba) && Accumulated(bb)
  {
    var a, b := Fold(x, pnts[1]);
    aa, ab := FoldOct(a, pnts[2], pnts[3], pnts[4]);
    ba, bb := FoldOct(b, pnts[2], pnts[3], pnts[4]);
    assert pnts[1..][1..] == [pnts[2], pnts[3], pnts[4]];
    StageRows(x[..], pnts[1..], a[..], b[..]);
  }

  /** Only the lanes at a stride of sixteen are written. */
  twostate predicate OnlyLanes(out: array<real>)
    reads out
  {
    forall j :: 0 <= j < out.Length && j % 16 != 0 ==> out[j] == old(out[j])
  }

  /** The tail's sums for the first output half, in store order. */
  function RunningSums(q: Quads): (v: seq<real>)
    ensures |v| == 17
  {
    var Quads(aa, ab, ba, bb, ada, adb, bda, bdb) := q;
    [ aa.h,
      ada.h + (bda.h + (bdb.ls + bdb.h)),
      (bb.ls + bb.h) + ba.h,
      (adb.ls + adb.h) + (bda.h + (bdb.ls + bdb.h)),
      ab.ls + ab.h,
      (adb.ls + adb.h) + (bda.ls + (bdb.ls + bdb.h)),
      (bb.ls + bb.h) + ba.ls,
      ada.ls + (bda.ls + (bdb.ls + bdb.h)),
      aa.ls,
      ada.ls + (bda.ls + bdb.full),
      bb.full + ba.ls,
      adb.full + (bda.ls + bdb.full),
      ab.full,
      adb.full + (bda.hs + bdb.full),
      bb.full + ba.hs,
      ada.hs + (bda.hs + bdb.full),
      aa.hs ]
  }

  /** The tail's sums for the second output half, in store order. */
  function DifferenceChains(q: Quads): (v: seq<real>)
    ensures |v| == 16
  {
    var Quads(aa, ab, ba, bb, ada, adb, bda, bdb) := q;
    [ aa.h,
      ada.h + (bda.h + (bdb.h + bdb.l)),
      (bb.h + bb.l) + ba.h,
      (adb.h + adb.l) + (bda.h + (bdb.h + bdb.l)),
      ab.l + ab.h,
      (adb.h + adb.l) + (bda.l + (bdb.h + bdb.l)),
      (bb.h + bb.l) + ba.l,
      ada.l + (bda.l + (bdb.h + bdb.l)),
      aa.l,
      ada.l + bda.l + bdb.l,
      bb.l + ba.l,
      adb.l + bda.l + bdb.l,
      ab.l,
      adb.l + bdb.l,
      bb.l,
      bdb.l ]
  }

  lemma Rows8Listed(s: QuadFold, d: QuadFold)
    ensures Rows8(s, d) == [s.hs, d.hs + d.ls, s.ls, d.ls + d.h, s.h, d.h + d.l, s.l, d.l + 0.0, 0.0]
  {
  }

  lemma Rows16Listed(a: seq<real>, b: seq<real>)
    requires |a| == |b| == 9
    ensures Expand(a, b) == [
      a[0], b[0] + b[1], a[1], b[1] + b[2], a[2], b[2] + b[3], a[3], b[3] + b[4], a[4],
      b[4] + b[5], a[5], b[5] + b[6], a[6], b[6] + b[7], a[7], b[7] + b[8], a[8] ]
  {
  }

  predicate EvenPlace(run: seq<real>, dif: seq<real>, s: seq<real>, k: nat)
    requires |run| == 17 && |dif| == 16 && |s| == 17 && k <= 8
  {
    run[2 * k] == s[8 - k] && (k < 8 ==> dif[2 * k] == s[8 + k])
  }

  predicate OddPlace(run: seq<real>, dif: seq<real>, d: seq<real>, k: nat)
    requires |run| == 17 && |dif| == 16 && |d| == 17 && k < 8
  {
    run[2 * k + 1] == d[7 - k] + d[8 - k] && dif[2 * k + 1] == d[8 + k] + d[9 + k]
  }

  function SumSide(q: Quads): (rows: seq<real>)
    ensures |rows| == 17
  {
    Expand(Rows8(q.aa, q.ab), Rows8(q.ba, q.bb))
  }

  function TwistSide(q: Quads): (rows: seq<real>)
    ensures |rows| == 17
  {
    Expand(Rows8(q.ada, q.adb), Rows8(q.bda, q.bdb))
  }

  lemma EvenRunning(q: Quads, k: nat)
    requires Accumulated(q.ab) && Accumulated(q.bb) && k <= 8
    ensures RunningSums(q)[2 * k] == SumSide(q)[8 - k]
  {
    Rows8Listed(q.aa, q.ab);
    Rows8Listed(q.ba, q.bb);
    Rows16Listed(Rows8(q.aa, q.ab), Rows8(q.ba, q.bb));
    assert k == 0 || k == 1 || k == 2 || k == 3 || k == 4 || k == 5 || k == 6 || k == 7 || k == 8;
  }

  lemma EvenDifferences(q: Quads, k: nat)
    requires k < 8
    ensures DifferenceChains(q)[2 * k] == SumSide(q)[8 + k]
  {
    Rows8Listed(q.aa, q.ab);
    Rows8Listed(q.ba, q.bb);
    Rows16Listed(Rows8(q.aa, q.ab), Rows8(q.ba, q.bb));
    assert k == 0 || k == 1 || k == 2 || k == 3 || k == 4 || k == 5 || k == 6 || k == 7;
  }

  lemma OddRunning(q: Quads, k: nat)
    requires Accumulated(q.adb) && Accumulated(q.bdb) && k < 8
    ensures RunningSums(q)[2 * k + 1] == TwistSide(q)[7 - k] + TwistSide(q)[8 - k]
  {
    Rows8Listed(q.ada, q.adb);
    Rows8Listed(q.bda, q.bdb);
    Rows16Listed(Rows8(q.ada, q.adb), Rows8(q.bda, q.bdb));
    assert k == 0 || k == 1 || k == 2 || k == 3 || k == 4 || k == 5 || k == 6 || k == 7;
  }

  lemma OddDifferences(q: Quads, k: nat)
    requires k < 8
    ensures DifferenceChains(q)[2 * k + 1] == TwistSide(q)[8 + k] + TwistSide(q)[9 + k]
  {
    Rows8Listed(q.ada, q.adb);
    Rows8Listed(q.bda, q.bdb);
    Rows16Listed(Rows8(q.ada, q.adb), Rows8(q.bda, q.bdb));
    assert k == 0 || k == 1 || k == 2 || k == 3 || k == 4 || k == 5 || k == 6 || k == 7;
  }

  /** Both halves list the expanded rows outward from row sixteen. */
  ghost predicate Outward(run: seq<real>, dif: seq<real>, rows: seq<real>) {
    && |run| == 17 && |dif| == 16 && |rows| == 33
    && (forall i :: 0 <= i <= 16 ==> run[i] == rows[16 - i])
    && (forall i :: 0 <= i <= 15 ==> dif[i] == rows[16 + i])
  }

  lemma PlaceTail(run: seq<real>, dif: seq<real>, s: seq<real>, d: seq<real>)
    requires |run| == 17 && |dif| == 16 && |s| == |d| == 17
    requires forall k: nat :: k <= 8 ==> EvenPlace(run, dif, s, k)
    requires forall k: nat :: k < 8 ==> OddPlace(run, dif, d, k)
    ensures Outward(run, dif, Expand(s, d))
  {
    forall i: nat | i <= 16
      ensures run[i] == Expand(s, d)[16 - i] && (i < 16 ==> dif[i] == Expand(s, d)[16 + i])
    {
      if i % 2 == 0 {
        assert EvenPlace(run, dif, s, i / 2);
      } else {
        assert OddPlace(run, dif, d, i / 2);
      }
    }
  }

  /** The tail stores exactly the 33 rows. */
  lemma TailIsRows(q: Quads)
    requires Accumulated(q.ab) && Accumulated(q.bb) && Accumulated(q.adb) && Accumulated(q.bdb)
    ensures Outward(RunningSums(q), DifferenceChains(q), AllRows(q))
  {
    forall k: nat | k <= 8 ensures EvenPlace(RunningSums(q), DifferenceChains(q), SumSide(q), k) {
      EvenRunning(q, k);
      if k < 8 {
        EvenDifferences(q, k);
      }
    }
    forall k: nat | k < 8 ensures OddPlace(RunningSums(q), DifferenceChains(q), TwistSide(q), k) {
      OddRunning(q, k);
      OddDifferences(q, k);
    }
    PlaceTail(RunningSums(q), DifferenceChains(q), SumSide(q), TwistSide(q));
  }

  method StoreLanes(out: array<real>, v: seq<real>)
    requires out.Length > 16 * (|v| - 1)
    modifies out
    ensures forall i :: 0 <= i < |v| ==> out[16 * i] == v[i]
    ensures OnlyLanes(out)
  {
    for i := 0 to |v|
      invariant forall k :: 0 <= k < i ==> out[16 * k] == v[k]
      invariant OnlyLanes(out)
    {
      out[16 * i] := v[i];
    }
  }

  /** 33 rows of the synthesis matrix over two disjoint output halves. */
  method Dct64(out0: array<real>, out1: array<real>, samples: array<real>, pnts: seq<seq<real>>, ghost C: Cosines)
    requires out0.Length > 256 && out1.Length > 240 && out0 != out1 && samples.Length >= 32
    requires TableSizes(pnts) && CosineSequence(C, 32) && AllTwiddles(C, 1, pnts)
    modifies out0, out1
    ensures forall i :: 0 <= i <= 16 ==> out0[16 * i] == Direct(C, 1, old(samples[..32]), 16 - i)
    ensures forall i :: 0 <= i <= 15 ==> out1[16 * i] == Direct(C, 1, old(samples[..32]), 16 + i)
    ensures OnlyLanes(out0) && OnlyLanes(out1)
  {
    var x := new real[32](i requires 0 <= i < 32 reads samples => samples[i]);
    ghost var was := samples[..32];
    assert x[..] == was;
    var s, d := Fold(x, pnts[0]);
    var aa, ab, ba, bb := FoldHalf(s, pnts);
    var ada, adb, bda, bdb := FoldHalf(d, pnts);
    var q := Quads(aa, ab, ba, bb, ada, adb, bda, bdb);
    StageRows(was, pnts, s[..], d[..]);
    var run, dif := RunningSums(q), DifferenceChains(q);
    TailIsRows(q);
    TailIsDirect(C, was, pnts, run, dif);
    StoreLanes(out0, run);
    StoreLanes(out1, dif);
  }

  lemma TailIsDirect(C: Cosines, x: seq<real>, pnts: seq<seq<real>>, run: seq<real>, dif: seq<real>)
    requires CosineSequence(C, 32) && |x| == 32 && Sized(x, pnts) && AllTwiddles(C, 1, pnts)
    requires Outward(run, dif, FastRows(x, pnts))
    ensures forall i :: 0 <= i <= 16 ==> run[i] == Direct(C, 1, x, 16 - i)
    ensures forall i :: 0 <= i <= 15 ==> dif[i] == Direct(C, 1, x, 16 + i)
  {
    forall i | 0 <= i <= 16
      ensures run[i] == Direct(C, 1, x, 16 - i)
      ensures i < 16 ==> dif[i] == Direct(C, 1, x, 16 + i)
    {
      FastIsDirect(C, 32, 1, x, pnts, 16 - i);
      FastIsDirect(C, 32, 1, x, pnts, 16 + i);
    }
  }
}
