/** View-frustum culling over the reals: outcodes, triangles, boxes, oriented boxes and spheres. */
module Frustum {
  import opened Bits
  import opened Boxes

  const PLANE_EPS: real := -0.0194444433
  const PLANES: nat := 6

  /** Six planes `[a, b, c, d]`, one after the other. */
  type Planes = p: seq<real> | |p| == 24 witness seq(24, _ => 0.0)

  /** Signed distance of `v` from plane `p`. */
  function Dist(planes: Planes, p: nat, v: Vec): real
    requires p < PLANES
  {
    Times(planes[p * 4], v[0]) + Times(planes[p * 4 + 2], v[2]) + Times(planes[p * 4 + 1], v[1]) + planes[p * 4 + 3]
  }

  /** A plane's four numbers are its normal and its offset. */
  lemma PlaneEquation(planes: Planes, p: nat, x: real, y: real, z: real)
    requires p < PLANES
    ensures Dist(planes, p, [x, y, z]) ==
            planes[4 * p] * x + planes[4 * p + 1] * y + planes[4 * p + 2] * z + planes[4 * p + 3]
  {
  }

  predicate Beyond(planes: Planes, p: nat, v: Vec, threshold: real)
    requires p < PLANES
  {
    Dist(planes, p, v) < threshold
  }

  /** `p` is a plane that `v` is behind. */
  predicate Fails(planes: Planes, p: nat, v: Vec) {
    p < PLANES && Beyond(planes, p, v, PLANE_EPS)
  }

  // ---- Outcodes ----------------------------------------------------------

  /** One bit per plane of the first `n` that the point is behind. */
  function Outcode(planes: Planes, v: Vec, n: nat): nat {
    if n == 0 then 0
    else
      var mask := Outcode(planes, v, n - 1);
      if Fails(planes, n - 1, v) then Or(mask, Pow2(n - 1)) else mask
  }

  lemma {:induction false} OutcodeBits(planes: Planes, v: Vec, n: nat, p: nat)
    ensures HasBit(Outcode(planes, v, n), p) <==> p < n && Fails(planes, p, v)
  {
    if n == 0 {
      ZeroHasNoBit(p);
    } else {
      OutcodeBits(planes, v, n - 1, p);
      OrHasEither(Outcode(planes, v, n - 1), Pow2(n - 1), p);
      Pow2HasOneBit(n - 1, p);
    }
  }

  lemma {:induction false} OutcodeFits(planes: Planes, v: Vec, n: nat)
    ensures Outcode(planes, v, n) < Pow2(n)
  {
    if n > 0 {
      OutcodeFits(planes, v, n - 1);
      OrStaysInWidth(Outcode(planes, v, n - 1), Pow2(n - 1), n);
    }
  }

  /** `last` is the bit of the highest plane the point is behind, or 0 when it is behind none. */
  ghost predicate IsLastFailing(planes: Planes, v: Vec, last: nat) {
    if exists p: nat :: Fails(planes, p, v)
    then exists p: nat :: Fails(planes, p, v) && last == Pow2(p) && forall q: nat :: q > p ==> !Fails(planes, q, v)
    else last == 0
  }

  /** The outcode mask has exactly the failing planes' bits, and the first result is its top bit. */
  method ClassifyPoint(planes: Planes, point: Vec) returns (lastBit: nat, mask: nat)
    ensures forall p: nat :: HasBit(mask, p) <==> Fails(planes, p, point)
    ensures IsLastFailing(planes, point, lastBit)
  {
    mask := 0;
    for p := 0 to PLANES
      invariant mask == Outcode(planes, point, p)
    {
      if Dist(planes, p, point) < PLANE_EPS {
        mask := Or(mask, Pow2(p));
      }
    }
    forall p: nat
      ensures HasBit(mask, p) <==> Fails(planes, p, point)
    {
      OutcodeBits(planes, point, PLANES, p);
    }
    OutcodeFits(planes, point, PLANES);
    SixBitsFit(mask);
    lastBit := if mask == 0 then 0 else ShiftRight(Pow2(31), LeadingZeros(mask, 32));
    TopBitIsLast(planes, point, mask, lastBit);
  }

  lemma TopBitIsLast(planes: Planes, v: Vec, mask: nat, last: nat)
    requires mask < Pow2(32) && forall p: nat :: HasBit(mask, p) <==> Fails(planes, p, v)
    requires last == if mask == 0 then 0 else ShiftRight(Pow2(31), LeadingZeros(mask, 32))
    ensures IsLastFailing(planes, v, last)
  {
    if mask == 0 {
      forall p: nat
        ensures !Fails(planes, p, v)
      {
        ZeroHasNoBit(p);
      }
    } else {
      var p := NonzeroHasBit(mask, 32);
      ShiftedPow2(31, LeadingZeros(mask, 32));
      assert Fails(planes, p, v);
    }
  }

  lemma SixBitsFit(mask: nat)
    requires mask < Pow2(PLANES)
    ensures mask < Pow2(32)
  {
    Pow2Grows(PLANES, 32);
  }

  // ---- Triangles ---------------------------------------------------------

  const ORIGIN: Vec := [0.0, 0.0, 0.0]

  type Triangle = t: seq<Vec> | |t| == 3 witness [ORIGIN, ORIGIN, ORIGIN]

  /** The weighted sum of three numbers. */
  function Mix(u: real, v: real, w: real, x: real, y: real, z: real): real {
    u * x + v * y + w * z
  }

  /** The point of a triangle with barycentric weights `u`, `v` and `w`. */
  function Combine(t: Triangle, u: real, v: real, w: real): Vec {
    [Mix(u, v, w, t[0][0], t[1][0], t[2][0]),
     Mix(u, v, w, t[0][1], t[1][1], t[2][1]),
     Mix(u, v, w, t[0][2], t[1][2], t[2][2])]
  }

  predicate Convex(u: real, v: real, w: real) {
    u >= 0.0 && v >= 0.0 && w >= 0.0 && u + v + w == 1.0
  }

  lemma TimesMix(k: real, u: real, v: real, w: real, x: real, y: real, z: real)
    ensures Times(k, Mix(u, v, w, x, y, z)) == Mix(u, v, w, Times(k, x), Times(k, y), Times(k, z))
  {
    assert k * (u * x) == u * (k * x);
    assert k * (v * y) == v * (k * y);
    assert k * (w * z) == w * (k * z);
  }

  lemma MixAdds(u: real, v: real, w: real, x: real, y: real, z: real, x': real, y': real, z': real)
    ensures Mix(u, v, w, x, y, z) + Mix(u, v, w, x', y', z') == Mix(u, v, w, x + x', y + y', z + z')
  {
  }

  lemma MixConstant(u: real, v: real, w: real, d: real)
    requires u + v + w == 1.0
    ensures Mix(u, v, w, d, d, d) == d
  {
    assert u * d + v * d + w * d == (u + v + w) * d;
  }

  lemma MixBelow(u: real, v: real, w: real, x: real, y: real, z: real, limit: real)
    requires Convex(u, v, w) && x < limit && y < limit && z < limit
    ensures Mix(u, v, w, x, y, z) < limit
  {
    var top := if x >= y && x >= z then x else if y >= z then y else z;
    ScaleMonotone(u, x, top);
    ScaleMonotone(v, y, top);
    ScaleMonotone(w, z, top);
    MixConstant(u, v, w, top);
  }

  /** Signed distance is affine: that of a combination is the combination of the distances. */
  lemma DistOfMix(planes: Planes, p: nat, t: Triangle, u: real, v: real, w: real)
    requires p < PLANES && u + v + w == 1.0
    ensures Dist(planes, p, Combine(t, u, v, w)) ==
            Mix(u, v, w, Dist(planes, p, t[0]), Dist(planes, p, t[1]), Dist(planes, p, t[2]))
  {
    var a, b, c, d := planes[p * 4], planes[p * 4 + 1], planes[p * 4 + 2], planes[p * 4 + 3];
    TimesMix(a, u, v, w, t[0][0], t[1][0], t[2][0]);
    TimesMix(b, u, v, w, t[0][1], t[1][1], t[2][1]);
    TimesMix(c, u, v, w, t[0][2], t[1][2], t[2][2]);
    MixAdds(u, v, w, Times(a, t[0][0]), Times(a, t[1][0]), Times(a, t[2][0]),
            Times(c, t[0][2]), Times(c, t[1][2]), Times(c, t[2][2]));
    MixAdds(u, v, w, Times(a, t[0][0]) + Times(c, t[0][2]), Times(a, t[1][0]) + Times(c, t[1][2]),
            Times(a, t[2][0]) + Times(c, t[2][2]), Times(b, t[0][1]), Times(b, t[1][1]), Times(b, t[2][1]));
    MixConstant(u, v, w, d);
    MixAdds(u, v, w, Dist(planes, p, t[0]) - d, Dist(planes, p, t[1]) - d, Dist(planes, p, t[2]) - d, d, d, d);
  }

  /** Every point of the triangle is behind plane `p`. */
  ghost predicate TriangleBeyond(planes: Planes, p: nat, t: Triangle) {
    p < PLANES && forall u, v, w :: Convex(u, v, w) ==> Beyond(planes, p, Combine(t, u, v, w), PLANE_EPS)
  }

  lemma TriangleBeyondIsItsCorners(planes: Planes, p: nat, t: Triangle)
    requires p < PLANES
    ensures TriangleBeyond(planes, p, t) <==> forall i :: 0 <= i < 3 ==> Fails(planes, p, t[i])
  {
    if forall i :: 0 <= i < 3 ==> Fails(planes, p, t[i]) {
      forall u, v, w | Convex(u, v, w)
        ensures Beyond(planes, p, Combine(t, u, v, w), PLANE_EPS)
      {
        DistOfMix(planes, p, t, u, v, w);
        assert Fails(planes, p, t[0]) && Fails(planes, p, t[1]) && Fails(planes, p, t[2]);
        MixBelow(u, v, w, Dist(planes, p, t[0]), Dist(planes, p, t[1]), Dist(planes, p, t[2]), PLANE_EPS);
      }
    }
    assert Combine(t, 1.0, 0.0, 0.0) == t[0];
    assert Combine(t, 0.0, 1.0, 0.0) == t[1];
    assert Combine(t, 0.0, 0.0, 1.0) == t[2];
    assert Convex(1.0, 0.0, 0.0) && Convex(0.0, 1.0, 0.0) && Convex(0.0, 0.0, 1.0);
  }

  /** A triangle is rejected exactly when all of it is behind one of the planes. */
  method CullTriangle(planes: Planes, points: Triangle) returns (rejected: int)
    ensures rejected in {0, 1}
    ensures rejected == 1 <==> exists p :: TriangleBeyond(planes, p, points)
  {
    var masks := [0, 0, 0];
    for p := 0 to PLANES
      invariant |masks| == 3 && forall i :: 0 <= i < 3 ==> masks[i] == Outcode(planes, points[i], p)
    {
      for i := 0 to 3
        invariant |masks| == 3
        invariant forall k :: 0 <= k < i ==> masks[k] == Outcode(planes, points[k], p + 1)
        invariant forall k :: i <= k < 3 ==> masks[k] == Outcode(planes, points[k], p)
      {
        if Dist(planes, p, points[i]) < PLANE_EPS {
          masks := masks[i := Or(masks[i], Pow2(p))];
        }
      }
    }
    var shared := And(And(masks[0], masks[1]), masks[2]);
    SharedPlane(planes, points, shared);
    rejected := if shared != 0 then 1 else 0;
  }

  lemma SharedPlane(planes: Planes, t: Triangle, shared: nat)
    requires shared ==
      And(And(Outcode(planes, t[0], PLANES), Outcode(planes, t[1], PLANES)), Outcode(planes, t[2], PLANES))
    ensures shared != 0 <==> exists p :: TriangleBeyond(planes, p, t)
  {
    forall p: nat
      ensures HasBit(shared, p) <==> TriangleBeyond(planes, p, t)
    {
      AndHasBoth(And(Outcode(planes, t[0], PLANES), Outcode(planes, t[1], PLANES)), Outcode(planes, t[2], PLANES), p);
      AndHasBoth(Outcode(planes, t[0], PLANES), Outcode(planes, t[1], PLANES), p);
      OutcodeBits(planes, t[0], PLANES, p);
      OutcodeBits(planes, t[1], PLANES, p);
      OutcodeBits(planes, t[2], PLANES, p);
      if p < PLANES {
        TriangleBeyondIsItsCorners(planes, p, t);
      }
    }
    if shared == 0 {
      forall p: nat
        ensures !HasBit(shared, p)
      {
        ZeroHasNoBit(p);
      }
    } else {
      OutcodeFits(planes, t[0], PLANES);
      AndIsSmaller(And(Outcode(planes, t[0], PLANES), Outcode(planes, t[1], PLANES)), Outcode(planes, t[2], PLANES));
      AndIsSmaller(Outcode(planes, t[0], PLANES), Outcode(planes, t[1], PLANES));
      var p := NonzeroHasBit(shared, PLANES);
      assert TriangleBeyond(planes, p, t);
    }
  }

  // ---- Boxes -------------------------------------------------------------

  /** The bound of one axis that goes farthest along `n`. */
  function Support(n: real, lo: real, hi: real): real {
    if n < 0.0 then lo else hi
  }

  function SupportCorner(n: Vec, box: Box): Vec {
    [Support(n[0], box[0], box[3]), Support(n[1], box[1], box[4]), Support(n[2], box[2], box[5])]
  }

  function Normal(planes: Planes, p: nat): Vec
    requires p < PLANES
  {
    [planes[p * 4], planes[p * 4 + 1], planes[p * 4 + 2]]
  }

  lemma SupportIsFarthest(n: real, lo: real, hi: real, x: real)
    requires lo <= x <= hi
    ensures Times(n, x) <= Times(n, Support(n, lo, hi))
  {
    if n < 0.0 {
      ScaleMonotone(-n, lo, x);
      TimesNegated(n, lo);
      TimesNegated(n, x);
    } else {
      ScaleMonotone(n, x, hi);
    }
  }

  lemma CornerIsInside(n: Vec, box: Box)
    requires Ordered(box)
    ensures Inside(box, SupportCorner(n, box), 0.0)
  {
  }

  /** Every point of the box is behind plane `p`. */
  ghost predicate BoxBeyond(planes: Planes, p: nat, box: Box, threshold: real) {
    p < PLANES && forall v: Vec :: Inside(box, v, 0.0) ==> Beyond(planes, p, v, threshold)
  }

  lemma BoxBeyondIsItsCorner(planes: Planes, p: nat, box: Box, threshold: real)
    requires p < PLANES && Ordered(box)
    ensures BoxBeyond(planes, p, box, threshold) <==>
            Beyond(planes, p, SupportCorner(Normal(planes, p), box), threshold)
  {
    var n := Normal(planes, p);
    var corner := SupportCorner(n, box);
    CornerIsInside(n, box);
    forall v: Vec | Inside(box, v, 0.0)
      ensures Dist(planes, p, v) <= Dist(planes, p, corner)
    {
      SupportIsFarthest(n[0], box[0], box[3], v[0]);
      SupportIsFarthest(n[1], box[1], box[4], v[1]);
      SupportIsFarthest(n[2], box[2], box[5], v[2]);
    }
  }

  /** A box is rejected exactly when all of it is beyond one of the planes; a kept one reaches every plane. */
  method CullBox(planes: Planes, box: Box, threshold: real) returns (visible: int)
    ensures visible in {0, 3}
    ensures Ordered(box) ==> (visible == 0 <==> exists p :: BoxBeyond(planes, p, box, threshold))
  {
    for p := 0 to PLANES
      invariant Ordered(box) ==> forall q :: 0 <= q < p ==> !BoxBeyond(planes, q, box, threshold)
    {
      var corner := SupportCorner(Normal(planes, p), box);
      if Ordered(box) {
        BoxBeyondIsItsCorner(planes, p, box, threshold);
      }
      if Dist(planes, p, corner) < threshold {
        return 0;
      }
    }
    return 3;
  }

  // ---- Oriented boxes ----------------------------------------------------

  type Matrix = m: seq<real> | |m| == 9 witness seq(9, _ => 0.0)

  function Dot(a: real, b: real, c: real, x: real, y: real, z: real): real {
    Times(a, x) + Times(b, y) + Times(c, z)
  }

  /** A box-local point in world space. */
  function World(o: Matrix, translation: Vec, v: Vec): Vec {
    [Dot(o[0], o[3], o[6], v[0], v[1], v[2]) + translation[0],
     Dot(o[1], o[4], o[7], v[0], v[1], v[2]) + translation[1],
     Dot(o[2], o[5], o[8], v[0], v[1], v[2]) + translation[2]]
  }

  /** The point `k` along one direction from `origin`. */
  function PointAlong(origin: Vec, a: real, b: real, c: real, k: real): Vec {
    [Times(a, k) + origin[0], Times(b, k) + origin[1], Times(c, k) + origin[2]]
  }

  /** Each row of the matrix is the direction of one of the box's own axes, and the translation its origin. */
  lemma WorldOfAxes(o: Matrix, translation: Vec, k: real)
    ensures World(o, translation, [k, 0.0, 0.0]) == PointAlong(translation, o[0], o[1], o[2], k)
    ensures World(o, translation, [0.0, k, 0.0]) == PointAlong(translation, o[3], o[4], o[5], k)
    ensures World(o, translation, [0.0, 0.0, k]) == PointAlong(translation, o[6], o[7], o[8], k)
  {
    DotOfAxis(o[0], o[3], o[6], k);
    DotOfAxis(o[1], o[4], o[7], k);
    DotOfAxis(o[2], o[5], o[8], k);
  }

  lemma DotOfAxis(a: real, b: real, c: real, k: real)
    ensures Dot(a, b, c, k, 0.0, 0.0) == Times(a, k)
    ensures Dot(a, b, c, 0.0, k, 0.0) == Times(b, k)
    ensures Dot(a, b, c, 0.0, 0.0, k) == Times(c, k)
  {
  }

  /** The plane normal in box-local axes. */
  function LocalNormal(o: Matrix, n: Vec): Vec {
    [Dot(o[0], o[1], o[2], n[0], n[1], n[2]),
     Dot(o[3], o[4], o[5], n[0], n[1], n[2]),
     Dot(o[6], o[7], o[8], n[0], n[1], n[2])]
  }

  /** Multiplying a sum of three products and a shift by `n`. */
  lemma TimesDot(n: real, a: real, b: real, c: real, x: real, y: real, z: real, t: real)
    ensures Times(n, Dot(a, b, c, x, y, z) + t) ==
            Times(Times(a, n), x) + Times(Times(b, n), y) + Times(Times(c, n), z) + Times(n, t)
  {
    assert n * (a * x) == (a * n) * x;
    assert n * (b * y) == (b * n) * y;
    assert n * (c * z) == (c * n) * z;
    assert n * (a * x + b * y + c * z + t) == n * (a * x) + n * (b * y) + n * (c * z) + n * t;
  }

  lemma TimesSum(a: real, b: real, c: real, x: real)
    ensures Times(a + b + c, x) == Times(a, x) + Times(b, x) + Times(c, x)
  {
  }

  /** Distance in world space is the local normal's product plus a part that does not depend on the point. */
  lemma DistOfWorld(planes: Planes, p: nat, o: Matrix, translation: Vec, v: Vec)
    requires p < PLANES
    ensures var n := Normal(planes, p); var l := LocalNormal(o, n);
            Dist(planes, p, World(o, translation, v)) ==
            Dot(l[0], l[1], l[2], v[0], v[1], v[2]) +
            Dot(n[0], n[1], n[2], translation[0], translation[1], translation[2]) + planes[p * 4 + 3]
  {
    var n := Normal(planes, p);
    TimesDot(n[0], o[0], o[3], o[6], v[0], v[1], v[2], translation[0]);
    TimesDot(n[1], o[1], o[4], o[7], v[0], v[1], v[2], translation[1]);
    TimesDot(n[2], o[2], o[5], o[8], v[0], v[1], v[2], translation[2]);
    TimesSum(Times(o[0], n[0]), Times(o[1], n[1]), Times(o[2], n[2]), v[0]);
    TimesSum(Times(o[3], n[0]), Times(o[4], n[1]), Times(o[5], n[2]), v[1]);
    TimesSum(Times(o[6], n[0]), Times(o[7], n[1]), Times(o[8], n[2]), v[2]);
  }

  /** Every point of the box, carried to world space, is behind plane `p`. */
  ghost predicate OrientedBoxBeyond(planes: Planes, p: nat, box: Box, o: Matrix, translation: Vec) {
    p < PLANES && forall v: Vec :: Inside(box, v, 0.0) ==> Beyond(planes, p, World(o, translation, v), PLANE_EPS)
  }

  lemma OrientedBoxBeyondIsItsCorner(planes: Planes, p: nat, box: Box, o: Matrix, translation: Vec)
    requires p < PLANES && Ordered(box)
    ensures OrientedBoxBeyond(planes, p, box, o, translation) <==>
            Beyond(planes, p, World(o, translation, SupportCorner(LocalNormal(o, Normal(planes, p)), box)), PLANE_EPS)
  {
    var l := LocalNormal(o, Normal(planes, p));
    var corner := SupportCorner(l, box);
    CornerIsInside(l, box);
    DistOfWorld(planes, p, o, translation, corner);
    forall v: Vec | Inside(box, v, 0.0)
      ensures Dist(planes, p, World(o, translation, v)) <= Dist(planes, p, World(o, translation, corner))
    {
      DistOfWorld(planes, p, o, translation, v);
      SupportIsFarthest(l[0], box[0], box[3], v[0]);
      SupportIsFarthest(l[1], box[1], box[4], v[1]);
      SupportIsFarthest(l[2], box[2], box[5], v[2]);
    }
  }

  /** The support corner of the carried box against one plane. */
  method RejectsOriented(planes: Planes, p: nat, box: Box, o: Matrix, translation: Vec) returns (rejects: bool)
    requires p < PLANES
    ensures Ordered(box) ==> (rejects <==> OrientedBoxBeyond(planes, p, box, o, translation))
  {
    var corner := SupportCorner(LocalNormal(o, Normal(planes, p)), box);
    rejects := Dist(planes, p, World(o, translation, corner)) < PLANE_EPS;
    if Ordered(box) {
      OrientedBoxBeyondIsItsCorner(planes, p, box, o, translation);
    }
  }

  /** Under any matrix and translation: rejected exactly when the whole carried box is behind one plane. */
  method TestOrientedBox(planes: Planes, box: Box, o: Matrix, translation: Vec) returns (visible: int)
    ensures visible in {0, 3}
    ensures Ordered(box) ==> (visible == 0 <==> exists p :: OrientedBoxBeyond(planes, p, box, o, translation))
  {
    for p := 0 to PLANES
      invariant Ordered(box) ==> forall q :: 0 <= q < p ==> !OrientedBoxBeyond(planes, q, box, o, translation)
    {
      var rejects := RejectsOriented(planes, p, box, o, translation);
      if rejects {
        return 0;
      }
    }
    return 3;
  }

  // ---- Spheres -----------------------------------------------------------

  type Sphere = s: seq<real> | |s| == 4 witness [0.0, 0.0, 0.0, 0.0]

  function NormSq(x: real, y: real, z: real): real {
    Times(x, x) + Times(y, y) + Times(z, z)
  }

  predicate UnitNormal(planes: Planes, p: nat) {
    p < PLANES && NormSq(planes[p * 4], planes[p * 4 + 1], planes[p * 4 + 2]) == 1.0
  }

  /** `v` is in the closed ball. */
  predicate InBall(sphere: Sphere, v: Vec) {
    NormSq(v[0] - sphere[0], v[1] - sphere[1], v[2] - sphere[2]) <= Times(sphere[3], sphere[3])
  }

  ghost predicate BallBeyond(planes: Planes, p: nat, sphere: Sphere) {
    p < PLANES && forall v: Vec :: InBall(sphere, v) ==> Beyond(planes, p, v, 0.0)
  }

  lemma SquareNonnegative(x: real)
    ensures x * x >= 0.0
  {
  }

  lemma LagrangeIdentity(a: real, b: real, c: real, x: real, y: real, z: real)
    ensures (a * a + b * b + c * c) * (x * x + y * y + z * z) ==
            (a * x + b * y + c * z) * (a * x + b * y + c * z) +
            (a * y - b * x) * (a * y - b * x) + (a * z - c * x) * (a * z - c * x) + (b * z - c * y) * (b * z - c * y)
  {
  }

  lemma CauchySchwarz(a: real, b: real, c: real, x: real, y: real, z: real)
    ensures Times(Dot(a, b, c, x, y, z), Dot(a, b, c, x, y, z)) <= Times(NormSq(a, b, c), NormSq(x, y, z))
  {
    LagrangeIdentity(a, b, c, x, y, z);
    SquareNonnegative(a * y - b * x);
    SquareNonnegative(a * z - c * x);
    SquareNonnegative(b * z - c * y);
    TimesOf(Dot(a, b, c, x, y, z), Dot(a, b, c, x, y, z), a * x + b * y + c * z, a * x + b * y + c * z);
    TimesOf(NormSq(a, b, c), NormSq(x, y, z), a * a + b * b + c * c, x * x + y * y + z * z);
  }

  lemma TimesOf(k: real, x: real, k': real, x': real)
    requires k == k' && x == x'
    ensures Times(k, x) == k' * x'
  {
  }

  lemma RootOrder(d: real, r: real)
    requires r >= 0.0 && d * d <= r * r
    ensures -r <= d <= r
  {
    if d > r {
      ScaleStrict(d, r, d);
      ScaleMonotone(r, r, d);
    } else if -d > r {
      ScaleStrict(-d, r, -d);
      ScaleMonotone(r, r, -d);
    }
  }

  /** Moving by `w` from `v` changes the distance by the normal's product with `w`. */
  lemma DistMoves(planes: Planes, p: nat, v: Vec, u: Vec)
    requires p < PLANES
    ensures Dist(planes, p, u) == Dist(planes, p, v) +
            Dot(planes[p * 4], planes[p * 4 + 1], planes[p * 4 + 2], u[0] - v[0], u[1] - v[1], u[2] - v[2])
  {
    TimesDifference(planes[p * 4], u[0], v[0]);
    TimesDifference(planes[p * 4 + 1], u[1], v[1]);
    TimesDifference(planes[p * 4 + 2], u[2], v[2]);
  }

  lemma TimesDifference(k: real, x: real, y: real)
    ensures Times(k, x - y) == Times(k, x) - Times(k, y)
  {
  }

  function Center(sphere: Sphere): Vec {
    [sphere[0], sphere[1], sphere[2]]
  }

  /** The ball's point farthest along a unit normal. */
  function Pole(sphere: Sphere, n: Vec): Vec {
    [sphere[0] + Times(sphere[3], n[0]), sphere[1] + Times(sphere[3], n[1]), sphere[2] + Times(sphere[3], n[2])]
  }

  lemma NormOfScaled(r: real, x: real, y: real, z: real)
    ensures NormSq(Times(r, x), Times(r, y), Times(r, z)) == Times(Times(r, r), NormSq(x, y, z))
    ensures Dot(x, y, z, Times(r, x), Times(r, y), Times(r, z)) == Times(r, NormSq(x, y, z))
  {
    assert (r * x) * (r * x) == (r * r) * (x * x);
    assert (r * y) * (r * y) == (r * r) * (y * y);
    assert (r * z) * (r * z) == (r * r) * (z * z);
  }

  lemma PoleIsExtreme(planes: Planes, p: nat, sphere: Sphere)
    requires UnitNormal(planes, p)
    ensures InBall(sphere, Pole(sphere, Normal(planes, p)))
    ensures Dist(planes, p, Pole(sphere, Normal(planes, p))) == Dist(planes, p, Center(sphere)) + sphere[3]
  {
    var n, r := Normal(planes, p), sphere[3];
    NormOfScaled(r, n[0], n[1], n[2]);
    DistMoves(planes, p, Center(sphere), Pole(sphere, n));
  }

  lemma BallIsNear(planes: Planes, p: nat, sphere: Sphere, v: Vec)
    requires UnitNormal(planes, p) && sphere[3] >= 0.0 && InBall(sphere, v)
    ensures Dist(planes, p, v) <= Dist(planes, p, Center(sphere)) + sphere[3]
  {
    var n, c := Normal(planes, p), Center(sphere);
    CauchySchwarz(n[0], n[1], n[2], v[0] - c[0], v[1] - c[1], v[2] - c[2]);
    RootOrder(Dot(n[0], n[1], n[2], v[0] - c[0], v[1] - c[1], v[2] - c[2]), sphere[3]);
    DistMoves(planes, p, c, v);
  }

  /** For a unit normal the code's comparison says exactly that the whole ball is behind the plane. */
  lemma BallBeyondIsItsPole(planes: Planes, p: nat, sphere: Sphere)
    requires UnitNormal(planes, p) && sphere[3] >= 0.0
    ensures BallBeyond(planes, p, sphere) <==> Dist(planes, p, Center(sphere)) < -sphere[3]
  {
    PoleIsExtreme(planes, p, sphere);
    forall v: Vec | InBall(sphere, v)
      ensures Dist(planes, p, v) <= Dist(planes, p, Center(sphere)) + sphere[3]
    {
      BallIsNear(planes, p, sphere, v);
    }
  }

  predicate UnitNormals(planes: Planes) {
    forall p :: 0 <= p < PLANES ==> UnitNormal(planes, p)
  }

  /** With unit normals, a sphere is rejected exactly when its whole ball is behind one of the planes. */
  method TestSphere(planes: Planes, sphere: Sphere) returns (visible: int)
    ensures visible in {0, 3}
    ensures visible == 0 <==> exists p: nat :: p < PLANES && Dist(planes, p, Center(sphere)) < -sphere[3]
    ensures UnitNormals(planes) && sphere[3] >= 0.0 ==>
      (visible == 0 <==> exists p :: BallBeyond(planes, p, sphere))
  {
    if UnitNormals(planes) && sphere[3] >= 0.0 {
      forall p: nat | p < PLANES
        ensures BallBeyond(planes, p, sphere) <==> Dist(planes, p, Center(sphere)) < -sphere[3]
      {
        BallBeyondIsItsPole(planes, p, sphere);
      }
    }
    for p := 0 to PLANES
      invariant forall q: nat :: q < p ==> Dist(planes, q, Center(sphere)) >= -sphere[3]
    {
      if Dist(planes, p, Center(sphere)) < -sphere[3] {
        return 0;
      }
    }
    return 3;
  }
}
