/**
 * The 32-point synthesis transform of the MPEG audio decoder (ISO/IEC 11172-3,
 * section 2.4.3.2.2): the factored form against the direct cosine sum, over the reals.
 */
module Dct {
  /** `C(j)` stands for the cosine of `j` `q`-ths of a quarter turn. */
  type Cosines = int -> real

  predicate ProductToSum(C: Cosines, a: int, b: int) {
    2.0 * C(a) * C(b) == C(a + b) + C(a - b)
  }

  ghost predicate CosineSequence(C: Cosines, q: int) {
    C(0) == 1.0 && C(q) == 0.0 && forall a, b :: ProductToSum(C, a, b)
  }

  lemma CosineEven(C: Cosines, q: int, a: int)
    requires CosineSequence(C, q)
    ensures C(-a) == C(a)
  {
    assert ProductToSum(C, 0, a);
  }

  lemma CosineHalfTurn(C: Cosines, q: int, a: int)
    requires CosineSequence(C, q)
    ensures C(2 * q + a) == -C(a) && C(2 * q - a) == -C(a)
  {
    assert ProductToSum(C, q + a, q);
    assert q + a + q == 2 * q + a && q + a - q == a;
    assert ProductToSum(C, q - a, q);
    assert q - a + q == 2 * q - a && q - a - q == -a;
    CosineEven(C, q, a);
  }

  lemma CosineFullTurn(C: Cosines, q: int, a: int)
    requires CosineSequence(C, q)
    ensures C(4 * q + a) == C(a)
  {
    CosineHalfTurn(C, q, a);
    CosineHalfTurn(C, q, 2 * q + a);
    assert 2 * q + (2 * q + a) == 4 * q + a;
  }

  lemma {:induction false} CosinePeriod(C: Cosines, q: int, a: int, turns: int)
    requires CosineSequence(C, q)
    ensures C(4 * q * turns + a) == C(a)
    decreases if turns >= 0 then turns else -turns
  {
    if turns > 0 {
      CosinePeriod(C, q, a, turns - 1);
      CosineFullTurn(C, q, 4 * q * (turns - 1) + a);
      assert 4 * q + (4 * q * (turns - 1) + a) == 4 * q * turns + a;
    } else if turns < 0 {
      CosinePeriod(C, q, a, turns + 1);
      CosineFullTurn(C, q, 4 * q * turns + a);
      assert 4 * q + (4 * q * turns + a) == 4 * q * (turns + 1) + a;
    }
  }

  /** Odd multiples of the quarter turn vanish. */
  lemma {:induction false} CosineOddQuarter(C: Cosines, q: int, n: nat)
    requires CosineSequence(C, q)
    ensures C(q * (2 * n + 1)) == 0.0
  {
    if n > 0 {
      CosineOddQuarter(C, q, n - 1);
      CosineHalfTurn(C, q, q * (2 * (n - 1) + 1));
      assert 2 * q + q * (2 * (n - 1) + 1) == q * (2 * n + 1);
    }
  }

  function Sum(f: int -> real, lo: int, hi: int): real
    decreases hi - lo
  {
    if lo >= hi then 0.0 else f(lo) + Sum(f, lo + 1, hi)
  }

  lemma {:induction false} SumLast(f: int -> real, lo: int, hi: int)
    requires lo < hi
    ensures Sum(f, lo, hi) == Sum(f, lo, hi - 1) + f(hi - 1)
    decreases hi - lo
  {
    if lo + 1 < hi {
      SumLast(f, lo + 1, hi);
    }
  }

  lemma {:induction false} SumSame(f: int -> real, g: int -> real, lo: int, hi: int)
    requires forall k :: lo <= k < hi ==> f(k) == g(k)
    ensures Sum(f, lo, hi) == Sum(g, lo, hi)
    decreases hi - lo
  {
    if lo < hi {
      SumSame(f, g, lo + 1, hi);
    }
  }

  lemma {:induction false} SumPlus(f: int -> real, g: int -> real, h: int -> real, lo: int, hi: int)
    requires forall k :: lo <= k < hi ==> h(k) == f(k) + g(k)
    ensures Sum(h, lo, hi) == Sum(f, lo, hi) + Sum(g, lo, hi)
    decreases hi - lo
  {
    if lo < hi {
      SumPlus(f, g, h, lo + 1, hi);
    }
  }

  /** A sum over an even range is the sum over its first half of mirrored pairs. */
  lemma {:induction false} SumFold(f: int -> real, pair: int -> real, lo: int, hi: int)
    requires lo <= hi && (hi - lo) % 2 == 0
    requires forall k :: lo <= k < (lo + hi) / 2 ==> pair(k) == f(k) + f(lo + hi - 1 - k)
    ensures Sum(f, lo, hi) == Sum(pair, lo, (lo + hi) / 2)
    decreases hi - lo
  {
    if lo < hi {
      SumLast(f, lo + 1, hi);
      SumFold(f, pair, lo + 1, hi - 1);
    }
  }

  lemma FoldOntoTwo(f: int -> real, g: int -> real, h: int -> real, n: nat)
    requires n % 2 == 0 && forall i :: 0 <= i < n / 2 ==> g(i) + h(i) == f(i) + f(n - 1 - i)
    ensures Sum(f, 0, n) == Sum(g, 0, n / 2) + Sum(h, 0, n / 2)
  {
    var pair := k => g(k) + h(k);
    SumFold(f, pair, 0, n);
    SumPlus(g, h, pair, 0, n / 2);
  }

  /** The direct transform: row `m` of the N-point sum, with `c` the N-th part of a quarter turn. */
  function Term(C: Cosines, c: int, x: seq<real>, m: int): int -> real {
    k => if 0 <= k < |x| then x[k] * C(c * m * (2 * k + 1)) else 0.0
  }

  function Direct(C: Cosines, c: int, x: seq<real>, m: int): real {
    Sum(Term(C, c, x, m), 0, |x|)
  }

  /** The plain fold of a vector around its centre. */
  function Sums(x: seq<real>): (s: seq<real>)
    ensures |s| == |x| / 2
  {
    seq(|x| / 2, i requires 0 <= i < |x| / 2 => x[i] + x[|x| - 1 - i])
  }

  /** A butterfly's twiddled difference. */
  function Twist(lo: real, hi: real, t: real): real {
    (lo - hi) * t
  }

  /** The twiddled fold. */
  function Twists(x: seq<real>, tw: seq<real>): (d: seq<real>)
    requires |tw| == |x| / 2
    ensures |d| == |x| / 2
  {
    seq(|x| / 2, i requires 0 <= i < |x| / 2 => Twist(x[i], x[|x| - 1 - i], tw[i]))
  }

  /** `t` is one over twice the cosine. */
  predicate Halves(cosine: real, t: real) {
    2.0 * cosine * t == 1.0
  }

  predicate Product(r: real, a: real, b: real) {
    r == a * b
  }

  /** Entry `i` of the table for factor `c` is `1 / (2 C(c (2i + 1)))`. */
  ghost predicate Twiddles(C: Cosines, c: int, tw: seq<real>) {
    forall i :: 0 <= i < |tw| ==> Halves(C(c * (2 * i + 1)), tw[i])
  }

  /** Where the mirrored sample of an odd position `j` lands, for every row. */
  lemma MirrorIndices(q: int, c: int, n: nat, m: int, j: int)
    requires c * n == q
    ensures c * (2 * n - j) == 2 * q - c * j
    ensures c * (2 * m) * (2 * n - j) == 4 * q * m + -(c * (2 * m) * j)
    ensures c * (2 * m + 1) * (2 * n - j) == 4 * q * m + (2 * q - c * (2 * m + 1) * j)
  {
    var u := c * j;
    assert c * (2 * n - j) == 2 * (c * n) - u;
    assert c * (2 * m) * (2 * n - j) == (2 * m) * (c * (2 * n - j)) == (2 * m) * (2 * q - u);
    assert c * (2 * m) * j == (2 * m) * u;
    assert (2 * m) * (2 * q - u) == 4 * q * m - (2 * m) * u;
    assert c * (2 * m + 1) * (2 * n - j) == c * (2 * m) * (2 * n - j) + c * (2 * n - j);
    assert c * (2 * m + 1) * j == c * (2 * m) * j + u;
  }

  /** Mirrored sample positions: even rows see equal cosines, the half-angle cosine flips sign. */
  lemma MirrorCosines(C: Cosines, q: int, c: int, n: nat, m: int, i: int)
    requires CosineSequence(C, q) && c * n == q
    ensures C(c * (2 * m) * (2 * (n - 1 - i) + 1)) == C(c * (2 * m) * (2 * i + 1))
    ensures C(c * (2 * (n - 1 - i) + 1)) == -C(c * (2 * i + 1))
    ensures C(c * (2 * m + 1) * (2 * (n - 1 - i) + 1)) == -C(c * (2 * m + 1) * (2 * i + 1))
  {
    var j := 2 * i + 1;
    assert 2 * (n - 1 - i) + 1 == 2 * n - j;
    MirrorIndices(q, c, n, m, j);
    CosineHalfTurn(C, q, c * j);
    CosinePeriod(C, q, -(c * (2 * m) * j), m);
    CosineEven(C, q, c * (2 * m) * j);
    CosinePeriod(C, q, 2 * q - c * (2 * m + 1) * j, m);
    CosineHalfTurn(C, q, c * (2 * m + 1) * j);
  }

  lemma EvenPair(C: Cosines, q: int, c: int, x: seq<real>, m: int, i: nat)
    requires CosineSequence(C, q) && c * |x| == q && |x| % 2 == 0 && i < |x| / 2
    ensures Term(C, c, x, 2 * m)(i) + Term(C, c, x, 2 * m)(|x| - 1 - i) == Term(C, 2 * c, Sums(x), m)(i)
  {
    var n, j := |x|, 2 * i + 1;
    MirrorCosines(C, q, c, n, m, i);
    EvenIndices(c, m, j);
    Distribute(x[i], x[n - 1 - i], C(c * (2 * m) * j));
  }

  lemma EvenIndices(c: int, m: int, j: int)
    ensures c * (2 * m) * j == 2 * c * m * j
  {
    assert c * (2 * m) == 2 * c * m;
  }

  lemma Distribute(a: real, b: real, v: real)
    ensures (a + b) * v == a * v + b * v
  {
  }

  /** The two samples of a mirrored pair in an odd row. */
  lemma OddLeft(C: Cosines, q: int, c: int, x: seq<real>, m: int, i: nat)
    requires CosineSequence(C, q) && c * |x| == q && |x| % 2 == 0 && i < |x| / 2
    ensures Product(Term(C, c, x, 2 * m + 1)(i), x[i], C(c * (2 * m + 1) * (2 * i + 1)))
    ensures Product(Term(C, c, x, 2 * m + 1)(|x| - 1 - i), x[|x| - 1 - i], -C(c * (2 * m + 1) * (2 * i + 1)))
  {
    MirrorCosines(C, q, c, |x|, m, i);
  }

  /** The two twisted terms the pair turns into, with their cosines' product. */
  lemma OddRight(C: Cosines, q: int, c: int, d: seq<real>, m: int, i: nat)
    requires CosineSequence(C, q) && i < |d|
    ensures var a, b := c * (2 * m + 1) * (2 * i + 1), c * (2 * i + 1);
      && ProductToSum(C, a, b)
      && Product(Term(C, 2 * c, d, m)(i), d[i], C(a - b))
      && Product(Term(C, 2 * c, d, m + 1)(i), d[i], C(a + b))
  {
    assert ProductToSum(C, c * (2 * m + 1) * (2 * i + 1), c * (2 * i + 1));
    OddIndices(c, m, 2 * i + 1);
  }

  lemma OddPair(C: Cosines, q: int, c: int, x: seq<real>, tw: seq<real>, m: int, i: nat)
    requires CosineSequence(C, q) && c * |x| == q && |x| % 2 == 0 && i < |x| / 2
    requires |tw| == |x| / 2 && Twiddles(C, c, tw)
    ensures Term(C, c, x, 2 * m + 1)(i) + Term(C, c, x, 2 * m + 1)(|x| - 1 - i)
         == Term(C, 2 * c, Twists(x, tw), m)(i) + Term(C, 2 * c, Twists(x, tw), m + 1)(i)
  {
    OddLeft(C, q, c, x, m, i);
    OddRight(C, q, c, Twists(x, tw), m, i);
    var a, b := c * (2 * m + 1) * (2 * i + 1), c * (2 * i + 1);
    var f, g, h := Term(C, c, x, 2 * m + 1), Term(C, 2 * c, Twists(x, tw), m), Term(C, 2 * c, Twists(x, tw), m + 1);
    OddAlgebra(C, a, b, x[i], x[|x| - 1 - i], tw[i], f(i), f(|x| - 1 - i), g(i), h(i));
  }

  lemma OddIndices(c: int, m: int, j: int)
    ensures c * (2 * m + 1) * j + c * j == 2 * c * (m + 1) * j
    ensures c * (2 * m + 1) * j - c * j == 2 * c * m * j
  {
    assert c * (2 * m + 1) * j == (2 * c * m + c) * j == 2 * c * m * j + c * j;
    assert 2 * c * (m + 1) * j == (2 * c * m + 2 * c) * j == 2 * c * m * j + 2 * c * j;
  }

  lemma OddAlgebra(C: Cosines, a: int, b: int, p: real, q: real, t: real,
                   left: real, right: real, low: real, high: real)
    requires Halves(C(b), t) && ProductToSum(C, a, b)
    requires Product(left, p, C(a)) && Product(right, q, -C(a))
    requires Product(low, Twist(p, q, t), C(a - b)) && Product(high, Twist(p, q, t), C(a + b))
    ensures left + right == low + high
  {
    var v, half, d := C(a), C(b), Twist(p, q, t);
    assert low + high == d * (2.0 * v * half);
    assert d * (2.0 * v * half) == (p - q) * v * (2.0 * half * t);
  }

  /** Even rows of a transform are the rows of the half-size transform of its sums. */
  lemma EvenRows(C: Cosines, q: int, c: int, x: seq<real>, m: int)
    requires CosineSequence(C, q) && c * |x| == q && |x| % 2 == 0
    ensures Direct(C, c, x, 2 * m) == Direct(C, 2 * c, Sums(x), m)
  {
    var n := |x|;
    var f, g := Term(C, c, x, 2 * m), Term(C, 2 * c, Sums(x), m);
    forall i | 0 <= i < n / 2 ensures g(i) == f(i) + f(0 + n - 1 - i) {
      EvenPair(C, q, c, x, m, i);
    }
    SumFold(f, g, 0, n);
  }

  /** Odd rows are sums of two neighbouring rows of the half-size transform of its twists. */
  lemma OddRows(C: Cosines, q: int, c: int, x: seq<real>, tw: seq<real>, m: int)
    requires CosineSequence(C, q) && c * |x| == q && |x| % 2 == 0 && |tw| == |x| / 2 && Twiddles(C, c, tw)
    ensures Direct(C, c, x, 2 * m + 1) == Direct(C, 2 * c, Twists(x, tw), m) + Direct(C, 2 * c, Twists(x, tw), m + 1)
  {
    var n := |x|;
    var d := Twists(x, tw);
    var f := Term(C, c, x, 2 * m + 1);
    var g, h := Term(C, 2 * c, d, m), Term(C, 2 * c, d, m + 1);
    forall i | 0 <= i < n / 2 ensures g(i) + h(i) == f(i) + f(n - 1 - i) {
      OddPair(C, q, c, x, tw, m, i);
    }
    FoldOntoTwo(f, g, h, n);
  }

  /** The row one past the end of a transform is zero. */
  lemma PastEnd(C: Cosines, q: int, c: int, x: seq<real>)
    requires CosineSequence(C, q) && c * |x| == q
    ensures Direct(C, c, x, |x|) == 0.0
  {
    forall k | 0 <= k < |x| ensures Term(C, c, x, |x|)(k) == 0.0 {
      assert c * |x| * (2 * k + 1) == q * (2 * k + 1);
      CosineOddQuarter(C, q, k);
    }
    SumSame(Term(C, c, x, |x|), k => 0.0, 0, |x|);
    SumZero(0, |x|);
  }

  lemma {:induction false} SumZero(lo: int, hi: int)
    ensures Sum(k => 0.0, lo, hi) == 0.0
    decreases hi - lo
  {
    if lo < hi {
      SumZero(lo + 1, hi);
    }
  }

  /** All rows 0..N of a transform from the rows of its half-size even and odd parts. */
  function Expand(even: seq<real>, odd: seq<real>): (rows: seq<real>)
    requires |even| == |odd| > 0
    ensures |rows| == 2 * |even| - 1
  {
    seq(2 * |even| - 1, m requires 0 <= m < 2 * |even| - 1 =>
      if m % 2 == 0 then even[m / 2] else odd[m / 2] + odd[m / 2 + 1])
  }

  predicate Sized(x: seq<real>, tws: seq<seq<real>>)
    decreases |tws|
  {
    if tws == [] then |x| == 1
    else |x| % 2 == 0 && |tws[0]| == |x| / 2 && Sized(Sums(x), tws[1..]) && Sized(Twists(x, tws[0]), tws[1..])
  }

  /** The factored transform, one fold per twiddle table. */
  function FastRows(x: seq<real>, tws: seq<seq<real>>): (rows: seq<real>)
    requires Sized(x, tws)
    ensures |rows| == |x| + 1
    decreases |tws|
  {
    if tws == [] then [x[0], 0.0]
    else Expand(FastRows(Sums(x), tws[1..]), FastRows(Twists(x, tws[0]), tws[1..]))
  }

  ghost predicate AllTwiddles(C: Cosines, c: int, tws: seq<seq<real>>)
    decreases |tws|
  {
    tws != [] ==> Twiddles(C, c, tws[0]) && AllTwiddles(C, 2 * c, tws[1..])
  }

  /** Row `m` of a transform whose half-size parts have rows `even` and `odd`. */
  lemma ExpandedRow(C: Cosines, q: int, c: int, x: seq<real>, tw: seq<real>, even: seq<real>, odd: seq<real>, m: nat)
    requires CosineSequence(C, q) && c * |x| == q && |x| % 2 == 0 && |tw| == |x| / 2 && Twiddles(C, c, tw)
    requires |even| == |odd| == |x| / 2 + 1 && m <= |x|
    requires even[m / 2] == Direct(C, 2 * c, Sums(x), m / 2)
    requires odd[m / 2] == Direct(C, 2 * c, Twists(x, tw), m / 2)
    requires m % 2 == 1 ==> odd[m / 2 + 1] == Direct(C, 2 * c, Twists(x, tw), m / 2 + 1)
    ensures Expand(even, odd)[m] == Direct(C, c, x, m)
  {
    if m % 2 == 0 {
      EvenRows(C, q, c, x, m / 2);
    } else {
      OddRows(C, q, c, x, tw, m / 2);
    }
  }

  /** For every size that is a power of two, the factored transform is the direct cosine sum. */
  lemma {:induction false} FastIsDirect(C: Cosines, q: int, c: int, x: seq<real>, tws: seq<seq<real>>, m: nat)
    requires CosineSequence(C, q) && Sized(x, tws) && AllTwiddles(C, c, tws)
    requires c * |x| == q && m <= |x|
    ensures FastRows(x, tws)[m] == Direct(C, c, x, m)
    decreases |tws|
  {
    if tws == [] {
      OnePoint(C, q, x, m);
    } else {
      HalfSize(c, |x|);
      var sums, twists := Sums(x), Twists(x, tws[0]);
      FastIsDirect(C, q, 2 * c, sums, tws[1..], m / 2);
      FastIsDirect(C, q, 2 * c, twists, tws[1..], m / 2);
      if m % 2 == 1 {
        FastIsDirect(C, q, 2 * c, twists, tws[1..], m / 2 + 1);
      }
      ExpandedRow(C, q, c, x, tws[0], FastRows(sums, tws[1..]), FastRows(twists, tws[1..]), m);
    }
  }

  lemma OnePoint(C: Cosines, q: int, x: seq<real>, m: nat)
    requires CosineSequence(C, q) && |x| == 1 && m <= 1
    ensures [x[0], 0.0][m] == Direct(C, q, x, m)
  {
    if m == 1 {
      PastEnd(C, q, q, x);
    } else {
      assert Direct(C, q, x, 0) == Term(C, q, x, 0)(0) == x[0] * C(q * 0 * 1);
    }
  }

  lemma HalfSize(c: int, n: int)
    requires n % 2 == 0
    ensures 2 * c * (n / 2) == c * n
  {
    var h := n / 2;
    assert n == 2 * h;
  }

  /**
   * Rows `m` and `64 - m` of the 32-point transform are opposite. The standard's
   * matrix numbers its rows from 16, so this reads every stored row as a row of
   * that matrix.
   */
  lemma OppositeRows(C: Cosines, x: seq<real>, m: int)
    requires CosineSequence(C, 32)
    ensures Direct(C, 1, x, 64 - m) == -Direct(C, 1, x, m)
  {
    var f, g, zero := Term(C, 1, x, 64 - m), Term(C, 1, x, m), k => 0.0;
    forall k | 0 <= k < |x| ensures zero(k) == f(k) + g(k) {
      var y := m * (2 * k + 1);
      assert (64 - m) * (2 * k + 1) == 128 * k + (64 - y);
      CosinePeriod(C, 32, 64 - y, k);
      CosineHalfTurn(C, 32, y);
    }
    SumPlus(f, g, zero, 0, |x|);
    SumZero(0, |x|);
  }
}
