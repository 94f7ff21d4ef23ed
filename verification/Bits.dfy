/** Powers of two, shifts and bitwise operations on natural numbers, digit by digit. */
module Bits {
  function Pow2(k: nat): (p: nat)
    ensures p >= 1
  {
    if k == 0 then 1 else 2 * Pow2(k - 1)
  }

  lemma {:induction false} Pow2Grows(k: nat, n: nat)
    requires k <= n
    ensures Pow2(k) <= Pow2(n)
  {
    if k < n {
      Pow2Grows(k, n - 1);
    }
  }

  lemma {:induction false} Pow2Sum(a: nat, b: nat)
    ensures Pow2(a + b) == Pow2(a) * Pow2(b)
  {
    if a > 0 {
      Pow2Sum(a - 1, b);
      DoubledProduct(Pow2(a - 1), Pow2(b));
    }
  }

  lemma DoubledProduct(p: nat, q: nat)
    ensures (2 * p) * q == 2 * (p * q)
  {
  }

  lemma Pow2Of32()
    ensures Pow2(32) == 0x1_0000_0000
  {
    assert Pow2(8) == 0x100;
    Pow2Sum(8, 8);
    Pow2Sum(16, 16);
  }

  /** A logical shift to the right. */
  function ShiftRight(m: nat, k: nat): (r: nat)
    ensures r <= m
  {
    ShrinkByDivision(m, Pow2(k));
    m / Pow2(k)
  }

  lemma ShrinkByDivision(m: nat, p: nat)
    requires p >= 1
    ensures 0 <= m / p <= m
  {
  }

  lemma ShiftedPow2(k: nat, n: nat)
    requires n <= k
    ensures ShiftRight(Pow2(k), n) == Pow2(k - n)
  {
    Pow2Sum(n, k - n);
    ExactQuotient(Pow2(n), Pow2(k - n));
  }

  lemma ExactQuotient(p: nat, q: nat)
    requires p >= 1
    ensures p * q / p == q
  {
    var d, r := p * q / p, p * q % p;
    assert p * q == p * d + r;
    assert p * (q - d) == r;
    if q - d >= 1 {
      ScaledStep(p, q - d);
    } else if d - q >= 1 {
      ScaledStep(p, d - q);
    }
  }

  lemma ScaledStep(p: nat, k: nat)
    requires k >= 1
    ensures p * k >= p
  {
  }

  // ---- Digits ------------------------------------------------------------

  function Half(m: nat): nat { m / 2 }

  predicate Odd(m: nat) { m % 2 == 1 }

  function Digit(bit: bool): nat { if bit then 1 else 0 }

  /** Bitwise or. */
  function Or(a: nat, b: nat): nat {
    if a == 0 && b == 0 then 0 else 2 * Or(Half(a), Half(b)) + Digit(Odd(a) || Odd(b))
  }

  /** Bitwise and. */
  function And(a: nat, b: nat): nat {
    if a == 0 || b == 0 then 0 else 2 * And(Half(a), Half(b)) + Digit(Odd(a) && Odd(b))
  }

  /** Bitwise exclusive or. */
  function Xor(a: nat, b: nat): nat {
    if a == 0 && b == 0 then 0 else 2 * Xor(Half(a), Half(b)) + Digit(Odd(a) != Odd(b))
  }

  predicate HasBit(m: nat, p: nat) {
    if p == 0 then Odd(m) else HasBit(Half(m), p - 1)
  }

  lemma {:induction false} OrDigits(a: nat, b: nat)
    ensures Odd(Or(a, b)) <==> Odd(a) || Odd(b)
    ensures Half(Or(a, b)) == Or(Half(a), Half(b))
  {
  }

  lemma {:induction false} AndDigits(a: nat, b: nat)
    ensures Odd(And(a, b)) <==> Odd(a) && Odd(b)
    ensures Half(And(a, b)) == And(Half(a), Half(b))
  {
  }

  lemma {:induction false} ZeroHasNoBit(p: nat)
    ensures !HasBit(0, p)
  {
    if p > 0 {
      ZeroHasNoBit(p - 1);
    }
  }

  lemma {:induction false} OrHasEither(a: nat, b: nat, p: nat)
    ensures HasBit(Or(a, b), p) <==> HasBit(a, p) || HasBit(b, p)
  {
    OrDigits(a, b);
    if p > 0 {
      OrHasEither(Half(a), Half(b), p - 1);
    }
  }

  lemma {:induction false} AndHasBoth(a: nat, b: nat, p: nat)
    ensures HasBit(And(a, b), p) <==> HasBit(a, p) && HasBit(b, p)
  {
    AndDigits(a, b);
    if p > 0 {
      AndHasBoth(Half(a), Half(b), p - 1);
    }
  }

  lemma {:induction false} AndIsSmaller(a: nat, b: nat)
    ensures And(a, b) <= a && And(a, b) <= b
  {
    if a > 0 && b > 0 {
      AndIsSmaller(Half(a), Half(b));
    }
  }

  lemma {:induction false} Pow2HasOneBit(k: nat, p: nat)
    ensures HasBit(Pow2(k), p) <==> p == k
  {
    if k == 0 {
      if p > 0 {
        ZeroHasNoBit(p - 1);
      }
    } else if p > 0 {
      Pow2HasOneBit(k - 1, p - 1);
    }
  }

  /** Masking with ones keeps the remainder. */
  lemma {:induction false} AndIsRemainder(a: nat, k: nat, p: nat)
    requires p == Pow2(k)
    ensures And(a, p - 1) == a % p
  {
    if k == 0 {
      assert p == 1;
    } else {
      var half := Pow2(k - 1);
      assert p == 2 * half;
      AndIsRemainder(Half(a), k - 1, half);
      RemainderStep(a, half);
    }
  }

  lemma RemainderStep(a: nat, p: nat)
    requires p >= 1 && And(Half(a), p - 1) == Half(a) % p
    ensures And(a, 2 * p - 1) == a % (2 * p)
  {
    AndWithOnes(a, p);
    RemainderByDouble(a, p);
  }

  /** One more digit under a mask of ones. */
  lemma {:induction false} AndWithOnes(a: nat, p: nat)
    requires p >= 1
    ensures And(a, 2 * p - 1) == 2 * And(Half(a), p - 1) + Digit(Odd(a))
  {
    assert Half(2 * p - 1) == p - 1 && Odd(2 * p - 1);
  }

  lemma RemainderByDouble(a: nat, p: nat)
    requires p >= 1
    ensures a % (2 * p) == 2 * (Half(a) % p) + Digit(Odd(a))
  {
    var q, r := Half(a) / p, Half(a) % p;
    Divided(Half(a), p);
    DoubledProduct(p, q);
    RemainderIs(a, 2 * p, q, 2 * r + Digit(Odd(a)));
  }

  lemma Divided(m: nat, p: nat)
    requires p >= 1
    ensures m == p * (m / p) + m % p && 0 <= m % p < p
  {
  }

  lemma RemainderIs(a: nat, m: nat, q: nat, r: nat)
    requires r < m && a == m * q + r
    ensures a % m == r
  {
    var d := a / m - q;
    Divided(a, m);
    assert m * d == r - a % m;
    if d >= 1 {
      ScaledStep(m, d);
    } else if d <= -1 {
      ScaledStep(m, -d);
    }
  }

  /** Masking leaves something when a bit is in both. */
  lemma BitInBoth(a: nat, b: nat, p: nat)
    requires HasBit(a, p) && HasBit(b, p)
    ensures And(a, b) != 0
  {
    AndHasBoth(a, b, p);
    ZeroHasNoBit(p);
  }

  /** Masking leaves nothing when no bit is in both. */
  lemma NoBitInBoth(a: nat, b: nat)
    requires forall p: nat :: !(HasBit(a, p) && HasBit(b, p))
    ensures And(a, b) == 0
  {
    if And(a, b) != 0 {
      BelowPow2(And(a, b));
      var p := NonzeroHasBit(And(a, b), And(a, b));
      AndHasBoth(a, b, p);
    }
  }

  lemma {:induction false} BelowPow2(n: nat)
    ensures n < Pow2(n)
  {
    if n > 0 {
      BelowPow2(n - 1);
    }
  }

  /** Exclusive or of two words of the same width stays within that width. */
  lemma {:induction false} XorStaysInWidth(a: nat, b: nat, width: nat)
    requires a < Pow2(width) && b < Pow2(width)
    ensures Xor(a, b) < Pow2(width)
  {
    if width > 0 {
      XorStaysInWidth(Half(a), Half(b), width - 1);
    }
  }

  lemma {:induction false} XorZero(a: nat)
    ensures Xor(a, 0) == a
  {
    if a > 0 {
      XorZero(Half(a));
    }
  }

  lemma {:induction false} XorCommutes(a: nat, b: nat)
    ensures Xor(a, b) == Xor(b, a)
  {
    if a > 0 || b > 0 {
      XorCommutes(Half(a), Half(b));
    }
  }

  /** A shift to the left: `a` doubled `k` times. */
  function Doubled(a: nat, k: nat): nat {
    if k == 0 then a else 2 * Doubled(a, k - 1)
  }

  lemma {:induction false} DoubledIsProduct(a: nat, k: nat)
    ensures Doubled(a, k) == a * Pow2(k)
  {
    if k > 0 {
      DoubledIsProduct(a, k - 1);
      ProductOfDouble(a, Pow2(k - 1));
    }
  }

  lemma ProductOfDouble(q: nat, p: nat)
    ensures q * (2 * p) == 2 * (q * p)
  {
  }

  /** Exclusive or works on high and low words apart. */
  lemma {:induction false} XorByWords(a: nat, b: nat, c: nat, d: nat, k: nat)
    requires b < Pow2(k) && d < Pow2(k)
    ensures XorSplits(Doubled(a, k), b, Doubled(c, k), d, Doubled(Xor(a, c), k))
  {
    if k == 0 {
      XorUnsplit(a, c, Xor(a, c));
    } else {
      XorByWords(a, Half(b), c, Half(d), k - 1);
      XorJoined(Doubled(a, k - 1), b, Doubled(c, k - 1), d, Doubled(Xor(a, c), k - 1));
    }
  }

  /** Two numbers with low parts `b` and `d`, and the exclusive or of what is above them. */
  predicate XorSplits(x: nat, b: nat, y: nat, d: nat, high: nat) {
    Xor(x + b, y + d) == high + Xor(b, d)
  }

  lemma XorUnsplit(a: nat, c: nat, high: nat)
    requires high == Xor(a, c)
    ensures XorSplits(a, 0, c, 0, high)
  {
  }

  /** One more low digit. */
  lemma {:induction false} XorJoined(x: nat, b: nat, y: nat, d: nat, high: nat)
    requires XorSplits(x, Half(b), y, Half(d), high)
    ensures XorSplits(2 * x, b, 2 * y, d, 2 * high)
  {
    assert Half(2 * x + b) == x + Half(b) && Half(2 * y + d) == y + Half(d);
    assert Odd(2 * x + b) == Odd(b) && Odd(2 * y + d) == Odd(d);
  }

  lemma {:induction false} OrStaysInWidth(a: nat, b: nat, width: nat)
    requires a < Pow2(width) && b < Pow2(width)
    ensures Or(a, b) < Pow2(width)
  {
    if width > 0 {
      OrStaysInWidth(Half(a), Half(b), width - 1);
    }
  }

  lemma {:induction false} OrZero(a: nat)
    ensures Or(a, 0) == a
  {
    if a > 0 {
      OrZero(Half(a));
    }
  }

  /** `(a << k) | b` is a sum when `b` fits the `k` bits the shift has cleared. */
  lemma {:induction false} JoinIsSum(a: nat, b: nat, k: nat)
    requires b < Pow2(k)
    ensures Or(a * Pow2(k), b) == a * Pow2(k) + b
  {
    if k == 0 {
      OrZero(a);
    } else {
      var high := a * Pow2(k - 1);
      assert a * Pow2(k) == 2 * high;
      JoinIsSum(a, Half(b), k - 1);
      DoubledOr(high, b);
    }
  }

  lemma {:induction false} DoubledOr(high: nat, b: nat)
    ensures Or(2 * high, b) == 2 * Or(high, Half(b)) + Digit(Odd(b))
  {
    assert Half(2 * high) == high && !Odd(2 * high);
  }

  /** A nonzero number below `2^width` has a highest bit. */
  lemma {:induction false} NonzeroHasBit(m: nat, width: nat) returns (p: nat)
    requires 0 < m < Pow2(width)
    ensures p < width && HasBit(m, p) && LeadingZeros(m, width) == width - 1 - p
    ensures forall q :: q > p ==> !HasBit(m, q)
  {
    if m == 1 {
      p := 0;
      forall q: nat | q > 0
        ensures !HasBit(m, q)
      {
        ZeroHasNoBit(q - 1);
      }
    } else {
      var half := NonzeroHasBit(Half(m), width - 1);
      p := half + 1;
    }
  }

  /** `leading_zeros` of an integer `width` bits wide. */
  function LeadingZeros(m: nat, width: nat): (n: nat)
    ensures n <= width
  {
    if m == 0 || width == 0 then width else LeadingZeros(Half(m), width - 1)
  }
}
