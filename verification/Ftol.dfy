/**
 * The CRT float-to-integer truncation on raw bit patterns (IEEE 754-2008,
 * section 3.4 for the encoding, section 5.8 for conversion toward zero).
 */
module Ftol {
  import opened Words
  import opened Bits

  const I32_MIN: int := -0x8000_0000
  const I64_MIN: int := -0x8000_0000_0000_0000

  /** The value a bit pattern denotes. */
  datatype F64 = NaN | Infinite(negative: bool) | Finite(value: real)

  function Low(bits: u64): u32 { bits % TWO32 }
  function High(bits: u64): u32 { bits / TWO32 }
  function Exponent(hi: u32): nat { hi / 0x10_0000 % 0x800 }
  function Fraction(bits: u64): nat { bits % 0x10_0000_0000_0000 }
  predicate Negative(bits: u64) { bits / 0x8000_0000_0000_0000 == 1 }

  /** `m` times two to the power `e`, for exponents of either sign. */
  function Scaled(m: nat, e: int): real {
    if e >= 0 then (m * Pow2(e)) as real else m as real / Pow2(-e) as real
  }

  function Magnitude(bits: u64): real {
    var exp := Exponent(High(bits));
    if exp == 0 then Scaled(Fraction(bits), -1074) else Scaled(0x10_0000_0000_0000 + Fraction(bits), exp - 1075)
  }

  function Decode(bits: u64): F64 {
    if Exponent(High(bits)) == 0x7ff then
      if Fraction(bits) != 0 then NaN else Infinite(Negative(bits))
    else
      Finite(if Negative(bits) then -Magnitude(bits) else Magnitude(bits))
  }

  /** The integer nearest to `v` that is no farther from zero. */
  ghost predicate TruncatesTo(v: real, n: int) {
    if v >= 0.0 then n as real <= v < (n + 1) as real else (n - 1) as real < v <= n as real
  }

  function Trunc(v: real): int {
    if v >= 0.0 then v.Floor else -((-v).Floor)
  }

  lemma TruncIsUnique(v: real, n: int)
    ensures TruncatesTo(v, n) <==> n == Trunc(v)
  {
  }

  /** The convert the fast path issues. */
  function TruncToI32(x: F64): int {
    match x
    case Finite(v) => if v > -2147483649.0 && v < 2147483648.0 then Trunc(v) else I32_MIN
    case _ => I32_MIN
  }

  /** `m << k` on a 64-bit register. */
  function ShiftLeft(m: u64, k: nat): u64
    requires k < 64
  {
    m * Pow2(k) % TWO64
  }

  /** Reinterpretation of an unsigned 64-bit word as a signed one. */
  function AsI64(m: u64): int {
    if m < TWO64 / 2 then m else m - TWO64
  }

  /** The implicit bit joined to the high half, and the low half below it. */
  function Significand(lo: u32, hi: u32): u64 {
    (hi % 0x10_0000 + 0x10_0000) * TWO32 + lo
  }

  /** The answer built from the raw halves. */
  function Wide(bits: u64): int {
    var lo, hi := Low(bits), High(bits);
    var exp := Exponent(hi);
    if exp < 1023 then 0
    else
      var e := exp - 1075;
      if e >= 11 then I64_MIN
      else
        var m := Significand(lo, hi);
        var mag := if e >= 0 then ShiftLeft(m, e) else ShiftRight(m, -e);
        if hi / 0x8000_0000 == 0 then AsI64(mag) else -AsI64(mag)
  }

  function Ftol(bits: u64): int {
    var narrow := TruncToI32(Decode(bits));
    if narrow != I32_MIN then narrow else Wide(bits)
  }

  /** What the routine promises: exact truncation where it fits, the indefinite value elsewhere. */
  function Exact(x: F64): int {
    match x
    case Finite(v) => if I64_MIN <= Trunc(v) < -I64_MIN then Trunc(v) else I64_MIN
    case _ => I64_MIN
  }

  /** Setting the implicit bit is adding it: the mask has cleared that position. */
  lemma ImplicitBitIsDisjoint(h: bv32)
    ensures (h & 0x000f_ffff) | 0x0010_0000 == (h % 0x0010_0000) + 0x0010_0000
    ensures (h >> 20) & 0x7ff == (h / 0x0010_0000) % 0x800
  {
  }

  lemma HalvesOfBits(bits: u64)
    ensures Significand(Low(bits), High(bits)) == 0x10_0000_0000_0000 + Fraction(bits)
    ensures High(bits) / 0x8000_0000 == 0 <==> !Negative(bits)
  {
    var lo, hi := Low(bits), High(bits);
    var q, r := hi / 0x10_0000, hi % 0x10_0000;
    assert bits == q * 0x10_0000_0000_0000 + (r * TWO32 + lo);
    assert Fraction(bits) == r * TWO32 + lo;
  }

  /** Neither shift loses bits and the result of either fits a signed word, so no negation can overflow. */
  lemma ShiftsAreExact(m: u64, e: int)
    requires m < 0x20_0000_0000_0000 && -52 <= e < 11
    ensures e >= 0 ==> ShiftLeft(m, e) == m * Pow2(e) < -I64_MIN
    ensures e < 0 ==> ShiftRight(m, -e) == m / Pow2(-e) < -I64_MIN
  {
    if e >= 0 {
      Pow2Grows(e, 10);
      assert Pow2(10) == 1024;
      assert m * Pow2(e) <= m * 1024;
    } else {
      ShrinkByDivision(m, Pow2(-e));
    }
  }

  lemma FloorOfQuotient(m: nat, p: nat)
    requires p >= 1
    ensures (m as real / p as real).Floor == m / p && m as real / p as real >= 0.0
  {
    var q, r := m / p, m % p;
    assert m as real == q as real * p as real + r as real;
    assert m as real / p as real == q as real + r as real / p as real;
    assert 0.0 <= r as real / p as real < 1.0;
  }

  lemma PowersUsed()
    ensures Pow2(11) == 0x800 && Pow2(52) == 0x10_0000_0000_0000 && Pow2(53) == 0x20_0000_0000_0000
  {
    assert Pow2(13) == 0x2000;
    Pow2Sum(13, 13);
    Pow2Sum(26, 26);
    Pow2Sum(26, 27);
  }

  /** The floor of a scaled significand, split by exponent as the code splits it. */
  lemma ScaledFloor(m: nat, e: int)
    requires m < 0x20_0000_0000_0000
    ensures Scaled(m, e) >= 0.0
    ensures e <= -53 ==> Scaled(m, e).Floor == 0
    ensures -53 < e < 0 ==> Scaled(m, e).Floor == m / Pow2(-e)
    ensures e >= 0 ==> Scaled(m, e).Floor == m * Pow2(e)
    ensures e >= 11 && m >= 0x10_0000_0000_0000 ==> Scaled(m, e).Floor >= -I64_MIN
  {
    PowersUsed();
    if e < 0 {
      FloorOfQuotient(m, Pow2(-e));
      if e <= -53 {
        Pow2Grows(53, -e);
        SmallQuotient(m, Pow2(-e));
      }
    } else if e >= 11 && m >= 0x10_0000_0000_0000 {
      Pow2Grows(11, e);
      AtLeast(m, Pow2(e));
    }
  }

  lemma MagnitudeFloor(bits: u64)
    ensures var exp, m := Exponent(High(bits)), 0x10_0000_0000_0000 + Fraction(bits);
      && Magnitude(bits) >= 0.0
      && (exp < 1023 ==> Magnitude(bits).Floor == 0)
      && (1023 <= exp < 1075 ==> Magnitude(bits).Floor == m / Pow2(1075 - exp))
      && (1075 <= exp < 1086 ==> Magnitude(bits).Floor == m * Pow2(exp - 1075))
      && (exp >= 1086 ==> Magnitude(bits).Floor >= -I64_MIN)
  {
    var exp: int := Exponent(High(bits));
    if exp == 0 {
      ScaledFloor(Fraction(bits), -1074);
    } else {
      ScaledFloor(0x10_0000_0000_0000 + Fraction(bits), exp - 1075);
    }
  }

  lemma SmallQuotient(m: nat, p: nat)
    requires m < p
    ensures m / p == 0
  {
  }

  lemma AtLeast(m: nat, p: nat)
    requires m >= 0x10_0000_0000_0000 && p >= 0x800
    ensures m * p >= 0x8000_0000_0000_0000
  {
    assert m * p >= 0x10_0000_0000_0000 * p;
  }

  lemma FloorOfSigned(v: real)
    requires v >= 0.0
    ensures Trunc(v) == v.Floor && Trunc(-v) == -(v.Floor)
  {
    assert -(-v) == v;
    if v == 0.0 {
      assert -v == 0.0;
    }
  }

  /** The wide path alone is exact on every bit pattern. */
  lemma WideIsExact(bits: u64)
    ensures Wide(bits) == Exact(Decode(bits))
  {
    var hi, exp := High(bits), Exponent(High(bits));
    HalvesOfBits(bits);
    if exp != 0x7ff {
      MagnitudeFloor(bits);
      FloorOfSigned(Magnitude(bits));
      if 1023 <= exp < 1086 {
        ShiftsAreExact(Significand(Low(bits), hi), exp - 1075);
      }
    }
  }

  /** Wherever the narrow path answers, it answers as the wide path would. */
  lemma HandoverIsSeamless(bits: u64)
    requires TruncToI32(Decode(bits)) != I32_MIN
    ensures TruncToI32(Decode(bits)) == Wide(bits)
  {
    WideIsExact(bits);
  }

  /** Every one of the 2^64 patterns converts exactly. */
  lemma FtolIsExact(bits: u64)
    ensures Ftol(bits) == Exact(Decode(bits))
  {
    WideIsExact(bits);
  }

  /** The same promise without the truncation function: bounds for values in range, the indefinite value otherwise. */
  lemma FtolTruncates(bits: u64)
    ensures match Decode(bits)
      case Finite(v) =>
        if exists n :: TruncatesTo(v, n) && I64_MIN <= n < -I64_MIN then TruncatesTo(v, Ftol(bits))
        else Ftol(bits) == I64_MIN
      case _ => Ftol(bits) == I64_MIN
  {
    FtolIsExact(bits);
    if Decode(bits).Finite? {
      var v := Decode(bits).value;
      TruncIsUnique(v, Trunc(v));
      forall n | TruncatesTo(v, n) ensures n == Trunc(v) {
        TruncIsUnique(v, n);
      }
    }
  }
}
