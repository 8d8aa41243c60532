/**
  The numbers an IEEE double can hold, their boundaries, and why neither a
  number with an odd significand nor the boundary above it is a power of ten.
 */
module Doubles {
  import opened Positional
  import opened Decimal
  import opened RealPowers
  import opened Rounding
  import opened StartValues

  /** A positive finite double: normal, or subnormal with the smallest exponent. */
  predicate IsDouble(significand: int, exponent: int) {
    || (0x10_0000_0000_0000 <= significand < 0x20_0000_0000_0000 && -1074 <= exponent <= 971)
    || (0 < significand < 0x10_0000_0000_0000 && exponent == -1074)
  }

  // ---------- The number and its neighbourhood ----------

  ghost function Number(significand: int, exponent: int): real {
    (significand as real) * Two(exponent)
  }

  /** Halfway to the next number up. */
  ghost function UpperBoundary(significand: int, exponent: int): real {
    Number(significand, exponent) + Two(exponent) / 2.0
  }

  /** Halfway to the next number down, which is at half the distance below a power of two. */
  ghost function LowerBoundary(significand: int, exponent: int, closer: bool): real {
    Number(significand, exponent) - Two(exponent) / (if closer then 4.0 else 2.0)
  }

  lemma LowerBoundaryPositive(significand: int, exponent: int, closer: bool)
    requires significand >= 1
    ensures LowerBoundary(significand, exponent, closer) > 0.0
  {
    hide Two;
    ScaleOrder(1, significand, Two(exponent));
  }

  lemma TwoSplit(e: int)
    ensures Two(e) * (Pow2(Up(-e)) as real) == Pow2(Up(e)) as real
  {
    if e < 0 {
      TwoAdd(e, -e);
    } else {
      TwoAdd(0, e);
    }
  }

  lemma TenSplit(p: int)
    ensures Ten(p) * (Pow10(Up(-p)) as real) == Pow10(Up(p)) as real
  {
    if p < 0 {
      TenAdd(p, -p);
    } else {
      TenAdd(0, p);
    }
  }

  // ---------- Powers of ten among them ----------

  ghost function Five(n: nat): (r: nat)
    ensures r % 2 == 1
  {
    if n == 0 then 1 else
      OddSum(5 * Five(n - 1), 2 * Five(n - 1), Five(n - 1));
      5 * Five(n - 1)
  }

  lemma OddSum(x: int, g: int, q: int)
    requires x == 2 * g + q && q % 2 == 1
    ensures x % 2 == 1
  {
  }

  lemma {:induction false} TenIsFiveTimesTwo(n: nat)
    ensures Pow10(n) == Five(n) * Pow2(n)
  {
    if n > 0 {
      TenIsFiveTimesTwo(n - 1);
      var x, y := Five(n - 1), Pow2(n - 1);
      assert (5 * x) * (2 * y) == 10 * (x * y);
    }
  }

  lemma {:induction false} FiveGrows(m: nat, n: nat)
    requires m <= n
    ensures Five(m) <= Five(n)
  {
    if m < n { FiveGrows(m, n - 1); }
  }

  lemma FiveTo22()
    ensures Five(22) == 2384185791015625
  {
    assert Five(4) == 625;
    assert Five(8) == 390625;
    assert Five(12) == 244140625;
    assert Five(16) == 152587890625;
    assert Five(20) == 95367431640625;
  }

  /** No power of five has exactly 53 bits. */
  lemma FiveHasNot53Bits(n: nat)
    ensures Five(n) < 0x10_0000_0000_0000 || 0x20_0000_0000_0000 < Five(n)
  {
    FiveTo22();
    if n <= 22 {
      FiveGrows(n, 22);
    } else {
      FiveGrows(23, n);
    }
  }

  /** The odd part and the power of two of a number are determined by it. */
  lemma {:induction false} OddParts(s: int, t: int, e: nat, p: nat)
    requires s % 2 == 1 && t % 2 == 1 && s * Pow2(e) == t * Pow2(p)
    ensures s == t && e == p
  {
    if e > 0 && p > 0 {
      HalfProduct(s, e);
      HalfProduct(t, p);
      OddParts(s, t, e - 1, p - 1);
    } else if e > 0 {
      HalfProduct(s, e);
    } else if p > 0 {
      HalfProduct(t, p);
    }
  }

  lemma HalfProduct(s: int, e: nat)
    requires e > 0
    ensures s * Pow2(e) == 2 * (s * Pow2(e - 1))
  {
  }

  lemma {:induction false} TwoNotFive(n: nat)
    ensures Pow2(n) % 5 != 0
  {
    if n > 0 { TwoNotFive(n - 1); }
  }

  /** The equation v = 10^power, on integers. */
  lemma IntegerEquation(significand: int, exponent: int, power: int)
    requires Number(significand, exponent) == Ten(power)
    ensures (significand * Pow2(Up(exponent))) * Pow10(Up(-power)) == Pow10(Up(power)) * Pow2(Up(-exponent))
  {
    hide Two, Ten, Pow2, Pow10, Up;
    TwoSplit(exponent);
    TenSplit(power);
    var s, a, b := significand as real, Pow2(Up(exponent)) as real, Pow2(Up(-exponent)) as real;
    var c, d := Pow10(Up(power)) as real, Pow10(Up(-power)) as real;
    Cleared(s, Two(exponent), Ten(power), a, b, c, d);
    IntProduct(significand, Pow2(Up(exponent)));
    IntProduct(significand * Pow2(Up(exponent)), Pow10(Up(-power)));
    IntProduct(Pow10(Up(power)), Pow2(Up(-exponent)));
  }

  lemma Cleared(s: real, two: real, ten: real, a: real, b: real, c: real, d: real)
    requires s * two == ten && two * b == a && ten * d == c
    ensures (s * a) * d == c * b
  {
    RAssoc(s, two, b);
    RAssoc(ten, b, d);
    RCommute(b, d);
    RAssoc(ten, d, b);
  }

  /** An odd multiple of a power of two that is a power of ten is a multiple by a power of five. */
  lemma OddPowerOfTen(significand: int, exponent: int, power: int)
    requires significand % 2 == 1 && Number(significand, exponent) == Ten(power)
    ensures power >= 0 && exponent == power && significand == Five(power)
  {
    hide Pow2, Pow10, Ten, Number, Five;
    IntegerEquation(significand, exponent, power);
    PowZero();
    if power >= 0 {
      TenIsFiveTimesTwo(power);
      Pow2Add(power, Up(-exponent));
      ProductOfThree(Five(power), Pow2(power), Pow2(Up(-exponent)));
      OddParts(significand, Five(power), Up(exponent), power + Up(-exponent));
    } else {
      DivisibleByFive(significand * Pow2(Up(exponent)), -power);
      TwoNotFive(Up(-exponent));
      assert false;
    }
  }

  /** So a double that is a power of ten has an even significand. */
  lemma OddIsNotPowerOfTen(significand: int, exponent: int, power: int)
    requires IsDouble(significand, exponent) && significand % 2 == 1
    ensures Number(significand, exponent) != Ten(power)
  {
    hide Ten, Number, Five;
    if Number(significand, exponent) == Ten(power) {
      OddPowerOfTen(significand, exponent, power);
      FiveHasNot53Bits(power);
      assert false;
    }
  }

  lemma FiveTimesModFour(x: int)
    requires x % 4 == 1
    ensures (5 * x) % 4 == 1
  {
    var q := x / 4;
    assert 5 * x == 4 * (5 * q + 1) + 1;
  }

  lemma {:induction false} FiveModFour(n: nat)
    ensures Five(n) % 4 == 1
  {
    if n > 0 {
      FiveModFour(n - 1);
      FiveTimesModFour(Five(n - 1));
    }
  }

  /** The boundary above an odd significand is 3 modulo 4 times a power of two, and no power of five is that. */
  lemma OddBoundaryIsNotPowerOfTen(significand: int, exponent: int, power: int)
    requires significand % 2 == 1
    ensures UpperBoundary(significand, exponent) != Ten(power)
  {
    hide Ten, Five;
    BoundaryAsNumber(significand, exponent);
    if UpperBoundary(significand, exponent) == Ten(power) {
      OddPowerOfTen(2 * significand + 1, exponent - 1, power);
      FiveModFour(power);
      assert false;
    }
  }

  lemma BoundaryAsNumber(significand: int, exponent: int)
    ensures UpperBoundary(significand, exponent) == Number(2 * significand + 1, exponent - 1)
  {
    TwoAdd(exponent - 1, 1);
    var t := Two(exponent - 1);
    assert Two(exponent) == 2.0 * t;
    RDistribute(2.0 * (significand as real), 1.0, t);
    RAssoc(significand as real, 2.0, t);
  }

  lemma PowZero()
    ensures Pow2(0) == 1 && Pow10(0) == 1
  {
  }

  lemma DivisibleByFive(x: int, n: nat)
    requires n > 0
    ensures (x * Pow10(n)) % 5 == 0
  {
    hide Pow10;
    PlaceAbove(x, n - 1);
  }
}
