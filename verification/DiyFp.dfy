/**
  A floating-point number with a 64-bit significand: subtraction, the rounded
  product, and normalisation.
 */
module DiyFpModel {
  import opened Positional
  import opened DigitLoops
  import opened MachineWords
  import opened RealPowers

  /** The value of a significand and an exponent. */
  ghost function ValueOf(f: int, e: int): real {
    (f as real) * Two(e)
  }

  /** x * y / 2^64 rounded half up. */
  ghost function RoundedProduct(x: int, y: int): int {
    (x * y + TWO63) / TWO64
  }

  class DiyFp {
    var f: int
    var e: int

    ghost predicate Valid()
      reads this
    {
      0 <= f < TWO64
    }

    constructor (f: int, e: int)
      ensures this.f == f && this.e == e
    {
      this.f, this.e := f, e;
    }

    method Subtract(other: DiyFp)
      requires Valid() && other.Valid() && e == other.e && f >= other.f
      modifies this
      ensures Valid() && e == old(e) && f == old(f) - old(other.f)
    {
      f := f - other.f;
    }

    /** Emulates a 128-bit product from four 64-bit ones and keeps its upper half, rounded. */
    method Multiply(other: DiyFp)
      requires Valid() && other.Valid()
      modifies this
      ensures Valid() && f == RoundedProduct(old(f), old(other.f)) && e == old(e) + old(other.e) + 64
    {
      FourProducts(f, other.f);
      var a, b := f / TWO32, f % TWO32;
      var c, d := other.f / TWO32, other.f % TWO32;
      var result := CombineProducts(a * c, b * c, a * d, b * d);
      e := e + other.e + 64;
      f := result;
    }

    /** Shifts left until the top bit is set, first ten bits at a time. */
    method Normalize()
      requires Valid() && f != 0
      modifies this
      ensures Valid() && TWO63 <= f && e <= old(e) && f == old(f) * Pow2(old(e) - e)
      ensures ValueOf(f, e) == old(ValueOf(f, e))
    {
      hide Pow2, Two;
      var significand, exponent := f, e;
      assert Pow2(0) == 1 by { PowZeroIsOne(); }
      while significand < 0x40_0000_0000_0000
        invariant 0 < significand < TWO64 && exponent <= e && f == old(f) && e == old(e)
        invariant significand == f * Pow2(e - exponent)
        decreases TWO64 - significand
      {
        ShiftMore(f, e - exponent, 10);
        significand := significand * 1024;
        exponent := exponent - 10;
      }
      while significand < TWO63
        invariant 0 < significand < TWO64 && exponent <= e && f == old(f) && e == old(e)
        invariant significand == f * Pow2(e - exponent)
        decreases TWO64 - significand
      {
        ShiftMore(f, e - exponent, 1);
        significand := significand * 2;
        exponent := exponent - 1;
      }
      SameValue(f, e, exponent);
      f := significand;
      e := exponent;
    }
  }

  /** Sums the four partial products the way the upper half needs them. */
  method CombineProducts(ac: int, bc: int, ad: int, bd: int) returns (result: int)
    requires Part(ac) && Part(bc) && Part(ad) && Part(bd)
    requires var whole := ac * TWO64 + (ad + bc) * TWO32 + bd; (whole + TWO63) / TWO64 < TWO64
    ensures result == (ac * TWO64 + (ad + bc) * TWO32 + bd + TWO63) / TWO64
  {
    var tmp := bd / TWO32 + ad % TWO32 + bc % TWO32;
    tmp := tmp + TWO31;
    assert tmp < TWO64;
    result := ac + ad / TWO32 + bc / TWO32 + tmp / TWO32;
    QuotientIs(ac * TWO64 + (ad + bc) * TWO32 + bd + TWO63, TWO64, result, (tmp % TWO32) * TWO32 + bd % TWO32);
  }

  lemma FourProducts(f: int, g: int)
    requires 0 <= f < TWO64 && 0 <= g < TWO64
    ensures var a, b, c, d := f / TWO32, f % TWO32, g / TWO32, g % TWO32;
      && Part(a * c) && Part(b * c) && Part(a * d) && Part(b * d)
      && f * g == (a * c) * TWO64 + (a * d + b * c) * TWO32 + b * d
    ensures 0 <= RoundedProduct(f, g) <= TWO64 - 2
  {
    var a, b, c, d := f / TWO32, f % TWO32, g / TWO32, g % TWO32;
    PartTimes(a, c);
    PartTimes(b, c);
    PartTimes(a, d);
    PartTimes(b, d);
    CrossProducts(a, b, c, d, f, g);
    ProductNat(f, g);
    MulMonotone(f, TWO64 - 1, g);
  }

  lemma CrossProducts(a: int, b: int, c: int, d: int, f: int, g: int)
    requires f == a * TWO32 + b && g == c * TWO32 + d
    ensures f * g == (a * c) * TWO64 + (a * d + b * c) * TWO32 + b * d
  {
    assert f * g == (a * TWO32) * g + b * g;
    assert (a * TWO32) * g == TWO32 * (a * g);
    assert a * g == (a * c) * TWO32 + a * d;
    assert b * g == (b * c) * TWO32 + b * d;
  }

  lemma ShiftMore(f: int, n: nat, m: nat)
    requires m == 1 || m == 10
    ensures f * Pow2(n + m) == (f * Pow2(n)) * (if m == 1 then 2 else 1024)
  {
    hide Pow2;
    Pow2Add(n, m);
    assert Pow2(1) == 2 && Pow2(10) == 1024 by { Pow2Ten(); }
    var p, q := Pow2(n), Pow2(m);
    assert f * (p * q) == (f * p) * q;
  }

  lemma Pow2Ten()
    ensures Pow2(1) == 2 && Pow2(10) == 1024
  {
  }

  lemma SameValue(f: int, e: int, exponent: int)
    requires exponent <= e
    ensures ValueOf(f * Pow2(e - exponent), exponent) == ValueOf(f, e)
  {
    hide Pow2, Two;
    var p := Pow2(e - exponent);
    TwoAdd(exponent, e - exponent);
    IntProduct(f, p);
    RAssoc(f as real, p as real, Two(exponent));
    RCommute(p as real, Two(exponent));
  }

  method Minus(a: DiyFp, b: DiyFp) returns (result: DiyFp)
    requires a.Valid() && b.Valid() && a.e == b.e && a.f >= b.f
    ensures fresh(result) && result.Valid() && result.e == a.e && result.f == a.f - b.f
  {
    result := new DiyFp(a.f, a.e);
    result.Subtract(b);
  }

  method Times(a: DiyFp, b: DiyFp) returns (result: DiyFp)
    requires a.Valid() && b.Valid()
    ensures fresh(result) && result.Valid() && result.f == RoundedProduct(a.f, b.f) && result.e == a.e + b.e + 64
  {
    result := new DiyFp(a.f, a.e);
    result.Multiply(b);
  }

  /** The rounded product is within half a unit of the exact one. */
  lemma ProductError(x: int, y: int)
    ensures 2 * RoundedProduct(x, y) * TWO64 - TWO64 <= 2 * (x * y) < 2 * RoundedProduct(x, y) * TWO64 + TWO64
  {
    var p := x * y + TWO63;
    assert p == TWO64 * (p / TWO64) + p % TWO64;
  }
}
