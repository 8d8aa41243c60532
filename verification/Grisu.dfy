/**
  The fast conversion of a number: normalised, multiplied by a cached power of
  ten, and handed to the digit generators together with what is then known
  about its error.
 */
module Grisu {
  import opened Positional
  import opened DigitLoops
  import opened Powers
  import opened Decimal
  import opened RealPowers
  import opened Rounding
  import opened MachineWords
  import opened DigitFilling
  import opened Doubles
  import opened DiyFpModel
  import opened Weeding
  import opened FastDtoa
  import opened FastCounted
  import opened CachedPowers

  // ---------- Normalisation ----------

  /** Shifted left by k the significand fills 64 bits. */
  ghost predicate FillsWord(significand: int, k: nat) {
    TWO63 <= significand * Pow2(k) < TWO64
  }

  lemma ShiftUnique(x: int, j: nat, k: nat)
    requires FillsWord(x, j) && FillsWord(x, k)
    ensures j == k
  {
    hide Pow2;
    if j < k {
      ShiftDoubles(x, j, k);
    } else if k < j {
      ShiftDoubles(x, k, j);
    }
  }

  lemma ShiftDoubles(x: int, j: nat, k: nat)
    requires j < k && x * Pow2(j) > 0
    ensures x * Pow2(k) >= 2 * (x * Pow2(j))
  {
    hide Pow2;
    Pow2Add(j, k - j);
    Pow2Monotone(1, k - j);
    assert Pow2(1) == 2 by { PowOne(); }
    ProductOfThree(x, Pow2(j), Pow2(k - j));
    MulMonotone(2, Pow2(k - j), x * Pow2(j));
  }

  /** The double as a significand that fills 64 bits. */
  method AsNormalizedDiyFp(significand: nat, exponent: int) returns (w: DiyFp)
    requires 0 < significand < 0x20_0000_0000_0000
    ensures fresh(w) && w.Valid() && w.e <= exponent && w.f == significand * Pow2(exponent - w.e)
    ensures FillsWord(significand, exponent - w.e)
  {
    hide Pow2;
    var f, e := significand, exponent;
    assert Pow2(0) == 1 by { PowZeroIsOne(); }
    while f < 0x10_0000_0000_0000
      invariant 0 < f < 0x20_0000_0000_0000 && e <= exponent && f == significand * Pow2(exponent - e)
      decreases 0x20_0000_0000_0000 - f
    {
      ShiftMore(significand, exponent - e, 1);
      f := f * 2;
      e := e - 1;
    }
    ShiftMore(significand, exponent - e, 10);
    ShiftMore(significand, exponent - e + 10, 1);
    f := f * 2048;
    e := e - 11;
    w := new DiyFp(f, e);
  }

  /** The upper boundary fills the word at the same exponent as the number itself. */
  lemma UpperFills(significand: int, k: nat)
    requires 0 < significand < 0x20_0000_0000_0000 && FillsWord(significand, k)
    ensures k >= 11 && FillsWord(2 * significand + 1, k - 1)
    ensures (2 * significand + 1) * Pow2(k - 1) == significand * Pow2(k) + Pow2(k - 1)
  {
    hide Pow2;
    if k < 11 {
      Pow2Monotone(k, 10);
      assert Pow2(10) == 1024 by { Pow2Ten(); }
      MulMonotone(Pow2(k), 1024, significand);
    }
    ShiftMore(significand, k - 1, 1);
    var p := Pow2(k - 1);
    assert (2 * significand + 1) * p == 2 * (significand * p) + p;
    if k > 64 {
      Pow2Words();
      Pow2Monotone(64, k);
      MulMonotone(1, significand, Pow2(k));
    }
    BelowWord(significand, k);
  }

  lemma BelowWord(significand: int, k: nat)
    requires 1 <= k <= 64 && 0 < significand && significand * Pow2(k) < TWO64
    ensures significand * Pow2(k) + Pow2(k - 1) < TWO64
  {
    hide Pow2;
    var q := Pow2(64 - k);
    Pow2Add(64 - k, k);
    Pow2Words();
    if significand >= q { MulMonotone(q, significand, Pow2(k)); }
    MulMonotone(significand + 1, q, Pow2(k));
    Pow2Monotone(k - 1, k);
    assert (significand + 1) * Pow2(k) == significand * Pow2(k) + Pow2(k);
  }

  /** Both boundaries at the exponent of the normalised upper one. */
  method NormalizedBoundaries(significand: nat, exponent: int, closer: bool, ghost k: nat)
      returns (minus: DiyFp, plus: DiyFp)
    requires 0 < significand < 0x20_0000_0000_0000 && FillsWord(significand, k)
    ensures fresh(minus) && fresh(plus) && minus != plus && minus.Valid() && plus.Valid()
    ensures plus.e == minus.e == exponent - k && k >= 11
    ensures plus.f == significand * Pow2(k) + Pow2(k - 1)
    ensures minus.f == significand * Pow2(k) - Pow2(if closer then k - 2 else k - 1)
  {
    hide Pow2;
    UpperFills(significand, k);
    plus := new DiyFp(significand * 2 + 1, exponent - 1);
    plus.Normalize();
    ShiftUnique(2 * significand + 1, exponent - 1 - plus.e, k - 1);
    if closer {
      minus := new DiyFp(significand * 4 - 1, exponent - 2);
    } else {
      minus := new DiyFp(significand * 2 - 1, exponent - 1);
    }
    LowerFits(significand, k);
    minus.f := minus.f * Pow2(minus.e - plus.e);
    minus.e := plus.e;
  }

  lemma LowerFits(significand: int, k: nat)
    requires 0 < significand && FillsWord(significand, k) && k >= 11
    ensures (significand * 2 - 1) * Pow2(k - 1) == significand * Pow2(k) - Pow2(k - 1)
    ensures (significand * 4 - 1) * Pow2(k - 2) == significand * Pow2(k) - Pow2(k - 2)
    ensures 0 <= significand * Pow2(k) - Pow2(k - 1) && Pow2(k - 1) == 2 * Pow2(k - 2) && Pow2(k) == 4 * Pow2(k - 2)
  {
    hide Pow2;
    ShiftMore(significand, k - 1, 1);
    ShiftMore(significand, k - 2, 1);
    ShiftMore(1, k - 1, 1);
    ShiftMore(1, k - 2, 1);
    var p, q := Pow2(k - 1), Pow2(k - 2);
    assert (significand * 2 - 1) * p == 2 * (significand * p) - p;
    assert (significand * 4 - 1) * q == 4 * (significand * q) - q;
    MulMonotone(1, significand, Pow2(k));
  }

  // ---------- Scaling ----------

  /** The product of two errors of half a unit stays below one unit. */
  lemma ScaledIsNear(x: int, xe: int, f: int, e: int, mk: int, y: real)
    requires 0 <= x < TWO64 && CachedPower(f, e, mk) && y == ValueOf(x, xe) * Ten(mk)
    ensures Near(y, RoundedProduct(x, f), xe + e + 64)
  {
    hide Two, Ten, RoundedProduct;
    ProductErrorReal(x, f);
    UnitOfProduct(xe, e);
    NearReal(x as real, f as real, Two(xe), Two(e), Ten(mk), RoundedProduct(x, f), Two(xe + e + 64), y);
  }

  lemma ProductErrorReal(x: int, f: int)
    ensures Rounds(RoundedProduct(x, f), (x as real) * (f as real))
  {
    hide RoundedProduct;
    ProductError(x, f);
    IntProduct(x, f);
  }

  /** r is p / 2^64 rounded half up. */
  ghost predicate Rounds(r: int, p: real) {
    && 2.0 * (r as real) * 18446744073709551616.0 - 18446744073709551616.0 <= 2.0 * p
    && 2.0 * p < 2.0 * (r as real) * 18446744073709551616.0 + 18446744073709551616.0
  }

  lemma UnitOfProduct(xe: int, e: int)
    ensures Two(xe + e + 64) == 18446744073709551616.0 * (Two(xe) * Two(e))
  {
    hide Two, Pow2;
    TwoSum(xe, e);
    TwoAdd(xe + e, 64);
    Pow2Words();
  }

  lemma NearReal(x: real, f: real, s: real, u: real, ten: real, r: int, unit: real, y: real)
    requires 0.0 <= x < 18446744073709551616.0 && s > 0.0 && u > 0.0 && (f - 0.5) * u <= ten <= (f + 0.5) * u
    requires Rounds(r, x * f) && unit == 18446744073709551616.0 * (s * u) && y == (x * s) * ten
    ensures ((r - 1) as real) * unit < y < ((r + 1) as real) * unit
  {
    hide Rounds;
    ProductInterval(x, f, s, u, ten);
    RSign(s, u);
    NearIn(r, x * f, x, s * u);
    Enclosed(y, (x * f - x / 2.0) * (s * u), (x * f + x / 2.0) * (s * u), r, s * u, unit);
  }

  lemma Enclosed(y: real, below: real, above: real, r: int, t: real, unit: real)
    requires unit == 18446744073709551616.0 * t && below <= y <= above
    requires (((r - 1) as real) * 18446744073709551616.0) * t < below
    requires above < (((r + 1) as real) * 18446744073709551616.0) * t
    ensures ((r - 1) as real) * unit < y < ((r + 1) as real) * unit
  {
    RAssoc((r - 1) as real, 18446744073709551616.0, t);
    RAssoc((r + 1) as real, 18446744073709551616.0, t);
  }

  lemma ProductInterval(x: real, f: real, s: real, u: real, ten: real)
    requires x >= 0.0 && s > 0.0 && u > 0.0 && (f - 0.5) * u <= ten <= (f + 0.5) * u
    ensures (x * f - x / 2.0) * (s * u) <= (x * s) * ten <= (x * f + x / 2.0) * (s * u)
  {
    var y := x * s;
    RSignNat(x, s);
    RMonotoneWeak((f - 0.5) * u, ten, y);
    RMonotoneWeak(ten, (f + 0.5) * u, y);
    Rearranged(x, f, s, u, -0.5);
    Rearranged(x, f, s, u, 0.5);
  }

  lemma RMonotoneWeak(a: real, b: real, y: real)
    requires a <= b && y >= 0.0
    ensures y * a <= y * b
  {
  }

  lemma Rearranged(x: real, f: real, s: real, u: real, h: real)
    ensures (x * s) * ((f + h) * u) == (x * f + x * h) * (s * u)
  {
    RAssoc(x * s, f + h, u);
    RCommute(x * s, f + h);
    RAssoc(f + h, x, s);
    RCommute(f + h, x);
    RDistributeLeft(x, f, h);
    RAssoc(x * (f + h), s, u);
  }

  lemma RDistributeLeft(x: real, f: real, h: real)
    ensures x * (f + h) == x * f + x * h
  {
  }

  lemma NearIn(r: int, p: real, x: real, t: real)
    requires t > 0.0 && 0.0 <= x < 18446744073709551616.0 && Rounds(r, p)
    ensures (((r - 1) as real) * 18446744073709551616.0) * t < (p - x / 2.0) * t
    ensures (p + x / 2.0) * t < (((r + 1) as real) * 18446744073709551616.0) * t
  {
    RMonotone(((r - 1) as real) * 18446744073709551616.0, p - x / 2.0, t);
    RMonotone(p + x / 2.0, ((r + 1) as real) * 18446744073709551616.0, t);
  }

  lemma RoundedMonotone(x: int, y: int, f: int)
    requires x <= y && f >= 0
    ensures RoundedProduct(x, f) <= RoundedProduct(y, f)
  {
    MulMonotone(x, y, f);
    ProductError(x, f);
    ProductError(y, f);
  }

  /** The scaled numbers are as far apart as the digit generator needs. */
  lemma ScaledApart(minus: int, w: int, plus: int, f: int, e: int, p: int)
    requires TWO63 <= f < TWO64 && -60 <= e <= -32
    requires 0 <= minus <= w <= plus < TWO64 && TWO63 <= plus && plus - minus == p
    requires 1536 <= p && plus <= 0x20_0000_0000_0000 * p && minus >= 1024
    ensures var low, mid, high := RoundedProduct(minus, f), RoundedProduct(w, f), RoundedProduct(plus, f);
      Usable(low, mid, high, e) && high + 1 <= (high - low + 2) * 0x20_0000_0000_0000
  {
    hide RoundedProduct;
    RoundedMonotone(minus, w, f);
    RoundedMonotone(w, plus, f);
    ProductError(minus, f);
    ProductError(plus, f);
    RoundedRange(plus, f);
    MulMonotone(TWO63, plus, f);
    MulMonotone(1024, minus, f);
    assert plus * f == minus * f + p * f;
    MulMonotone(1536, p, f);
    MulMonotone(plus, 0x20_0000_0000_0000 * p, f);
    assert (0x20_0000_0000_0000 * p) * f == 0x20_0000_0000_0000 * (p * f);
  }

  lemma RoundedRange(x: int, f: int)
    requires 0 <= x < TWO64 && 0 <= f < TWO64
    ensures 0 <= RoundedProduct(x, f) <= TWO64 - 2
  {
    FourProducts(x, f);
  }

  // ---------- The number and its boundaries ----------

  lemma BoundaryValues(significand: int, exponent: int, closer: bool, k: nat)
    requires k >= 2
    ensures ValueOf(significand * Pow2(k), exponent - k) == Number(significand, exponent)
    ensures ValueOf(significand * Pow2(k) + Pow2(k - 1), exponent - k) == UpperBoundary(significand, exponent)
    ensures ValueOf(significand * Pow2(k) - Pow2(if closer then k - 2 else k - 1), exponent - k)
         == LowerBoundary(significand, exponent, closer)
  {
    hide Two, Pow2;
    var t := Two(exponent - k);
    SameValue(significand, exponent, exponent - k);
    PartOfUnit(exponent, k, 0);
    PartOfUnit(exponent, k, 1);
    PartOfUnit(exponent, k, 2);
    RDistribute((significand * Pow2(k)) as real, Pow2(k - 1) as real, t);
    RDistribute((significand * Pow2(k)) as real, Pow2(k - 2) as real, t);
  }

  lemma PartOfUnit(exponent: int, k: nat, j: nat)
    requires j <= 2 <= k
    ensures (Pow2(k - j) as real) * Two(exponent - k)
         == (if j == 0 then Two(exponent) else if j == 1 then Two(exponent) / 2.0 else Two(exponent) / 4.0)
  {
    hide Two, Pow2;
    TwoAdd(exponent - k, k - j);
    RCommute(Two(exponent - k), Pow2(k - j) as real);
    TwoStep(exponent - 1);
    TwoStep(exponent - 2);
  }

  lemma DecimalScaled(u: int, x: int, mk: int)
    ensures Decimal10(u, x - mk) * Ten(mk) == Decimal10(u, x)
  {
    hide Ten;
    TenSum(x - mk, mk);
    RAssoc(u as real, Ten(x - mk), Ten(mk));
  }

  lemma BetweenTimes(lo: real, hi: real, d: real, t: real, lo': real, hi': real, d': real)
    requires t > 0.0 && lo' == lo * t && hi' == hi * t && d' == d * t
    ensures Between(lo, hi, true, d) <==> Between(lo', hi', true, d')
    ensures Between(lo, hi, false, d) <==> Between(lo', hi', false, d')
  {
    RMonotone(lo, d, t);
    RMonotone(d, hi, t);
  }

  lemma CloserTimes(d: real, c: real, v: real, t: real, d': real, c': real, v': real)
    requires t > 0.0 && d' == d * t && c' == c * t && v' == v * t
    ensures Abs(d' - v') < Abs(c' - v') ==> Abs(d - v) < Abs(c - v)
  {
    AbsTimes(d, v, t, d', v');
    AbsTimes(c, v, t, c', v');
    RMonotone(Abs(d - v), Abs(c - v), t);
  }

  lemma AbsTimes(d: real, v: real, t: real, d': real, v': real)
    requires t > 0.0 && d' == d * t && v' == v * t
    ensures Abs(d - v) * t == Abs(d' - v')
  {
    RDistribute(d, v, t);
    RDistribute(v, d, t);
    RMonotone(d, v, t);
  }

  /** Dividing by a power of ten moves the digits and keeps everything else. */
  lemma Rescaled(v: real, lo: real, hi: real, v': real, lo': real, hi': real, w: int, kappa: int, mk: int)
    requires v' == v * Ten(mk) && lo' == lo * Ten(mk) && hi' == hi * Ten(mk)
    requires StrictlyShortest(v', lo', hi', w, kappa)
    ensures StrictlyShortest(v, lo, hi, w, kappa - mk)
  {
    hide Ten, Decimal10, Between, Abs;
    var t, x := Ten(mk), kappa - mk;
    DecimalScaled(w, kappa, mk);
    BetweenTimes(lo, hi, Decimal10(w, x), t, lo', hi', Decimal10(w, kappa));
    StrictBetween(lo, hi, Decimal10(w, x));
    StrictBetween(lo', hi', Decimal10(w, kappa));
    forall u: int, y: int | u >= 1 && y > x
      ensures !Between(lo, hi, true, Decimal10(u, y))
    {
      DecimalScaled(u, y + mk, mk);
      BetweenTimes(lo, hi, Decimal10(u, y), t, lo', hi', Decimal10(u, y + mk));
    }
    forall u: int | u != w && Between(lo, hi, true, Decimal10(u, x))
      ensures Abs(Decimal10(w, x) - v) < Abs(Decimal10(u, x) - v)
    {
      DecimalScaled(u, kappa, mk);
      BetweenTimes(lo, hi, Decimal10(u, x), t, lo', hi', Decimal10(u, kappa));
      CloserTimes(Decimal10(w, x), Decimal10(u, x), v, t, Decimal10(w, kappa), Decimal10(u, kappa), v');
    }
  }

  lemma StrictBetween(lo: real, hi: real, d: real)
    ensures Between(lo, hi, false, d) <==> lo < d < hi
  {
  }

  // ---------- Shortest ----------

  /** The cached power brings the exponent of the product into the generator's range. */
  ghost predicate OnTarget(exponent: int, k: nat, powerExponent: int) {
    -60 <= (exponent - k) + powerExponent + 64 <= -32
  }

  lemma WordShift(significand: int, k: nat)
    requires 0 < significand < 0x20_0000_0000_0000 && FillsWord(significand, k)
    ensures 11 <= k <= 63
  {
    hide Pow2;
    UpperFills(significand, k);
    if k >= 64 {
      Pow2Words();
      Pow2Monotone(64, k);
      MulMonotone(1, significand, Pow2(k));
    }
  }

  /** The cached power that brings a normalised number into the range of the digit generators. */
  method CachedFor(w: DiyFp) returns (tenMk: DiyFp, mk: int)
    requires -1137 <= w.e <= 960
    ensures fresh(tenMk) && CachedPower(tenMk.f, tenMk.e, mk) && -60 <= w.e + tenMk.e + 64 <= -32
  {
    tenMk, mk := GetCachedPowerForBinaryExponentRange(-60 - (w.e + 64), -32 - (w.e + 64));
  }

  /** The number and its boundaries, multiplied by the cached power. */
  method ScaleAll(significand: nat, exponent: int, closer: bool, w: DiyFp, tenMk: DiyFp, mk: int, ghost k: nat,
                  ghost lo: real, ghost v: real, ghost hi: real)
      returns (scaledMinus: DiyFp, scaledW: DiyFp, scaledPlus: DiyFp)
    requires 0 < significand < 0x20_0000_0000_0000 && (closer ==> significand <= 0x10_0000_0000_0000)
    requires FillsWord(significand, k) && w.e == exponent - k && w.f == significand * Pow2(k)
    requires OnTarget(exponent, k, tenMk.e) && CachedPower(tenMk.f, tenMk.e, mk)
    requires lo == LowerBoundary(significand, exponent, closer) * Ten(mk)
    requires v == Number(significand, exponent) * Ten(mk) && hi == UpperBoundary(significand, exponent) * Ten(mk)
    ensures scaledMinus.e == scaledW.e == scaledPlus.e && Usable(scaledMinus.f, scaledW.f, scaledPlus.f, scaledW.e)
    ensures scaledPlus.f + 1 <= (scaledPlus.f - scaledMinus.f + 2) * 0x20_0000_0000_0000
    ensures Near(lo, scaledMinus.f, scaledW.e) && Near(v, scaledW.f, scaledW.e) && Near(hi, scaledPlus.f, scaledW.e)
  {
    hide Two, Ten, Pow2, Near, RoundedProduct, CachedPower, Usable, Number, UpperBoundary, LowerBoundary, ValueOf;
    var minus, plus := NormalizedBoundaries(significand, exponent, closer, k);
    BoundaryValues(significand, exponent, closer, k);
    CachedRange(tenMk.f, tenMk.e, mk);
    ScaledIsNear(minus.f, minus.e, tenMk.f, tenMk.e, mk, lo);
    ScaledIsNear(w.f, w.e, tenMk.f, tenMk.e, mk, v);
    ScaledIsNear(plus.f, plus.e, tenMk.f, tenMk.e, mk, hi);
    BoundaryGap(significand, closer, k);
    ScaledApart(minus.f, w.f, plus.f, tenMk.f, w.e + tenMk.e + 64, plus.f - minus.f);
    scaledW := Times(w, tenMk);
    scaledMinus := Times(minus, tenMk);
    scaledPlus := Times(plus, tenMk);
  }

  /** The shortest digits of v = significand * 2^exponent, or failure. */
  /**
    Number and boundaries times 10^mk, in units of 2^e, each less than a unit
    off; where no boundaries are asked for all three are the number.
   */
  datatype Scaled = Scaled(low: int, w: int, high: int, e: int, mk: int)

  ghost function Shifted(x: real, k: int): real {
    x * Ten(k)
  }

  ghost predicate Approximates(s: Scaled, lo: real, v: real, hi: real) {
    Near(lo, s.low, s.e) && Near(v, s.w, s.e) && Near(hi, s.high, s.e)
  }

  lemma IsApproximated(s: Scaled, lo: real, v: real, hi: real)
    requires Near(lo, s.low, s.e) && Near(v, s.w, s.e) && Near(hi, s.high, s.e)
    ensures Approximates(s, lo, v, hi)
  {
  }

  /**
    Gives the shortest digits, or gives up: exactly when, at the largest exponent
    that has a decimal between the scaled boundaries, no decimal can be trusted.
   */
  method Grisu3(significand: nat, exponent: int, closer: bool, buffer: array<int>)
      returns (ok: bool, length: nat, decimalExponent: int, ghost s: Scaled)
    requires 0 < significand < 0x20_0000_0000_0000 && (closer ==> significand <= 0x10_0000_0000_0000)
    requires -1074 <= exponent <= 971
    requires buffer.Length >= 17
    modifies buffer
    ensures length <= buffer.Length && IsDecimal(buffer[..length])
    ensures ok ==> 1 <= length && buffer[0] != ZERO
    ensures ok ==> StrictlyShortest(Number(significand, exponent), LowerBoundary(significand, exponent, closer),
                                    UpperBoundary(significand, exponent), Dec(buffer[..length]), decimalExponent)
    ensures Approximates(s, Shifted(LowerBoundary(significand, exponent, closer), s.mk),
                         Shifted(Number(significand, exponent), s.mk), Shifted(UpperBoundary(significand, exponent), s.mk))
    ensures ok <==> Agreed(s.low, s.w, s.high, s.e, decimalExponent + s.mk)
    ensures Coarsest(Units(s.low - 1, s.e), Units(s.high + 1, s.e), decimalExponent + s.mk)
  {
    hide Two, Ten, Pow2, Pow10, Dec, Near, StrictlyShortest, CachedPower, Number, UpperBoundary, LowerBoundary, FillsWord,
      Approximates, Agreed, Coarsest, Units;
    var w := AsNormalizedDiyFp(significand, exponent);
    ghost var k := exponent - w.e;
    WordShift(significand, k);
    var tenMk, mk := CachedFor(w);
    ghost var v, lo, hi := Number(significand, exponent), LowerBoundary(significand, exponent, closer),
      UpperBoundary(significand, exponent);
    ghost var v', lo', hi' := Shifted(v, mk), Shifted(lo, mk), Shifted(hi, mk);
    var scaledMinus, scaledW, scaledPlus := ScaleAll(significand, exponent, closer, w, tenMk, mk, k, lo', v', hi');
    s := Scaled(scaledMinus.f, scaledW.f, scaledPlus.f, scaledW.e, mk);
    IsApproximated(s, lo', v', hi');
    SeventeenDigits(scaledPlus.f + 1, scaledPlus.f - scaledMinus.f + 2, buffer.Length);
    var kappa;
    ok, length, kappa := DigitGen(scaledMinus, scaledW, scaledPlus, buffer, lo', v', hi');
    decimalExponent := -mk + kappa;
    if ok {
      Rescaled(v, lo, hi, v', lo', hi', Dec(buffer[..length]), kappa, mk);
      LowerBoundaryPositive(significand, exponent, closer);
      OneDigit(v, lo, hi, buffer[..length], decimalExponent);
    }
  }

  /** A single digit above the lower boundary is not zero. */
  lemma OneDigit(v: real, lo: real, hi: real, digits: seq<int>, x: int)
    requires 0.0 < lo && StrictlyShortest(v, lo, hi, Dec(digits), x) && IsDecimal(digits)
    ensures |digits| == 1 ==> digits[0] != ZERO
  {
    hide Ten;
    PositiveDigits(Dec(digits), x);
  }

  lemma CachedRange(f: int, e: int, mk: int)
    requires CachedPower(f, e, mk)
    ensures TWO63 <= f < TWO64
  {
  }

  lemma BoundaryGap(significand: int, closer: bool, k: nat)
    requires 0 < significand < 0x20_0000_0000_0000 && (closer ==> significand <= 0x10_0000_0000_0000)
    requires FillsWord(significand, k) && k >= 11
    ensures var plus, w, minus := significand * Pow2(k) + Pow2(k - 1), significand * Pow2(k),
              significand * Pow2(k) - Pow2(if closer then k - 2 else k - 1);
      && TWO63 <= plus && 1024 <= minus <= w <= plus && 1536 <= plus - minus
      && plus <= 0x20_0000_0000_0000 * (plus - minus)
  {
    hide Pow2;
    LowerFits(significand, k);
    Pow2Monotone(9, k - 2);
    assert Pow2(9) == 512 by { TwoTable(); }
    var q := Pow2(k - 2);
    assert significand * (4 * q) == 4 * (significand * q);
    MulMonotone(1, significand, q);
    if closer {
      MulMonotone(significand, 0x10_0000_0000_0000, q);
    } else {
      MulMonotone(significand, 0x20_0000_0000_0000 - 1, q);
    }
  }

  lemma SeventeenDigits(T: int, U: int, size: nat)
    requires T <= U * 0x20_0000_0000_0000 && size >= 17 && U >= 0
    ensures T <= U * Pow10(size - 1)
  {
    hide Pow10;
    SmallPowers();
    Pow10Add(14, 2);
    TenTable();
    Pow10Grows(16, size - 1);
    MulMonotone(0x20_0000_0000_0000, Pow10(size - 1), U);
    assert U * Pow10(size - 1) == Pow10(size - 1) * U;
  }

  // ---------- Counted ----------

  /** Dividing by a power of ten moves the point. */
  lemma RescaledRounding(v: real, v': real, n: int, digits: seq<int>, point: int, mk: int)
    requires v' == v * Ten(mk) && RoundedTo(v', n, digits, point)
    ensures RoundedTo(v, n + mk, digits, point - mk)
  {
    hide Ten, Dec, Decimal10;
    TenSum(mk, n);
    RAssoc(v, Ten(mk), Ten(n));
    SameHalfUp(v', n, v, n + mk);
    var x, h := point - |digits|, HalfUp(v', n);
    DecimalScaled(Dec(digits), x, mk);
    DecimalScaled(h, -n, mk);
    RCancel(Decimal10(Dec(digits), x - mk), Decimal10(h, -n - mk), Ten(mk));
  }

  lemma SameHalfUp(v: real, n: int, v': real, n': int)
    requires v * Ten(n) == v' * Ten(n')
    ensures HalfUp(v, n) == HalfUp(v', n')
  {
    hide Ten;
  }

  /** `requested` digits of v, rounded half up, or failure; 10^(top - 1) <= v < 10^top. */
  /** Gives the counted digits, or gives up: exactly when the scaled number is cut too early or leaves a doubt. */
  method Grisu3Counted(significand: nat, exponent: int, requested: nat, buffer: array<int>, ghost top: int)
      returns (ok: bool, length: nat, decimalExponent: int, ghost s: Scaled, ghost c: Cut)
    requires 0 < significand < 0x20_0000_0000_0000 && -1074 <= exponent <= 971 && 1 <= requested <= buffer.Length
    requires Ten(top - 1) <= Number(significand, exponent) < Ten(top)
    modifies buffer
    ensures ok ==> length == requested && buffer[0] != ZERO
    ensures ok ==> RoundedTo(Number(significand, exponent), requested - top, buffer[..length], length + decimalExponent)
    ensures Near(Shifted(Number(significand, exponent), s.mk), s.w, s.e)
    ensures IsCut(c, s.w, s.e, requested) && (ok <==> Enough(c, requested))
  {
    hide Two, Ten, Pow2, Near, RoundedProduct, CachedPower, Number, ValueOf, RoundedTo, IsCut, Enough;
    var w := AsNormalizedDiyFp(significand, exponent);
    ghost var k := exponent - w.e;
    WordShift(significand, k);
    var tenMk, mk := CachedFor(w);
    ghost var v := Number(significand, exponent);
    ghost var v' := Shifted(v, mk);
    UpperFills(significand, k);
    BoundaryValues(significand, exponent, false, k);
    CachedRange(tenMk.f, tenMk.e, mk);
    ScaledIsNear(w.f, w.e, tenMk.f, tenMk.e, mk, v');
    RoundedRange(w.f, tenMk.f);
    HighEnough(w.f, tenMk.f);
    ScaledPlace(v, v', top, mk);
    var scaledW := Times(w, tenMk);
    var kappa;
    s := Scaled(scaledW.f, scaledW.f, scaledW.f, scaledW.e, mk);
    ok, length, kappa, c := DigitGenCounted(scaledW, requested, buffer, v', top + mk);
    decimalExponent := -mk + kappa;
    if ok {
      RescaledRounding(v, v', requested - (top + mk), buffer[..length], length + kappa, mk);
    }
  }

  lemma HighEnough(x: int, f: int)
    requires TWO63 <= x && TWO63 <= f
    ensures RoundedProduct(x, f) >= 0x4000_0000_0000_0000
  {
    MulMonotone(TWO63, x, f);
    ProductError(x, f);
  }

  lemma ScaledPlace(v: real, v': real, top: int, mk: int)
    requires Ten(top - 1) <= v < Ten(top) && v' == v * Ten(mk)
    ensures Ten(top + mk - 1) <= v' < Ten(top + mk)
  {
    hide Ten;
    TenSum(top - 1, mk);
    TenSum(top, mk);
    RMonotone(Ten(top - 1), v, Ten(mk));
    RMonotone(v, Ten(top), Ten(mk));
  }
}
