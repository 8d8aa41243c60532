/**
  The shortest decimal of v = significand * 2^exponent, exactly: start values,
  the correction of the estimated power, and digit generation.
 */
module BignumShortest {
  import opened Positional
  import opened DigitLoops
  import opened BignumModel
  import opened Decimal
  import opened BignumDtoa
  import opened StartValues
  import opened RealPowers
  import opened Doubles
  import opened ShortestDecimal

  /** 2^exponent / 10^power as the ratio the start values use. */
  lemma OverUnderRatio(e: int, p: int)
    ensures Two(e) * (Under(e, p) as real) == (Over(e, p) as real) * Ten(p)
  {
    hide Two, Ten, Pow2, Pow10;
    var a, b, c, d := Pow2(Up(-e)) as real, Pow10(Up(p)) as real, Pow2(Up(e)) as real, Pow10(Up(-p)) as real;
    TwoSplit(e);
    TenSplit(p);
    IntProduct(Pow2(Up(-e)), Pow10(Up(p)));
    IntProduct(Pow2(Up(e)), Pow10(Up(-p)));
    RAssoc(Two(e), a, b);
    RAssoc(c, d, Ten(p));
    RCommute(d, Ten(p));
  }

  /** What the start values are, deltas included. */
  ghost predicate Prepared(significand: int, exponent: int, power: int, closer: bool,
                           num: int, den: int, dm: int, dp: int)
  {
    var c := if closer then 4 else 2;
    && num == c * (significand * Over(exponent, power)) && den == c * Under(exponent, power)
    && dm == Over(exponent, power) && dp == if closer then 2 * Over(exponent, power) else Over(exponent, power)
  }

  lemma PreparedRepresents(significand: int, exponent: int, power: int, closer: bool,
                           num: int, den: int, dm: int, dp: int)
    requires Prepared(significand, exponent, power, closer, num, den, dm, dp)
    ensures Represents(num, den, dm, dp, power, Number(significand, exponent),
                       LowerBoundary(significand, exponent, closer), UpperBoundary(significand, exponent))
  {
    hide Two, Ten, Over, Under;
    OverUnderRatio(exponent, power);
    var t, o, u, f := Two(exponent), Over(exponent, power), Under(exponent, power), Ten(power);
    var c := if closer then 4 else 2;
    PartOfRatio(significand, c, t, o, u, f);
    UnitOfRatio(c, t, o, u, f);
  }

  lemma PartOfRatio(s: int, c: int, t: real, o: int, u: int, f: real)
    requires t * (u as real) == (o as real) * f
    ensures ((s as real) * t) * ((c * u) as real) == ((c * (s * o)) as real) * f
  {
    var s', c', o', u' := s as real, c as real, o as real, u as real;
    IntProduct(c, u);
    IntProduct(s, o);
    IntProduct(c, s * o);
    RAssoc(s' * t, c', u');
    RCommute(s' * t, c');
    RAssoc(c', s' * t, u');
    RAssoc(s', t, u');
    RAssoc(s', o', f);
    RAssoc(c', s' * o', f);
  }

  /** A unit is c times as large a part as its c-th. */
  lemma UnitOfRatio(c: int, t: real, o: int, u: int, f: real)
    requires c == 2 || c == 4
    requires t * (u as real) == (o as real) * f
    ensures (t / (c as real)) * ((c * u) as real) == (o as real) * f
    ensures c == 4 ==> (t / 2.0) * ((c * u) as real) == ((2 * o) as real) * f
  {
    IntProduct(c, u);
    RAssoc(t / (c as real), c as real, u as real);
    if c == 4 {
      RAssoc(t / 2.0, 4.0, u as real);
      RAssoc(2.0, o as real, f);
      RAssoc(2.0, t, u as real);
    }
  }

  // ---------- Setting up ----------

  /** The start values without deltas, used when digits are counted. */
  method InitialScaledRatio(significand: nat, exponent: int, power: int,
                            numerator: Bignum, denominator: Bignum, deltaMinus: Bignum, deltaPlus: Bignum)
    requires AllValid(numerator, denominator, deltaMinus, deltaPlus) && InReach(significand, exponent, power)
    requires exponent >= 0 ==> power >= 0
    modifies numerator, numerator.bigits, denominator, denominator.bigits
    modifies deltaMinus, deltaMinus.bigits, deltaPlus, deltaPlus.bigits
    ensures AllValid(numerator, denominator, deltaMinus, deltaPlus)
    ensures Started(significand, exponent, power, false,
                    numerator.Value(), denominator.Value(), deltaMinus.Value(), deltaPlus.Value())
    ensures deltaMinus.Value() == old(deltaMinus.Value()) && deltaPlus.Value() == old(deltaPlus.Value())
  {
    hide Started, Bignum.Valid, Bignum.Raw, Bignum.Value;
    StartAnyExponent(significand, exponent, power, false, numerator, denominator, deltaMinus, deltaPlus);
  }

  method StartAnyExponent(significand: nat, exponent: int, power: int, deltas: bool,
                          numerator: Bignum, denominator: Bignum, deltaMinus: Bignum, deltaPlus: Bignum)
    requires AllValid(numerator, denominator, deltaMinus, deltaPlus) && InReach(significand, exponent, power)
    requires exponent >= 0 ==> power >= 0
    modifies numerator, numerator.bigits, denominator, denominator.bigits
    modifies deltaMinus, deltaMinus.bigits, deltaPlus, deltaPlus.bigits
    ensures AllValid(numerator, denominator, deltaMinus, deltaPlus)
    ensures Started(significand, exponent, power, deltas,
                    numerator.Value(), denominator.Value(), deltaMinus.Value(), deltaPlus.Value())
    ensures !deltas ==> deltaMinus.Value() == old(deltaMinus.Value()) && deltaPlus.Value() == old(deltaPlus.Value())
  {
    hide Started, AllValid, Bignum.Valid, Bignum.Raw, Bignum.Value;
    if exponent >= 0 {
      StartPositiveExponent(significand, exponent, power, deltas, numerator, denominator, deltaMinus, deltaPlus);
    } else if power >= 0 {
      StartNegativeExponentPositivePower(significand, exponent, power, deltas,
                                         numerator, denominator, deltaMinus, deltaPlus);
    } else {
      StartNegativeExponentNegativePower(significand, exponent, power, deltas,
                                         numerator, denominator, deltaMinus, deltaPlus);
    }
  }

  /** The start values with deltas; the lower one is halved when the lower neighbour is closer. */
  method InitialScaledStartValues(significand: nat, exponent: int, closer: bool, power: int,
                                  numerator: Bignum, denominator: Bignum, deltaMinus: Bignum, deltaPlus: Bignum)
    requires AllValid(numerator, denominator, deltaMinus, deltaPlus) && InReach(significand, exponent, power)
    requires exponent >= 0 ==> power >= 0
    modifies numerator, numerator.bigits, denominator, denominator.bigits
    modifies deltaMinus, deltaMinus.bigits, deltaPlus, deltaPlus.bigits
    ensures AllValid(numerator, denominator, deltaMinus, deltaPlus)
    ensures Prepared(significand, exponent, power, closer,
                     numerator.Value(), denominator.Value(), deltaMinus.Value(), deltaPlus.Value())
  {
    hide V, Scale, Over, Under, Started, Prepared, Bignum.Valid, Bignum.Raw, Bignum.Value;
    StartAnyExponent(significand, exponent, power, true, numerator, denominator, deltaMinus, deltaPlus);
    StartedFits(significand, exponent, power, numerator.Value(), denominator.Value(),
                deltaMinus.Value(), deltaPlus.Value());
    IsPrepared(significand, exponent, power, numerator.Value(), denominator.Value(),
               deltaMinus.Value(), deltaPlus.Value());
    if closer {
      DoubleRatio(denominator, numerator);
      Double(deltaPlus);
    }
  }

  lemma StartedFits(significand: int, exponent: int, power: int, num: int, den: int, dm: int, dp: int)
    requires InReach(significand, exponent, power) && Started(significand, exponent, power, true, num, den, dm, dp)
    ensures num < Scale(1, 127) && den < Scale(1, 127) && dp < Scale(1, 127)
  {
    hide Over, Under, Scale;
    ValuesFit(significand, exponent, power);
  }

  lemma IsPrepared(significand: int, exponent: int, power: int, num: int, den: int, dm: int, dp: int)
    requires Started(significand, exponent, power, true, num, den, dm, dp)
    ensures Prepared(significand, exponent, power, false, num, den, dm, dp)
    ensures Prepared(significand, exponent, power, true, 2 * num, 2 * den, dm, 2 * dp)
  {
  }

  lemma PreparedFits(significand: int, exponent: int, power: int, closer: bool, num: int, den: int, dm: int, dp: int)
    requires InReach(significand, exponent, power)
    requires Prepared(significand, exponent, power, closer, num, den, dm, dp)
    ensures 10 * num < Scale(1, 128) && 10 * dm < Scale(1, 128) && 10 * dp < Scale(1, 128)
    ensures 10 * den <= Scale(1, 128) && 0 < den && 0 < dm < num && 0 < dp
  {
    hide Over, Under, Scale;
    MulMonotone(1, significand, Over(exponent, power));
    ValuesFit(significand, exponent, power);
    ScaleGrows(127, 128);
  }

  /** Makes sure that the first digit counts: everything but the denominator is multiplied by ten, or the point moves. */
  method FixupMultiply10(estimatedPower: int, isEven: bool,
                         numerator: Bignum, denominator: Bignum, deltaMinus: Bignum, deltaPlus: Bignum)
      returns (point: int)
    requires AllValid(numerator, denominator, deltaMinus, deltaPlus)
    requires 10 * numerator.Value() < Scale(1, CAPACITY)
    requires 10 * deltaMinus.Value() < Scale(1, CAPACITY) && 10 * deltaPlus.Value() < Scale(1, CAPACITY)
    modifies numerator, numerator.bigits, deltaMinus, deltaMinus.bigits, deltaPlus, deltaPlus.bigits
    ensures AllValid(numerator, denominator, deltaMinus, deltaPlus)
    ensures var inRange := RoomAbove(old(numerator.Value()), denominator.Value(), old(deltaPlus.Value()), isEven);
      var c := if inRange then 1 else 10;
      && point == (if inRange then estimatedPower + 1 else estimatedPower)
      && numerator.Value() == c * old(numerator.Value())
      && deltaMinus.Value() == c * old(deltaMinus.Value())
      && deltaPlus.Value() == c * old(deltaPlus.Value())
  {
    hide V, Scale, Bignum.Valid, Bignum.Raw, Bignum.Value;
    var compare := PlusCompare(numerator, deltaPlus, denominator);
    var inRange := if isEven then compare >= 0 else compare > 0;
    if inRange {
      point := estimatedPower + 1;
    } else {
      point := estimatedPower;
      DigitsBelowValue(numerator);
      DigitsBelowValue(deltaMinus);
      DigitsBelowValue(deltaPlus);
      numerator.Times10();
      var equal := Compare(deltaMinus, deltaPlus);
      if equal == 0 {
        deltaMinus.Times10();
        deltaPlus.AssignBignum(deltaMinus);
      } else {
        deltaMinus.Times10();
        deltaPlus.Times10();
      }
    }
  }

  // ---------- The whole conversion ----------

  /** After the correction the ratio stands for the same interval, one place down if it was multiplied. */
  lemma FixedUp(num: int, den: int, dm: int, dp: int, power: int, closed: bool, c: int, point: int,
                v: real, lo: real, hi: real)
    requires Represents(num, den, dm, dp, power, v, lo, hi) && hi < Ten(power + 1)
    requires var inRange := RoomAbove(num, den, dp, closed);
      c == (if inRange then 1 else 10) && point == (if inRange then power + 1 else power)
    ensures Represents(c * num, den, c * dm, c * dp, point - 1, v, lo, hi)
    ensures c * num + c * dp <= 10 * den
    ensures closed || hi != Ten(point) ==> c * num + c * dp < 10 * den
  {
    hide Ten;
    TenStep(power);
    TenStep(power - 1);
    if c == 1 {
      RDistribute(hi, v, den as real);
      RDistribute(num as real, dp as real, Ten(power));
      BelowNext(num + dp, den, Ten(power), hi);
    } else {
      RAssoc(num as real, 10.0, Ten(power - 1));
      RAssoc(dm as real, 10.0, Ten(power - 1));
      RAssoc(dp as real, 10.0, Ten(power - 1));
      RCommute(num as real, 10.0);
      RCommute(dm as real, 10.0);
      RCommute(dp as real, 10.0);
    }
  }

  /** After the correction the interval reaches up to one unit of the first digit. */
  lemma FirstDigitCounts(num: int, den: int, dm: int, dp: int, power: int, closed: bool, c: int,
                         v: real, lo: real, hi: real)
    requires Represents(num, den, dm, dp, power, v, lo, hi) && Ten(power - 1) <= v && 0 < dp
    requires c == if RoomAbove(num, den, dp, closed) then 1 else 10
    ensures RoomAbove(c * num, den, c * dp, closed)
  {
    hide Ten;
    var d, f := den as real, Ten(power - 1);
    TenStep(power - 1);
    RAssoc(num as real, 10.0, f);
    IntProduct(num, 10);
    RMonotone(f, v, d);
    RCommute(d, f);
    InOrder(den, num * 10, f, f * d, v * d);
  }

  /** The upper boundary reaches the place of the first digit. */
  lemma FirstDigitPlace(num: int, den: int, dm: int, dp: int, power: int, closed: bool, point: int,
                        v: real, lo: real, hi: real)
    requires Represents(num, den, dm, dp, power, v, lo, hi) && Ten(power - 1) <= v <= hi
    requires point == if RoomAbove(num, den, dp, closed) then power + 1 else power
    ensures Ten(point - 1) <= hi
  {
    hide Ten;
    if point == power + 1 {
      var d, f := den as real, Ten(power);
      RDistribute(hi - v, v, d);
      RDistribute(num as real, dp as real, f);
      ScaleOrder(den, num + dp, f);
      RCommute(d, f);
      RMonotone(f, hi, d);
    }
  }

  /** Seventeen digits always suffice for a significand of 53 bits. */
  lemma BufferSuffices(size: nat, significand: int, exponent: int, closer: bool, num: int, den: int, dm: int, dp: int,
                       top: int, v: real, lo: real, hi: real)
    requires size >= 17 && significand < 0x20_0000_0000_0000 && (closer ==> significand <= 0x10_0000_0000_0000)
    requires Represents(num, den, dm, dp, top, v, lo, hi) && Ten(top) <= hi
    requires v == Number(significand, exponent) && hi == UpperBoundary(significand, exponent)
    requires lo == LowerBoundary(significand, exponent, closer)
    ensures LongEnough(size, den, dm + dp)
  {
    hide Ten, Two, Pow10;
    SixteenPlaces(size);
    WidthCovers(significand, exponent, closer, lo, hi);
    WiderThanUnit(hi, lo, Pow10(size - 1));
    RDistribute(hi - v, v - lo, den as real);
    RDistribute(dm as real, dp as real, Ten(top));
    WidthInPlaces(hi - lo, Pow10(size - 1), den, dm + dp, Ten(top));
  }

  /** The interval is not narrower than the 10^16th part of the number. */
  lemma WidthCovers(significand: int, exponent: int, closer: bool, lo: real, hi: real)
    requires significand < 0x20_0000_0000_0000 && (closer ==> significand <= 0x10_0000_0000_0000)
    requires hi == UpperBoundary(significand, exponent) && lo == LowerBoundary(significand, exponent, closer)
    ensures lo < hi < (hi - lo) * 10000000000000000.0
  {
    hide Two;
    ScaleOrder(significand, if closer then 0x10_0000_0000_0000 else 0x20_0000_0000_0000 - 1, Two(exponent));
  }

  lemma WidthInPlaces(width: real, p: int, den: int, n: int, f: real)
    requires f > 0.0 && den > 0 && width * (den as real) == (n as real) * f && f < width * (p as real)
    ensures n * p > den
  {
    var d, q := den as real, p as real;
    WidthInUnits(width, p, d, n, f);
    RMonotone(f, width * q, d);
    RCommute(f, d);
    IntProduct(n, p);
    ScaleOrder(den, n * p, f);
  }

  lemma SixteenPlaces(size: nat)
    requires size >= 17
    ensures Pow10(size - 1) >= 10_000_000_000_000_000
  {
    Pow10Add(8, 8);
    assert Pow10(8) == 100_000_000;
    hide Pow10;
    Pow10Grows(16, size - 1);
  }

  lemma WiderThanUnit(hi: real, lo: real, p: int)
    requires lo < hi && hi < (hi - lo) * 10000000000000000.0 && p >= 10_000_000_000_000_000
    ensures hi < (hi - lo) * (p as real)
  {
    RMonotone(10000000000000000.0, p as real, hi - lo);
  }

  lemma WidthInUnits(width: real, p: int, d: real, n: int, f: real)
    requires width * d == (n as real) * f
    ensures (width * (p as real)) * d == ((n as real) * (p as real)) * f
  {
    var q := p as real;
    RCommute(width, q);
    RAssoc(q, width, d);
    RAssoc(q, n as real, f);
    RCommute(q, n as real);
  }

  /**
    The scaled number and its interval, ready for the digit generator: the
    interval reaches up to one unit of the first digit and not to ten.
   */
  method ScaleInterval(significand: nat, exponent: int, closer: bool, estimatedPower: int)
      returns (numerator: Bignum, denominator: Bignum, deltaMinus: Bignum, deltaPlus: Bignum, point: int)
    requires InReach(significand, exponent, estimatedPower) && (exponent >= 0 ==> estimatedPower >= 0)
    requires Ten(estimatedPower - 1) <= Number(significand, exponent)
    requires UpperBoundary(significand, exponent) < Ten(estimatedPower + 1)
    ensures fresh(numerator) && fresh(denominator) && fresh(deltaMinus) && fresh(deltaPlus)
    ensures fresh(numerator.bigits) && fresh(denominator.bigits) && fresh(deltaMinus.bigits) && fresh(deltaPlus.bigits)
    ensures AllValid(numerator, denominator, deltaMinus, deltaPlus) && Roomy(denominator) && 0 < denominator.Value()
    ensures Represents(numerator.Value(), denominator.Value(), deltaMinus.Value(), deltaPlus.Value(), point - 1,
                       Number(significand, exponent), LowerBoundary(significand, exponent, closer),
                       UpperBoundary(significand, exponent))
    ensures 0 < deltaMinus.Value() < numerator.Value() && 0 < deltaPlus.Value()
    ensures Ten(point - 1) <= UpperBoundary(significand, exponent)
    ensures RoomAbove(numerator.Value(), denominator.Value(), deltaPlus.Value(), significand % 2 == 0)
    ensures numerator.Value() + deltaPlus.Value() < 10 * denominator.Value()
  {
    hide V, Scale, Ten, Over, Under, Pow10, Prepared, Represents, Bignum.Valid, Bignum.Raw, Bignum.Value;
    ghost var v, lo, hi := Number(significand, exponent), LowerBoundary(significand, exponent, closer),
      UpperBoundary(significand, exponent);
    var isEven := significand % 2 == 0;
    numerator := new Bignum();
    denominator := new Bignum();
    deltaMinus := new Bignum();
    deltaPlus := new Bignum();
    InitialScaledStartValues(significand, exponent, closer, estimatedPower,
                             numerator, denominator, deltaMinus, deltaPlus);
    ghost var num, den, dm, dp :=
      numerator.Value(), denominator.Value(), deltaMinus.Value(), deltaPlus.Value();
    PreparedFits(significand, exponent, estimatedPower, closer, num, den, dm, dp);
    PreparedRepresents(significand, exponent, estimatedPower, closer, num, den, dm, dp);
    point := FixupMultiply10(estimatedPower, isEven, numerator, denominator, deltaMinus, deltaPlus);
    ghost var c := if RoomAbove(num, den, dp, isEven) then 1 else 10;
    if !isEven { OddBoundaryIsNotPowerOfTen(significand, exponent, point); }
    FixedUp(num, den, dm, dp, estimatedPower, isEven, c, point, v, lo, hi);
    FirstDigitPlace(num, den, dm, dp, estimatedPower, isEven, point, v, lo, hi);
    FirstDigitCounts(num, den, dm, dp, estimatedPower, isEven, c, v, lo, hi);
  }

  /** The shortest digits of a number, by exact arithmetic. */
  method ShortestDigits(significand: nat, exponent: int, closer: bool, estimatedPower: int, buffer: array<int>)
      returns (length: nat, point: int)
    requires InReach(significand, exponent, estimatedPower) && (exponent >= 0 ==> estimatedPower >= 0)
    requires significand < 0x20_0000_0000_0000 && (closer ==> significand <= 0x10_0000_0000_0000)
    requires Ten(estimatedPower - 1) <= Number(significand, exponent)
    requires UpperBoundary(significand, exponent) < Ten(estimatedPower + 1)
    requires buffer.Length >= 17
    modifies buffer
    ensures 1 <= length <= buffer.Length && IsDecimal(buffer[..length]) && buffer[0] != ZERO
    ensures IsShortest(Number(significand, exponent), LowerBoundary(significand, exponent, closer),
                       UpperBoundary(significand, exponent), significand % 2 == 0,
                       Dec(buffer[..length]), point - length)
  {
    hide V, Scale, Ten, Pow10, Dec, LongEnough, IsShortest, Shortest, Represents, Number, UpperBoundary, LowerBoundary,
      Bignum.Valid, Bignum.Raw, Bignum.Value;
    ghost var v, lo, hi := Number(significand, exponent), LowerBoundary(significand, exponent, closer),
      UpperBoundary(significand, exponent);
    var isEven := significand % 2 == 0;
    var numerator, denominator, deltaMinus, deltaPlus;
    numerator, denominator, deltaMinus, deltaPlus, point := ScaleInterval(significand, exponent, closer, estimatedPower);
    ghost var num, den, dm, dp :=
      numerator.Value(), denominator.Value(), deltaMinus.Value(), deltaPlus.Value();
    BufferSuffices(buffer.Length, significand, exponent, closer, num, den, dm, dp, point - 1, v, lo, hi);
    length := GenerateShortestDigits(numerator, denominator, deltaMinus, deltaPlus, isEven, buffer);
    ShortestOfNumber(num, den, dm, dp, isEven, Dec(buffer[..length]), length, point - 1, v, lo, hi);
    NoLeadingZero(num, den, dm, dp, isEven, Dec(buffer[..length]), length);
    LeadingDigit(buffer[..length]);
  }
}
