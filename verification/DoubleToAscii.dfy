/**
  Printing a double: the fast path of each mode, and the exact one when it
  fails. Either way the digits mean the same.
 */
module DoubleToAscii {
  import opened Positional
  import opened DigitLoops
  import opened Powers
  import opened Decimal
  import opened RealPowers
  import opened Rounding
  import opened StartValues
  import opened BignumShortest
  import opened BignumFixed
  import opened Doubles
  import opened DigitFilling
  import opened FixedDtoa
  import opened Weeding
  import opened FastCounted
  import opened Grisu
  import opened CachedPowers
  import opened PowerEstimate
  import opened Ieee
  import opened ReadBack

  // ---------- The estimated power ----------

  /** A positive number of the size of a double; singles are among them. */
  ghost predicate Printable(significand: int, exponent: int) {
    0 < significand < 0x20_0000_0000_0000 && -1074 <= exponent <= 971
  }

  /** The estimate is never too high, and at most one too low, for the upper boundary too. */
  ghost predicate GoodEstimate(significand: int, exponent: int, power: int) {
    && -400 <= power <= 400 && (exponent >= 0 ==> power >= 0)
    && Ten(power - 1) <= Number(significand, exponent)
    && UpperBoundary(significand, exponent) < Ten(power + 1)
  }

  lemma EstimateBounds(significand: int, exponent: int, power: int)
    requires IsDouble(significand, exponent) && GoodEstimate(significand, exponent, power)
    ensures InReach(significand, exponent, power)
    ensures Estimates(Number(significand, exponent), power)
    ensures significand % 2 == 1 ==> Number(significand, exponent) != Ten(power)
  {
    hide Ten, Two;
    if significand % 2 == 1 { OddIsNotPowerOfTen(significand, exponent, power); }
  }

  lemma NormalizedRange(significand: int, k: nat)
    requires 0 < significand && significand * Pow2(k) < 0x20_0000_0000_0000
    ensures k <= 52 && significand * Pow2(k) + Pow2(k) <= 0x20_0000_0000_0000
  {
    hide Pow2;
    Pow2Of53();
    if k >= 53 {
      Pow2Monotone(53, k);
      MulMonotone(1, significand, Pow2(k));
    } else {
      var q := Pow2(53 - k);
      Pow2Add(53 - k, k);
      if significand >= q { MulMonotone(q, significand, Pow2(k)); }
      MulMonotone(significand + 1, q, Pow2(k));
      assert (significand + 1) * Pow2(k) == significand * Pow2(k) + Pow2(k);
    }
  }

  lemma Pow2Of53()
    ensures Pow2(52) == 0x10_0000_0000_0000 && Pow2(53) == 0x20_0000_0000_0000
  {
    hide Pow2;
    Factors();
    Pow2Add(26, 26);
    Pow2Add(26, 27);
  }

  /** With its significand normalised to 53 bits a number, and its upper boundary, lie between two powers of two. */
  lemma NormalizedBounds(significand: int, exponent: int, normalized: int)
    requires 0 < significand && normalized <= exponent
    requires 0x10_0000_0000_0000 <= significand * Pow2(exponent - normalized) < 0x20_0000_0000_0000
    ensures Two(normalized + 52) <= Number(significand, exponent)
    ensures UpperBoundary(significand, exponent) < Two(normalized + 53)
  {
    hide Two, Pow2, Number;
    var k := exponent - normalized;
    var t, p := Two(normalized), Pow2(k);
    Pow2Of53();
    TwoAdd(normalized, 52);
    TwoAdd(normalized, 53);
    TwoAdd(normalized, k);
    SmallerUnit(significand, exponent, normalized);
    NormalizedRange(significand, k);
    InUnits(significand * p, p, normalized);
  }

  lemma InUnits(f: int, p: int, e: int)
    requires 0x10_0000_0000_0000 <= f && f + p <= 0x20_0000_0000_0000 && p > 0
    ensures Two(e) * 4503599627370496.0 <= Number(f, e)
    ensures Number(f, e) + (Two(e) * (p as real)) / 2.0 < Two(e) * 9007199254740992.0
  {
    hide Two;
    var t := Two(e);
    var x, y, z := (f as real) * t, (p as real) * t, 9007199254740992.0 * t;
    InOrder(0x10_0000_0000_0000, f, t, 4503599627370496.0 * t, x);
    InOrder(f + p, 0x20_0000_0000_0000, t, x + y, z) by { SumInGrains(f, p, f + p, t); }
    InOrder(0, p, t, 0.0, y);
    RCommute(t, 4503599627370496.0);
    RCommute(t, 9007199254740992.0);
    RCommute(t, p as real);
    assert x + y / 2.0 < z;
  }

  method EstimatedPower(significand: nat, exponent: int) returns (power: int)
    requires Printable(significand, exponent)
    ensures GoodEstimate(significand, exponent, power)
  {
    hide Ten, Two, Pow2, Number, UpperBoundary;
    var normalized := NormalizedExponent(significand, exponent);
    NormalizedRange(significand, exponent - normalized);
    power := EstimatePower(normalized);
    NormalizedBounds(significand, exponent, normalized);
    AtLeastOne(significand, exponent, power);
  }

  lemma AtLeastOne(significand: int, exponent: int, power: int)
    requires 0 < significand && UpperBoundary(significand, exponent) < Ten(power + 1)
    ensures exponent >= 0 ==> power >= 0
  {
    hide Ten, Two;
    TenIsTen();
    if exponent >= 0 {
      TwoAdd(0, exponent);
      TwoZero();
      ScaleOrder(1, significand, Two(exponent));
      if power < 0 { TenMonotone(power + 1, 0); }
    }
  }

  // ---------- The modes ----------

  /**
    Shortest mode, for doubles and singles: the shortest decimal between the
    boundaries of v, and of those the closest.
   */
  method ToShortest(significand: nat, exponent: int, closer: bool, buffer: array<int>) returns (length: nat, point: int)
    requires Printable(significand, exponent) && (closer ==> significand <= 0x10_0000_0000_0000)
    requires buffer.Length >= 17
    modifies buffer
    ensures 1 <= length <= buffer.Length && IsDecimal(buffer[..length]) && NoOuterZeros(buffer[..length])
    ensures IsShortest(Number(significand, exponent), LowerBoundary(significand, exponent, closer),
                       UpperBoundary(significand, exponent), significand % 2 == 0,
                       Dec(buffer[..length]), point - length)
  {
    hide Ten, Two, Dec, Pow2, IsShortest, StrictlyShortest, Number, UpperBoundary, LowerBoundary;
    var ok, decimalExponent;
    ghost var s;
    ok, length, decimalExponent, s := Grisu3(significand, exponent, closer, buffer);
    if ok {
      point := length + decimalExponent;
      StrictIsShortest(Number(significand, exponent), LowerBoundary(significand, exponent, closer),
                       UpperBoundary(significand, exponent), Dec(buffer[..length]), decimalExponent,
                       significand % 2 == 0);
    } else {
      var power := EstimatedPower(significand, exponent);
      length, point := ShortestDigits(significand, exponent, closer, power, buffer);
    }
    LowerBoundaryPositive(significand, exponent, closer);
    NoTrailingZero(Number(significand, exponent), LowerBoundary(significand, exponent, closer),
                   UpperBoundary(significand, exponent), significand % 2 == 0, buffer[..length], point - length);
  }

  /** A trailing zero would leave a coarser decimal in the interval. */
  lemma NoTrailingZero(v: real, lo: real, hi: real, closed: bool, digits: seq<int>, x: int)
    requires 0.0 < lo && |digits| > 0 && IsShortest(v, lo, hi, closed, Dec(digits), x)
    ensures digits[|digits| - 1] != ZERO
  {
    hide Ten;
    var w, u := Dec(digits), Dec(digits[..|digits| - 1]);
    PositiveDigits(w, x);
    TenStep(x);
    RAssoc(u as real, 10.0, Ten(x));
    RCommute(u as real, 10.0);
    IntProduct(10, u);
    assert w == 10 * u ==> !Between(lo, hi, closed, Decimal10(u, x + 1));
  }

  /** Fixed mode: v with `requested` decimals, rounded half up, whichever path produced the digits. */
  method ToFixed(significand: nat, exponent: int, requested: nat, buffer: array<int>) returns (length: nat, point: int)
    requires IsDouble(significand, exponent)
    requires buffer.Length >= 27 + requested && Number(significand, exponent) < Ten(buffer.Length - requested)
    modifies buffer
    ensures length <= buffer.Length && IsDecimal(buffer[..length])
    ensures RoundedTo(Number(significand, exponent), requested, buffer[..length], point)
    ensures length > 0 ==> buffer[0] != ZERO
  {
    hide Ten, Two, RoundedTo, Number, UpperBoundary, GoodEstimate, Estimates;
    var ok;
    ghost var shifts;
    ok, length, point, shifts := FastFixedDtoa(significand, exponent, requested, buffer);
    if !ok {
      var power := EstimatedPower(significand, exponent);
      EstimateBounds(significand, exponent, power);
      EstimatedSign(significand, exponent, power);
      length, point := FixedDigits(significand, exponent, power, requested, buffer);
    }
    RoundedIsDecimal(Number(significand, exponent), requested, buffer[..length], point);
  }

  lemma EstimatedSign(significand: int, exponent: int, power: int)
    requires GoodEstimate(significand, exponent, power)
    ensures exponent >= 0 ==> power >= 0
  {
  }

  /** The digits are the first n of v, rounded half up. */
  ghost predicate HasPrecision(v: real, n: nat, digits: seq<int>, point: int) {
    exists top :: Ten(top - 1) <= v < Ten(top) && RoundedTo(v, n - top, digits, point)
  }

  /** Precision mode: the first `requested` digits of v, rounded half up. */
  method ToPrecision(significand: nat, exponent: int, requested: nat, buffer: array<int>) returns (length: nat, point: int)
    requires IsDouble(significand, exponent) && 1 <= requested <= buffer.Length
    modifies buffer
    ensures length == requested && IsDecimal(buffer[..length]) && buffer[0] != ZERO
    ensures HasPrecision(Number(significand, exponent), requested, buffer[..length], point)
  {
    hide Ten, Two, RoundedTo, Number, UpperBoundary, GoodEstimate, Estimates;
    var power := EstimatedPower(significand, exponent);
    EstimateBounds(significand, exponent, power);
    EstimatedSign(significand, exponent, power);
    ghost var v := Number(significand, exponent);
    ghost var top := FirstPlace(v, power);
    var ok, decimalExponent;
    ghost var s, c;
    ok, length, decimalExponent, s, c := Grisu3Counted(significand, exponent, requested, buffer, top);
    if ok {
      point := length + decimalExponent;
    } else {
      ghost var top';
      length, point, top' := PrecisionDigits(significand, exponent, power, requested, buffer);
      top := top';
    }
    RoundedIsDecimal(v, requested - top, buffer[..length], point);
    assert Ten(top - 1) <= v < Ten(top) && RoundedTo(v, requested - top, buffer[..length], point);
  }

  lemma FirstPlace(v: real, power: int) returns (top: int)
    requires Estimates(v, power)
    ensures Ten(top - 1) <= v < Ten(top)
  {
    top := if v < Ten(power) then power else power + 1;
  }

  /** The place of the first digit is determined by the number, so precision mode has one result. */
  lemma OnePlace(v: real, m: int, n: int)
    requires Ten(m - 1) <= v < Ten(m) && Ten(n - 1) <= v < Ten(n)
    ensures m == n
  {
    hide Ten;
    if m < n {
      TenMonotone(m, n - 1);
    } else if n < m {
      TenMonotone(n, m - 1);
    }
  }

  // ---------- All doubles ----------

  datatype Mode = Shortest | Fixed | Precision

  /** What the digits of a mode are to say about a positive double. */
  ghost predicate Correct(bits: nat, mode: Mode, requested: nat, digits: seq<int>, point: int) {
    match mode
    case Shortest =>
      && NoOuterZeros(digits)
      && ShortestReading(DOUBLE, Significand(bits), Exponent(bits), Dec(digits), point - |digits|)
      && FewestDigits(DOUBLE, Significand(bits), Exponent(bits), |digits|)
    case Fixed => RoundedTo(Magnitude(bits), requested, digits, point)
    case Precision => |digits| == requested && HasPrecision(Magnitude(bits), requested, digits, point)
  }

  ghost predicate Room(bits: nat, mode: Mode, requested: nat, size: int) {
    match mode
    case Shortest => size >= 17
    case Fixed => size >= 27 + requested && Magnitude(bits) < Ten(size - requested)
    case Precision => size >= 1 && size >= requested
  }

  /** Prints any finite double in any mode: correct digits without leading zeros. */
  method ToAscii(bits: nat, mode: Mode, requested: nat, buffer: array<int>)
      returns (sign: bool, length: nat, point: int)
    requires bits < TWO64 && !IsSpecial(bits) && Room(bits, mode, requested, buffer.Length)
    modifies buffer
    ensures sign == IsNegative(bits) && length <= buffer.Length && IsDecimal(buffer[..length])
    ensures mode == Precision && requested == 0 ==> length == 0
    ensures !(mode == Precision && requested == 0) && Significand(bits) == 0 ==> buffer[..length] == [ZERO] && point == 1
    ensures !(mode == Precision && requested == 0) && Significand(bits) != 0 ==>
      Correct(bits, mode, requested, buffer[..length], point) && (length > 0 ==> buffer[0] != ZERO)
  {
    hide Ten, Two, Dec, Number, ShortestReading, FewestDigits, IsShortest, RoundedTo, HasPrecision, UpperBoundary, LowerBoundary;
    sign := IsNegative(bits);
    if mode == Precision && requested == 0 {
      return sign, 0, 0;
    }
    var significand, exponent := Significand(bits), Exponent(bits);
    if significand == 0 {
      buffer[0] := ZERO;
      return sign, 1, 1;
    }
    FieldsAreDouble(bits);
    match mode
    case Shortest =>
      length, point := ToShortest(significand, exponent, LowerBoundaryIsCloser(bits), buffer);
      ShortestReadsBack(DOUBLE, significand, exponent, Dec(buffer[..length]), point - length);
      ShortestIsFewest(DOUBLE, significand, exponent, buffer[..length], point - length);
    case Fixed =>
      length, point := ToFixed(significand, exponent, requested, buffer);
    case Precision =>
      length, point := ToPrecision(significand, exponent, requested, buffer);
  }

  /** Prints any finite single, the shortest way it can be read back as a single. */
  method SingleToAscii(bits: nat, buffer: array<int>) returns (sign: bool, length: nat, point: int)
    requires bits < TWO32 && !SingleIsSpecial(bits) && buffer.Length >= 17
    modifies buffer
    ensures sign == SingleIsNegative(bits) && length <= buffer.Length && IsDecimal(buffer[..length])
    ensures SingleSignificand(bits) == 0 ==> buffer[..length] == [ZERO] && point == 1
    ensures SingleSignificand(bits) != 0 ==>
      && NoOuterZeros(buffer[..length])
      && ShortestReading(SINGLE, SingleSignificand(bits), SingleExponent(bits), Dec(buffer[..length]), point - length)
      && FewestDigits(SINGLE, SingleSignificand(bits), SingleExponent(bits), length)
  {
    hide Ten, Two, Dec, Number, ShortestReading, FewestDigits, IsShortest, UpperBoundary, LowerBoundary;
    sign := SingleIsNegative(bits);
    var significand, exponent := SingleSignificand(bits), SingleExponent(bits);
    if significand == 0 {
      buffer[0] := ZERO;
      return sign, 1, 1;
    }
    length, point := ToShortest(significand, exponent, SingleLowerBoundaryIsCloser(bits), buffer);
    ShortestReadsBack(SINGLE, significand, exponent, Dec(buffer[..length]), point - length);
    ShortestIsFewest(SINGLE, significand, exponent, buffer[..length], point - length);
  }
}
