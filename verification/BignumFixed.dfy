/**
  Exact digit generation with a counted number of digits, rounded half up:
  either so many digits in all, or so many after the decimal point.
 */
module BignumFixed {
  import opened Positional
  import opened DigitLoops
  import opened BignumModel
  import opened Decimal
  import opened BignumDtoa
  import opened StartValues
  import opened RealPowers
  import opened Doubles
  import opened ShortestDecimal
  import opened Rounding
  import opened BignumShortest

  /** The digits so far, w, account for all of num/den but n. */
  ghost predicate Counting(num: int, den: int, w: int, n: int, length: nat) {
    && num * Pow10(length) == 10 * w * den + n
    && 0 <= n < 10 * den
  }

  lemma CountStep(num: int, den: int, w: int, n: int, length: nat, digit: int, r: int)
    requires Counting(num, den, w, n, length) && n == digit * den + r && 0 <= r < den
    ensures Counting(num, den, 10 * w + digit, 10 * r, length + 1)
  {
    hide Pow10;
    DistributeDigits(w, digit, den);
    PlaceAbove(num, length);
    var w' := 10 * w + digit;
    assert 10 * (w' * den + r) == 10 * w' * den + 10 * r;
  }

  lemma CountEnd(num: int, den: int, w: int, n: int, length: nat, digit: int, r: int)
    requires Counting(num, den, w, n, length) && n == digit * den + r && 0 <= r < den
    ensures RatioHalfUp(num * Pow10(length), den, 10 * w + digit + (if 2 * r >= den then 1 else 0))
  {
    DistributeDigits(w, digit, den);
    assert (10 * w + digit + 1) * den == (10 * w + digit) * den + den;
  }

  lemma CountStart(num: int, den: int)
    requires 0 <= num < 10 * den
    ensures Counting(num, den, Dec([]), num, 0)
  {
  }

  lemma CountBounds(num: int, den: int, w: int, n: int, length: nat)
    requires Counting(num, den, w, n, length)
    ensures 0 <= n < 10 * den && 0 < den
  {
  }

  /** All digits but the last, straight from the division. */
  method LeadingDigits(count: nat, numerator: Bignum, denominator: Bignum, buffer: array<int>)
    requires count <= buffer.Length && numerator.Valid() && denominator.Valid()
    requires Separate(numerator, denominator) && buffer != numerator.bigits && buffer != denominator.bigits
    requires Roomy(denominator) && numerator.Value() < 10 * denominator.Value()
    modifies numerator, numerator.bigits, buffer
    ensures numerator.Valid() && IsDecimal(buffer[..count])
    ensures Counting(old(numerator.Value()), denominator.Value(), Dec(buffer[..count]), numerator.Value(), count)
  {
    hide V, Scale, Pow10, Dec, Counting, Bignum.Valid, Bignum.Raw, Bignum.Value;
    ghost var num, den := numerator.Value(), denominator.Value();
    numerator.ValueRange();
    CountStart(num, den);
    assert buffer[..0] == [];
    var i := 0;
    while i < count
      invariant 0 <= i <= count && numerator.Valid() && denominator.Valid()
      invariant denominator.Value() == den && Roomy(denominator)
      invariant IsDecimal(buffer[..i])
      invariant Counting(num, den, Dec(buffer[..i]), numerator.Value(), i)
    {
      ghost var w, n := Dec(buffer[..i]), numerator.Value();
      CountBounds(num, den, w, n, i);
      var digit := QuotientDigit(numerator, denominator);
      CountStep(num, den, w, n, i, digit, numerator.Value());
      StoreDigit(buffer, i, digit);
      DigitsBelowValue(numerator);
      numerator.Times10();
      i := i + 1;
    }
  }

  /** `count` digits of numerator/denominator, rounded half up; a carry out of the top digit moves the point. */
  method GenerateCountedDigits(count: nat, point0: int, numerator: Bignum, denominator: Bignum, buffer: array<int>)
      returns (length: nat, point: int, ghost w: int)
    requires 1 <= count <= buffer.Length && numerator.Valid() && denominator.Valid()
    requires Separate(numerator, denominator) && buffer != numerator.bigits && buffer != denominator.bigits
    requires Roomy(denominator) && numerator.Value() < 10 * denominator.Value()
    modifies numerator, numerator.bigits, buffer
    ensures length == count && IsDecimal(buffer[..length])
    ensures RatioHalfUp(old(numerator.Value()) * Pow10(count - 1), old(denominator.Value()), w)
    ensures Carried(w, Dec(buffer[..length]), point - point0)
    ensures old(numerator.Value()) >= old(denominator.Value()) ==> buffer[0] != ZERO
  {
    hide V, Scale, Pow10, Dec, Counting, RatioHalfUp, Bignum.Valid, Bignum.Raw, Bignum.Value;
    ghost var num, den := numerator.Value(), denominator.Value();
    LeadingDigits(count - 1, numerator, denominator, buffer);
    ghost var s, n := buffer[..count - 1], numerator.Value();
    CountBounds(num, den, Dec(s), n, count - 1);
    var digit := QuotientDigit(numerator, denominator);
    CountEnd(num, den, Dec(s), n, count - 1, digit, numerator.Value());
    var compare := PlusCompare(numerator, numerator, denominator);
    if compare >= 0 {
      digit := digit + 1;
    }
    buffer[count - 1] := digit + ZERO;
    assert buffer[..count] == s + [digit + ZERO];
    DecAppend(s, digit + ZERO);
    w := Dec(buffer[..count]);
    point := PropagateCarry(buffer, count, point0);
    length := count;
    if num >= den { CountedLeads(num, den, w, buffer[..length], point - point0); }
  }

  /** A ratio of at least one rounds to digits that start with a nonzero one. */
  lemma CountedLeads(num: int, den: int, w: int, digits: seq<int>, bump: int)
    requires num >= den > 0 && |digits| > 0 && IsDecimal(digits)
    requires RatioHalfUp(num * Pow10(|digits| - 1), den, w) && Carried(w, Dec(digits), bump)
    requires bump != 0 ==> digits[0] == ZERO + 1
    ensures digits[0] != ZERO
  {
    hide Pow10, Dec;
    var p := Pow10(|digits| - 1);
    MulMonotone(den, num, p);
    LeadingDigit(digits);
    if w < p { MulMonotone(w + 1, p, den); }
  }

  // ---------- Digits after the point ----------

  /** v = num/den * 10^(point - 1). */
  ghost predicate Scaled(v: real, num: int, den: int, point: int) {
    v * (den as real) == (num as real) * Ten(point - 1)
  }

  lemma ScaledRatio(v: real, num: int, den: int, point: int, count: nat)
    requires den > 0 && Scaled(v, num, den, point) && count >= 1
    ensures (v * Ten(count - point)) * (den as real) == (num * Pow10(count - 1)) as real
  {
    hide Ten, Pow10;
    var t, d, p := Ten(count - point), den as real, Pow10(count - 1) as real;
    RAssoc(v, t, d);
    RCommute(t, d);
    RAssoc(v, d, t);
    RAssoc(num as real, Ten(point - 1), t);
    TenSum(point - 1, count - point);
    TenAdd(0, count - 1);
    TenIsTen();
    IntProduct(num, Pow10(count - 1));
  }

  lemma CountedIsRounded(v: real, num: int, den: int, point0: int, count: nat, w: int, digits: seq<int>, point: int)
    requires den > 0 && Scaled(v, num, den, point0) && 1 <= count == |digits| && IsDecimal(digits)
    requires RatioHalfUp(num * Pow10(count - 1), den, w) && Carried(w, Dec(digits), point - point0)
    ensures RoundedTo(v, count - point0, digits, point)
  {
    hide Ten, Pow10, RatioHalfUp, HalfUp, Dec;
    ScaledRatio(v, num, den, point0, count);
    RatioIsHalfUp(num * Pow10(count - 1), den, w, v, count - point0);
    CarriedPoint(w, Dec(digits), point0 - count, point - point0);
  }

  /** Below a tenth of a unit everything rounds to nothing. */
  lemma TooSmall(v: real, n: int, point: int)
    requires 0.0 <= v < Ten(point) && point < -n
    ensures RoundedTo(v, n, [], -n)
  {
    hide Ten;
    TenSum(point, n);
    RMonotone(v, Ten(point), Ten(n));
    RSignNat(v, Ten(n));
    TenIsTen();
    TenAdd(point + n, -(point + n));
    AtMostTenth(Ten(point + n), -(point + n));
    HalfUpCharacter(v, n, 0);
  }

  lemma AtMostTenth(t: real, k: nat)
    requires k >= 1 && t > 0.0 && 1.0 == t * (Pow10(k) as real)
    ensures t <= 0.1
  {
    PlaceAbove(1, k - 1);
    var p := Pow10(k) as real;
    RMonotone(10.0, p, t);
    RCommute(p, t);
  }

  /** At the place just above the last one only the choice between nothing and one unit is left. */
  lemma OneDigitOrNone(v: real, num: int, den: int, n: int)
    requires den > 0 && 0 <= num < 10 * den && Scaled(v, num, den, -n)
    ensures 2 * num >= 10 * den ==> RoundedTo(v, n, [ZERO + 1], -n + 1)
    ensures 2 * num < 10 * den ==> RoundedTo(v, n, [], -n)
  {
    hide Ten;
    var y, d := v * Ten(n), den as real;
    RAssoc(v, Ten(n), 10.0 * d);
    RSwap(Ten(n), 10.0, d);
    RAssoc(v, 10.0, Ten(n) * d);
    TenStep(-n - 1);
    TenInverse(n);
    UnitsOfPlace(v, num as real, d, Ten(-n - 1), Ten(n));
    IntProduct(10, den);
    RatioIsHalfUp(num, 10 * den, if 2 * num >= 10 * den then 1 else 0, v, n);
    assert Dec([ZERO + 1]) == 1;
    assert Dec([]) == 0;
  }

  lemma UnitsOfPlace(v: real, n: real, d: real, t: real, u: real)
    requires v * d == n * t && u * (10.0 * t) == 1.0
    ensures (v * u) * (10.0 * d) == n
  {
    RSwap(v * u, 10.0, d);
    RAssoc(d, v, u);
    RCommute(d, v);
    RCommute(v * u, d);
    RAssoc(n, t, u);
    RCommute(t, u);
    RSwap(u, 10.0, t);
    RAssoc(10.0, n, t * u);
    RCommute(10.0, n);
    RAssoc(n, 10.0, t * u);
    assert 10.0 * (t * u) == 1.0;
  }

  /** Digits up to the n-th after the point: none, one or as many as it takes. */
  method BignumToFixed(requested: nat, point0: int, numerator: Bignum, denominator: Bignum, buffer: array<int>,
                       ghost v: real)
      returns (length: nat, point: int)
    requires numerator.Valid() && denominator.Valid() && Separate(numerator, denominator)
    requires buffer != numerator.bigits && buffer != denominator.bigits
    requires buffer.Length >= 1 && point0 + requested <= buffer.Length
    requires 10 * denominator.Value() < Scale(1, CAPACITY) && numerator.Value() < 10 * denominator.Value()
    requires Scaled(v, numerator.Value(), denominator.Value(), point0)
    modifies numerator, numerator.bigits, denominator, denominator.bigits, buffer
    ensures length <= buffer.Length && RoundedTo(v, requested, buffer[..length], point)
    ensures old(numerator.Value()) >= old(denominator.Value()) && length > 0 ==> buffer[0] != ZERO
  {
    hide V, Scale, Pow10, Ten, Dec, RoundedTo, Scaled, Carried, RatioHalfUp, Bignum.Valid, Bignum.Raw, Bignum.Value;
    ghost var num, den := numerator.Value(), denominator.Value();
    numerator.ValueRange();
    if -point0 > requested {
      ScaledBelow(v, num, den, point0);
      TooSmall(v, requested, point0);
      point, length := -(requested as int), 0;
      assert buffer[..0] == [];
    } else if -point0 == requested {
      OneDigitOrNone(v, num, den, requested);
      DigitsBelowValue(denominator);
      denominator.Times10();
      var compare := PlusCompare(numerator, numerator, denominator);
      point := point0;
      if compare >= 0 {
        buffer[0] := ZERO + 1;
        length := 1;
        point := point + 1;
        assert buffer[..1] == [ZERO + 1];
      } else {
        length := 0;
        assert buffer[..0] == [];
      }
    } else {
      var needed := point0 + requested;
      ghost var w;
      length, point, w := GenerateCountedDigits(needed, point0, numerator, denominator, buffer);
      CountedIsRounded(v, num, den, point0, needed, w, buffer[..length], point);
    }
  }

  lemma ScaledBelow(v: real, num: int, den: int, point: int)
    requires den > 0 && 0 <= num && Scaled(v, num, den, point)
    ensures num < 10 * den <==> v < Ten(point)
    ensures num <= 10 * den <==> v <= Ten(point)
    ensures num < den <==> v < Ten(point - 1)
    ensures num == den <==> v == Ten(point - 1)
    ensures 0.0 <= v
  {
    hide Ten;
    var t, d := Ten(point - 1), den as real;
    TenStep(point - 1);
    BelowNext(num, den, t, v);
    InOrder(num, den, t, v * d, t * d) by { RCommute(d, t); }
    InOrder(den, num, t, t * d, v * d) by { RCommute(d, t); }
    InOrder(0, num, t, 0.0, v * d);
    RMonotone(v, t, d);
    RMonotone(t, v, d);
    RMonotone(0.0, v, d);
  }

  // ---------- The whole conversion ----------

  /** The start values without deltas, as a scaled number. */
  lemma StartedScaled(significand: int, exponent: int, power: int, num: int, den: int, dm: int, dp: int)
    requires InReach(significand, exponent, power)
    requires Started(significand, exponent, power, false, num, den, dm, dp)
    ensures Scaled(Number(significand, exponent), num, den, power + 1)
    ensures 100 * num < Scale(1, CAPACITY) && 100 * den < Scale(1, CAPACITY) && 0 < den && 0 < num
  {
    hide Two, Ten, Over, Under, Scale;
    OverUnderRatio(exponent, power);
    PartOfRatio(significand, 1, Two(exponent), Over(exponent, power), Under(exponent, power), Ten(power));
    ValuesFit(significand, exponent, power);
    ScaleGrows(127, 128);
    MulMonotone(1, significand, Over(exponent, power));
  }

  /** Dividing by one power of ten less and multiplying by ten is the same. */
  lemma ScaledTimesTen(v: real, num: int, den: int, point: int)
    requires Scaled(v, num, den, point + 1)
    ensures Scaled(v, 10 * num, den, point)
  {
    hide Ten;
    TenStep(point - 1);
    RAssoc(num as real, 10.0, Ten(point - 1));
    RCommute(num as real, 10.0);
  }

  /** The estimated power may only be too low, by one at most. */
  ghost predicate Estimates(v: real, power: int) {
    Ten(power - 1) <= v < Ten(power + 1)
  }

  /**
    Brings v to the form numerator/denominator * 10^(point - 1) with one digit
    before the point. An odd significand whose value is the estimated power of
    ten itself would leave the ratio at ten; no double is like that.
   */
  method ScaleNumber(significand: nat, exponent: int, power: int)
      returns (numerator: Bignum, denominator: Bignum, point: int)
    requires InReach(significand, exponent, power) && (exponent >= 0 ==> power >= 0)
    requires Number(significand, exponent) < Ten(power + 1)
    requires significand % 2 == 1 ==> Number(significand, exponent) != Ten(power)
    ensures fresh(numerator) && fresh(denominator) && fresh(numerator.bigits) && fresh(denominator.bigits)
    ensures numerator.Valid() && denominator.Valid() && Separate(numerator, denominator)
    ensures 10 * denominator.Value() < Scale(1, CAPACITY)
    ensures 0 < denominator.Value() && numerator.Value() < 10 * denominator.Value()
    ensures Scaled(Number(significand, exponent), numerator.Value(), denominator.Value(), point)
    ensures point == if Number(significand, exponent) >= Ten(power) then power + 1 else power
    ensures Ten(power - 1) <= Number(significand, exponent) ==> numerator.Value() >= denominator.Value()
  {
    hide V, Scale, Pow10, Ten, Two, Started, Scaled, Bignum.Valid, Bignum.Raw, Bignum.Value;
    ghost var v := Number(significand, exponent);
    numerator := new Bignum();
    denominator := new Bignum();
    var deltaMinus := new Bignum();
    var deltaPlus := new Bignum();
    InitialScaledRatio(significand, exponent, power, numerator, denominator, deltaMinus, deltaPlus);
    ghost var num, den := numerator.Value(), denominator.Value();
    StartedScaled(significand, exponent, power, num, den, deltaMinus.Value(), deltaPlus.Value());
    ScaledBelow(v, num, den, power + 1);
    point := FixupMultiply10(power, significand % 2 == 0, numerator, denominator, deltaMinus, deltaPlus);
    ScaledTimesTen(v, num, den, power);
    numerator.ValueRange();
    ScaledBelow(v, numerator.Value(), denominator.Value(), point);
  }

  /** v with n digits after the point, rounded half up. */
  method FixedDigits(significand: nat, exponent: int, power: int, requested: nat, buffer: array<int>)
      returns (length: nat, point: int)
    requires InReach(significand, exponent, power) && (exponent >= 0 ==> power >= 0)
    requires Estimates(Number(significand, exponent), power)
    requires significand % 2 == 1 ==> Number(significand, exponent) != Ten(power)
    requires buffer.Length >= 1 && Number(significand, exponent) < Ten(buffer.Length - requested)
    modifies buffer
    ensures length <= buffer.Length
    ensures RoundedTo(Number(significand, exponent), requested, buffer[..length], point)
    ensures length > 0 ==> buffer[0] != ZERO
  {
    hide V, Scale, Pow10, Ten, Two, RoundedTo, Scaled, Number, Bignum.Valid, Bignum.Raw, Bignum.Value;
    ghost var v := Number(significand, exponent);
    NumberPositive(significand, exponent);
    if -power - 1 > requested {
      TooSmall(v, requested, power + 1);
      length, point := 0, -(requested as int);
      assert buffer[..0] == [];
    } else {
      var numerator, denominator, point0 := ScaleNumber(significand, exponent, power);
      if point0 > buffer.Length - requested { TenMonotone(buffer.Length - requested, point0 - 1); }
      length, point := BignumToFixed(requested, point0, numerator, denominator, buffer, v);
    }
  }

  lemma NumberPositive(significand: nat, exponent: int)
    ensures Number(significand, exponent) >= 0.0
  {
    RSignNat(significand as real, Two(exponent));
  }

  /** `count` significant digits of v, rounded half up; 10^(top - 1) <= v < 10^top. */
  method PrecisionDigits(significand: nat, exponent: int, power: int, count: nat, buffer: array<int>)
      returns (length: nat, point: int, ghost top: int)
    requires InReach(significand, exponent, power) && (exponent >= 0 ==> power >= 0)
    requires Estimates(Number(significand, exponent), power)
    requires significand % 2 == 1 ==> Number(significand, exponent) != Ten(power)
    requires 1 <= count <= buffer.Length
    modifies buffer
    ensures length == count && Ten(top - 1) <= Number(significand, exponent) < Ten(top)
    ensures RoundedTo(Number(significand, exponent), count - top, buffer[..length], point) && buffer[0] != ZERO
  {
    hide V, Scale, Pow10, Ten, Two, RoundedTo, Scaled, Carried, RatioHalfUp, Number,
      Bignum.Valid, Bignum.Raw, Bignum.Value;
    ghost var v := Number(significand, exponent);
    var numerator, denominator, point0 := ScaleNumber(significand, exponent, power);
    ghost var num, den := numerator.Value(), denominator.Value();
    top := point0;
    ghost var w;
    length, point, w := GenerateCountedDigits(count, point0, numerator, denominator, buffer);
    CountedIsRounded(v, num, den, point0, count, w, buffer[..length], point);
  }
}
