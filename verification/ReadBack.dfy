/**
  Reading a decimal back: which numbers round to a given floating-point number.
  They are the ones between its boundaries, which is what makes the shortest
  digits in that interval the shortest that can be read back.
 */
module ReadBack {
  import opened Positional
  import opened Decimal
  import opened RealPowers
  import opened Doubles
  import opened DiyFpModel

  /** A binary format: the hidden bit of a normal number's significand, and the smallest exponent. */
  datatype Format = Format(hidden: int, bottom: int)

  const DOUBLE: Format := Format(0x10_0000_0000_0000, -1074)
  const SINGLE: Format := Format(0x80_0000, -149)

  /** Normal or subnormal; the largest exponent is left open, so overflow does not interfere. */
  ghost predicate InFormat(format: Format, s: int, e: int) {
    || (format.hidden <= s < 2 * format.hidden && e >= format.bottom)
    || (0 <= s < format.hidden && e == format.bottom)
  }

  /** At a power of two the numbers below are twice as dense, except next to the subnormals. */
  ghost predicate LowerIsCloser(format: Format, s: int, e: int) {
    s == format.hidden && e != format.bottom
  }

  /** y is nearer to the first number than to the second, or in the middle and the first one is even. */
  ghost predicate Prefers(y: real, s: int, e: int, s': int, e': int) {
    var d, d' := Abs(y - Number(s, e)), Abs(y - Number(s', e'));
    d < d' || (d == d' && s % 2 == 0 && s' % 2 == 1)
  }

  /** Rounding y to the nearest number of the format, ties to even, gives this one. */
  ghost predicate ReadsAs(format: Format, y: real, s: int, e: int) {
    forall s', e' :: InFormat(format, s', e') && Number(s', e') != Number(s, e) ==> Prefers(y, s, e, s', e')
  }

  ghost predicate InInterval(format: Format, y: real, s: int, e: int) {
    Between(LowerBoundary(s, e, LowerIsCloser(format, s, e)), UpperBoundary(s, e), s % 2 == 0, y)
  }

  /** At most one number is what y reads as. */
  lemma ReadsAsOne(format: Format, y: real, s: int, e: int, s': int, e': int)
    requires InFormat(format, s, e) && InFormat(format, s', e')
    requires ReadsAs(format, y, s, e) && ReadsAs(format, y, s', e')
    ensures Number(s, e) == Number(s', e')
  {
    hide Number;
    assert Number(s, e) != Number(s', e') ==> Prefers(y, s, e, s', e') && Prefers(y, s', e', s, e);
  }

  // ---------- The neighbours ----------

  /** The distance to the number above, and half the distance below. */
  ghost function GapBelow(format: Format, s: int, e: int): real {
    if LowerIsCloser(format, s, e) then Two(e) / 2.0 else Two(e)
  }

  lemma UnitStep(s: int, e: int)
    ensures Number(s + 1, e) == Number(s, e) + Two(e)
  {
    hide Two;
    RDistribute(s as real, 1.0, Two(e));
  }

  lemma UnitOrder(a: int, b: int, e: int)
    ensures a < b <==> Number(a, e) < Number(b, e)
    ensures a <= b <==> Number(a, e) <= Number(b, e)
    ensures a == b <==> Number(a, e) == Number(b, e)
  {
    hide Two;
    ScaleOrder(a, b, Two(e));
    ScaleOrder(b, a, Two(e));
  }

  /** A number with a larger exponent, in the unit of a smaller one. */
  lemma SmallerUnit(s: int, e: int, unit: int)
    requires unit <= e
    ensures Number(s, e) == Number(s * Pow2(e - unit), unit)
  {
    SameValue(s, e, unit);
  }

  lemma HalfUnit(s: int, e: int)
    ensures Number(2 * s, e - 1) == Number(s, e) && Two(e) == 2.0 * Two(e - 1)
  {
    hide Two;
    SameValue(s, e, e - 1);
    assert Pow2(1) == 2;
    TwoStep(e - 1);
  }

  lemma {:induction false} PowerMultiple(s: int, k: nat)
    ensures (s * Pow2(k)) % 2 == 1 ==> s % 2 == 1
    ensures k >= 1 && s >= 0 ==> 2 * s <= s * Pow2(k)
  {
    if k == 0 {
      assert s * Pow2(0) == s;
    } else {
      PowerMultiple(s, k - 1);
      assert s * Pow2(k) == 2 * (s * Pow2(k - 1)) by { ProductOfThree(s, 2, Pow2(k - 1)); ProductOfThree(2, s, Pow2(k - 1)); }
      assert k == 1 ==> s * Pow2(0) == s;
    }
  }

  /** Numbers with a smaller exponent stay half a unit below the hidden bit. */
  lemma SmallerExponent(format: Format, e: int, s': int, e': int)
    requires format.hidden > 0 && InFormat(format, s', e') && e' < e
    ensures Number(s', e') <= Number(format.hidden, e) - Two(e) / 2.0
    ensures Number(s', e') == Number(format.hidden, e) - Two(e) / 2.0 ==> s' % 2 == 1
  {
    hide Two, Pow2, Number;
    var top := 2 * format.hidden - 1;
    HalfUnit(format.hidden, e);
    UnitStep(top, e - 1);
    if e' == e - 1 {
      UnitOrder(s', top, e - 1);
    } else {
      SmallerUnit(top, e - 1, e');
      PowerMultiple(top, e - 1 - e');
      UnitOrder(s', top * Pow2(e - 1 - e'), e');
    }
  }

  /** A larger number is at least a unit away; at exactly a unit it is odd if this one is even. */
  lemma NumbersAbove(format: Format, s: int, e: int, s': int, e': int)
    requires format.hidden > 0 && InFormat(format, s, e) && InFormat(format, s', e')
    requires Number(s', e') > Number(s, e)
    ensures Number(s', e') >= Number(s, e) + Two(e)
    ensures s % 2 == 0 && Number(s', e') == Number(s, e) + Two(e) ==> s' % 2 == 1
  {
    hide Two, Pow2, Number;
    UnitStep(s, e);
    if e' < e {
      NotAbove(format, s, e, s', e');
    } else {
      var n := s' * Pow2(e' - e);
      SmallerUnit(s', e', e);
      UnitOrder(s, n, e);
      UnitOrder(s + 1, n, e);
      PowerMultiple(s', e' - e);
    }
  }

  lemma NotAbove(format: Format, s: int, e: int, s': int, e': int)
    requires format.hidden > 0 && InFormat(format, s, e) && InFormat(format, s', e') && e' < e
    ensures Number(s', e') < Number(s, e)
  {
    hide Two, Pow2, Number;
    SmallerExponent(format, e, s', e');
    UnitOrder(format.hidden, s, e);
  }

  /** A smaller number is at least the gap away. */
  lemma NumbersBelow(format: Format, s: int, e: int, s': int, e': int)
    requires format.hidden > 0 && InFormat(format, s, e) && InFormat(format, s', e')
    requires Number(s', e') < Number(s, e)
    ensures Number(s', e') <= Number(s, e) - GapBelow(format, s, e)
    ensures s % 2 == 0 && Number(s', e') == Number(s, e) - GapBelow(format, s, e) ==> s' % 2 == 1
  {
    hide Two, Pow2, Number, InFormat;
    if e' < e {
      BelowInBinade(format, s, e, s', e');
    } else {
      BelowInUnits(s, e, s', e');
    }
  }

  lemma BelowInBinade(format: Format, s: int, e: int, s': int, e': int)
    requires format.hidden > 0 && InFormat(format, s, e) && InFormat(format, s', e') && e' < e
    ensures Number(s', e') <= Number(s, e) - GapBelow(format, s, e)
    ensures Number(s', e') == Number(s, e) - GapBelow(format, s, e) ==> s' % 2 == 1
  {
    hide Two, Pow2, Number;
    SmallerExponent(format, e, s', e');
    UnitStep(format.hidden, e);
    UnitOrder(format.hidden + 1, s, e);
  }

  lemma BelowInUnits(s: int, e: int, s': int, e': int)
    requires e <= e' && Number(s', e') < Number(s, e)
    ensures Number(s', e') <= Number(s, e) - Two(e)
    ensures s % 2 == 0 && Number(s', e') == Number(s, e) - Two(e) ==> s' % 2 == 1
  {
    hide Two, Pow2, Number;
    var n := s' * Pow2(e' - e);
    UnitStep(s - 1, e);
    SmallerUnit(s', e', e);
    UnitOrder(n, s, e);
    UnitOrder(n, s - 1, e);
    PowerMultiple(s', e' - e);
  }

  // ---------- The interval ----------

  /** What lies between the boundaries reads as the number. */
  lemma InsideReadsBack(format: Format, y: real, s: int, e: int)
    requires format.hidden > 0 && InFormat(format, s, e) && InInterval(format, y, s, e)
    ensures ReadsAs(format, y, s, e)
  {
    hide Two, Number;
    forall s', e' | InFormat(format, s', e') && Number(s', e') != Number(s, e)
      ensures Prefers(y, s, e, s', e')
    {
      if Number(s', e') > Number(s, e) {
        NumbersAbove(format, s, e, s', e');
      } else {
        NumbersBelow(format, s, e, s', e');
      }
    }
  }

  /** And nothing else does. */
  lemma OutsideReadsOtherwise(format: Format, y: real, s: int, e: int)
    requires format.hidden > 1 && InFormat(format, s, e) && s > 0 && !InInterval(format, y, s, e)
    ensures !ReadsAs(format, y, s, e)
  {
    hide Two, Pow2, Number;
    var full, closer := s + 1 == 2 * format.hidden, LowerIsCloser(format, s, e);
    var up, upE := if full then format.hidden else s + 1, if full then e + 1 else e;
    var down, downE := if closer then 2 * format.hidden - 1 else s - 1, if closer then e - 1 else e;
    UnitStep(s, e);
    HalfUnit(format.hidden, e + 1);
    UnitStep(s - 1, e);
    UnitStep(2 * format.hidden - 1, e - 1);
    HalfUnit(format.hidden, e);
    Decided(y, Number(s, e), Number(up, upE), Number(down, downE), GapBelow(format, s, e), Two(e));
    assert InFormat(format, up, upE) && InFormat(format, down, downE);
    assert !Prefers(y, s, e, up, upE) || !Prefers(y, s, e, down, downE);
  }

  /** Beyond a boundary the neighbour on that side is nearer. */
  lemma Decided(y: real, v: real, up: real, down: real, gap: real, unit: real)
    requires up == v + unit && down == v - gap && unit > 0.0 && gap > 0.0
    ensures y > v + unit / 2.0 ==> Abs(y - up) < Abs(y - v)
    ensures y == v + unit / 2.0 ==> Abs(y - up) == Abs(y - v)
    ensures y < v - gap / 2.0 ==> Abs(y - down) < Abs(y - v)
    ensures y == v - gap / 2.0 ==> Abs(y - down) == Abs(y - v)
  {
  }

  /**
    The decimal reads as the number, none with a larger exponent does, of those
    with its own it is the closest, and of two closest the even one.
   */
  ghost predicate ShortestReading(format: Format, s: int, e: int, w: int, x: int) {
    && ReadsAs(format, Decimal10(w, x), s, e)
    && (forall u: int, z: int :: u >= 1 && z > x ==> !ReadsAs(format, Decimal10(u, z), s, e))
    && (forall u: int :: ReadsAs(format, Decimal10(u, x), s, e) ==>
          Abs(Decimal10(w, x) - Number(s, e)) <= Abs(Decimal10(u, x) - Number(s, e)))
    && (forall u: int | u != w && ReadsAs(format, Decimal10(u, x), s, e) ::
          Abs(Decimal10(u, x) - Number(s, e)) == Abs(Decimal10(w, x) - Number(s, e)) ==> w % 2 == 0)
  }

  lemma ShortestReadsBack(format: Format, s: int, e: int, w: int, x: int)
    requires format.hidden > 1 && InFormat(format, s, e) && s > 0
    requires IsShortest(Number(s, e), LowerBoundary(s, e, LowerIsCloser(format, s, e)), UpperBoundary(s, e),
                        s % 2 == 0, w, x)
    ensures ShortestReading(format, s, e, w, x)
  {
    hide Two, Ten, Number, ReadsAs, UpperBoundary, LowerBoundary, Decimal10;
    InsideReadsBack(format, Decimal10(w, x), s, e);
    forall u: int | ReadsAs(format, Decimal10(u, x), s, e)
      ensures Abs(Decimal10(w, x) - Number(s, e)) <= Abs(Decimal10(u, x) - Number(s, e))
      ensures u != w && Abs(Decimal10(u, x) - Number(s, e)) == Abs(Decimal10(w, x) - Number(s, e)) ==> w % 2 == 0
    {
      if !InInterval(format, Decimal10(u, x), s, e) { OutsideReadsOtherwise(format, Decimal10(u, x), s, e); }
    }
    forall u: int, z: int | u >= 1 && z > x
      ensures !ReadsAs(format, Decimal10(u, z), s, e)
    {
      OutsideReadsOtherwise(format, Decimal10(u, z), s, e);
    }
  }

  /** However the point is placed, no string of fewer digits reads as the number. */
  ghost predicate FewestDigits(format: Format, s: int, e: int, length: nat) {
    forall t: seq<int>, z: int :: IsDecimal(t) && ReadsAs(format, Decimal10(Dec(t), z), s, e) ==> |t| >= length
  }

  lemma ShortestIsFewest(format: Format, s: int, e: int, digits: seq<int>, x: int)
    requires format.hidden > 1 && InFormat(format, s, e) && s > 0
    requires IsDecimal(digits) && |digits| > 0 && digits[0] != ZERO && ShortestReading(format, s, e, Dec(digits), x)
    ensures FewestDigits(format, s, e, |digits|)
  {
    hide ReadsAs, Dec, Decimal10, ShortestReading;
    forall t: seq<int>, z: int | IsDecimal(t) && ReadsAs(format, Decimal10(Dec(t), z), s, e)
      ensures |t| >= |digits|
    {
      AsManyDigits(format, s, e, digits, x, t, z);
    }
  }

  /** Between the two there would be a power of ten, which is a coarser decimal. */
  lemma AsManyDigits(format: Format, s: int, e: int, digits: seq<int>, x: int, t: seq<int>, z: int)
    requires format.hidden > 1 && InFormat(format, s, e) && s > 0
    requires IsDecimal(digits) && |digits| > 0 && digits[0] != ZERO && ShortestReading(format, s, e, Dec(digits), x)
    requires IsDecimal(t) && ReadsAs(format, Decimal10(Dec(t), z), s, e)
    ensures |t| >= |digits|
  {
    hide Two, Ten, Number, ReadsAs, UpperBoundary, LowerBoundary, Dec, Pow10, Decimal10;
    var n, w, y := |digits| - 1, Decimal10(Dec(digits), x), Decimal10(Dec(t), z);
    if !InInterval(format, w, s, e) { OutsideReadsOtherwise(format, w, s, e); }
    if !InInterval(format, y, s, e) { OutsideReadsOtherwise(format, y, s, e); }
    PositiveDigits(Dec(t), z) by { LowerBoundaryPositive(s, e, LowerIsCloser(format, s, e)); }
    DecBound(t);
    LeadingDigit(digits);
    PowZero();
    if |t| <= n {
      Separated(Dec(t), z, |t|, Dec(digits), x, n);
      InsideReadsBack(format, Decimal10(1, x + n), s, e);
    }
  }

  lemma Separated(d: int, z: int, m: nat, w: int, x: int, n: nat)
    requires 1 <= d < Pow10(m) && m <= n && Pow10(n) <= w && z <= x
    ensures Decimal10(d, z) < Decimal10(1, x + n) <= Decimal10(w, x)
  {
    hide Ten, Pow10;
    var p, below := Pow10(n) as real, (Pow10(n) as real) * Ten(z);
    Pow10Grows(m, n);
    InOrder(d, Pow10(n), Ten(z), Decimal10(d, z), below);
    TenMonotone(z, x);
    RMonotone(Ten(z), Ten(x), p);
    RCommute(Ten(z), p);
    RCommute(Ten(x), p);
    TenAdd(x, n);
    InOrder(Pow10(n), w, Ten(x), Ten(x + n), Decimal10(w, x));
  }
}
