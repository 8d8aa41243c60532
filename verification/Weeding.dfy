/**
  What the fast digit generator may conclude from imprecise numbers: a decimal
  that is safely inside the interval and closest whatever the exact numbers are.
 */
module Weeding {
  import opened Positional
  import opened DigitLoops
  import opened Decimal
  import opened RealPowers
  import opened ShortestDecimal
  import opened Rounding

  // ---------- Strictly shortest decimals ----------

  /** Strictly inside, nothing coarser even on the boundary, and strictly closer than all others. */
  ghost predicate StrictlyShortest(v: real, lo: real, hi: real, w: int, x: int) {
    && lo < Decimal10(w, x) < hi
    && NothingCoarser(lo, hi, true, x)
    && forall u: int :: u != w && Between(lo, hi, true, Decimal10(u, x)) ==>
         Abs(Decimal10(w, x) - v) < Abs(Decimal10(u, x) - v)
  }

  /** Such a decimal is the shortest one whether or not the boundaries belong to the interval. */
  lemma StrictIsShortest(v: real, lo: real, hi: real, w: int, x: int, closed: bool)
    requires StrictlyShortest(v, lo, hi, w, x)
    ensures IsShortest(v, lo, hi, closed, w, x)
  {
    forall u: int, y: int | u >= 1 && y > x
      ensures !Between(lo, hi, closed, Decimal10(u, y))
    {
      assert !Between(lo, hi, true, Decimal10(u, y));
    }
    forall u: int | Between(lo, hi, closed, Decimal10(u, x))
      ensures Abs(Decimal10(w, x) - v) <= Abs(Decimal10(u, x) - v)
    {
      assert Between(lo, hi, true, Decimal10(u, x));
    }
  }

  /** And it is the only one, so the exact algorithm finds the same digits at the same place. */
  lemma SameAsExact(v: real, lo: real, hi: real, closed: bool, w: int, x: int, w': int, x': int)
    requires StrictlyShortest(v, lo, hi, w, x) && IsShortest(v, lo, hi, closed, w', x') && 0.0 < lo
    ensures w == w' && x == x'
  {
    assert Between(lo, hi, true, Decimal10(w', x'));
    assert Between(lo, hi, closed, Decimal10(w, x));
    PositiveDigits(w, x);
    PositiveDigits(w', x');
  }

  // ---------- Weeding ----------

  /**
    What the weeding test leaves: `rest` units below the high end lie two units
    inside it and four inside the low end; the neighbours one digit up and down
    are outside or farther from every admissible number.
   */
  ghost predicate Weeded(rest: int, tenKappa: int, unsafe: int, distance: int, unit: int) {
    && 2 * unit <= rest <= unsafe - 4 * unit
    && (rest < tenKappa || 2 * rest - tenKappa <= 2 * (distance - unit))
    && (rest + tenKappa > unsafe || 2 * rest + tenKappa >= 2 * (distance + unit))
  }

  /** The decimal u, in units of tenKappa below the whole, passes the weeding test. */
  ghost predicate Acceptable(whole: int, tenKappa: int, unsafe: int, distance: int, unit: int, u: int) {
    Weeded(whole - u * tenKappa, tenKappa, unsafe, distance, unit)
  }

  ghost predicate SomeAcceptable(whole: int, tenKappa: int, unsafe: int, distance: int, unit: int) {
    exists u :: Acceptable(whole, tenKappa, unsafe, distance, unit, u)
  }

  /** Where the loop stops is the only decimal that can pass. */
  lemma OnlyCandidate(whole: int, tenKappa: int, unsafe: int, distance: int, unit: int, D: int, rest: int, u: int)
    requires 0 < unit && 0 < tenKappa && D * tenKappa + rest == whole && 0 <= rest <= unsafe
    requires rest < tenKappa || 2 * rest - tenKappa <= 2 * (distance - unit)
    requires rest + tenKappa > unsafe || 2 * rest + tenKappa > 2 * (distance - unit)
    requires Acceptable(whole, tenKappa, unsafe, distance, unit, u)
    ensures u == D
  {
    if u != D {
      Apart(D, u, tenKappa);
      NoOther(D * tenKappa, u * tenKappa, whole, tenKappa, unsafe, distance, unit, rest);
    }
  }

  lemma NoOther(x: int, y: int, whole: int, tenKappa: int, unsafe: int, distance: int, unit: int, rest: int)
    requires 0 < unit && 0 < tenKappa && x + rest == whole && 0 <= rest <= unsafe
    requires rest < tenKappa || 2 * rest - tenKappa <= 2 * (distance - unit)
    requires rest + tenKappa > unsafe || 2 * rest + tenKappa > 2 * (distance - unit)
    requires x + tenKappa <= y || y + tenKappa <= x
    ensures !Weeded(whole - y, tenKappa, unsafe, distance, unit)
  {
  }

  method RoundWeed(buffer: array<int>, length: nat, distance: int, unsafe: int, rest0: int, tenKappa: int, unit: int)
      returns (ok: bool, ghost rest: int)
    requires 1 <= length <= buffer.Length && IsDecimal(buffer[..length])
    requires 0 < unit <= distance && distance + unit <= unsafe < TWO64 && 4 * unit <= unsafe
    requires 0 <= rest0 <= unsafe && rest0 < tenKappa < TWO64
    requires unsafe <= (buffer[length - 1] - ZERO) * tenKappa + rest0
    modifies buffer
    ensures IsDecimal(buffer[..length]) && rest0 <= rest
    ensures Dec(buffer[..length]) * tenKappa + rest == old(Dec(buffer[..length])) * tenKappa + rest0
    ensures buffer[..length - 1] == old(buffer[..length - 1])
    ensures ok ==> Weeded(rest, tenKappa, unsafe, distance, unit)
    ensures ok <==> SomeAcceptable(old(Dec(buffer[..length])) * tenKappa + rest0, tenKappa, unsafe, distance, unit)
  {
    hide Dec, SomeAcceptable;
    var smallDistance := distance - unit;
    var bigDistance := distance + unit;
    var remaining := rest0;
    ghost var whole := Dec(buffer[..length]) * tenKappa + rest0;
    while remaining < smallDistance && unsafe - remaining >= tenKappa
        && (remaining + tenKappa < smallDistance || smallDistance - remaining >= remaining + tenKappa - smallDistance)
      invariant rest0 <= remaining <= unsafe
      invariant IsDecimal(buffer[..length])
      invariant buffer[..length - 1] == old(buffer[..length - 1])
      invariant unsafe <= (buffer[length - 1] - ZERO) * tenKappa + remaining
      invariant Dec(buffer[..length]) * tenKappa + remaining == whole
      invariant remaining < tenKappa || 2 * remaining - tenKappa <= 2 * smallDistance
      decreases unsafe - remaining
    {
      assert remaining + tenKappa < TWO64;
      ghost var s, c := buffer[..length], buffer[length - 1];
      DigitLeft(c - ZERO, tenKappa, unsafe, remaining);
      DecUpdate(s, length - 1, c - 1);
      DecrementTimes(Dec(s), c - ZERO, tenKappa);
      buffer[length - 1] := buffer[length - 1] - 1;
      assert buffer[..length] == s[length - 1 := c - 1];
      remaining := remaining + tenKappa;
    }
    rest := remaining;
    AcceptedIfSafe(whole, tenKappa, unsafe, distance, unit, Dec(buffer[..length]), rest);
    if remaining < bigDistance && unsafe - remaining >= tenKappa
      && (remaining + tenKappa < bigDistance || bigDistance - remaining > remaining + tenKappa - bigDistance)
    {
      return false, rest;
    }
    ok := 2 * unit <= remaining && remaining <= unsafe - 4 * unit;
  }

  lemma AcceptedIfSafe(whole: int, tenKappa: int, unsafe: int, distance: int, unit: int, D: int, rest: int)
    requires 0 < unit && 0 < tenKappa && D * tenKappa + rest == whole && 0 <= rest <= unsafe
    requires rest < tenKappa || 2 * rest - tenKappa <= 2 * (distance - unit)
    requires rest + tenKappa > unsafe || 2 * rest + tenKappa > 2 * (distance - unit)
    ensures Weeded(rest, tenKappa, unsafe, distance, unit) <==>
      SomeAcceptable(whole, tenKappa, unsafe, distance, unit)
  {
    hide Weeded;
    if Weeded(rest, tenKappa, unsafe, distance, unit) {
      assert Acceptable(whole, tenKappa, unsafe, distance, unit, D);
    } else {
      forall u
        ensures !Acceptable(whole, tenKappa, unsafe, distance, unit, u)
      {
        if Acceptable(whole, tenKappa, unsafe, distance, unit, u) {
          OnlyCandidate(whole, tenKappa, unsafe, distance, unit, D, rest, u);
        }
      }
    }
  }

  lemma DigitLeft(digit: int, tenKappa: int, unsafe: int, rest: int)
    requires unsafe <= digit * tenKappa + rest && unsafe - rest >= tenKappa > 0
    ensures digit >= 1
  {
    if digit <= 0 { MulMonotone(digit, 0, tenKappa); }
  }

  lemma DecrementTimes(d: int, digit: int, tenKappa: int)
    ensures (d - 1) * tenKappa == d * tenKappa - tenKappa
    ensures (digit - 1) * tenKappa == digit * tenKappa - tenKappa
    ensures Pow10(0) == 1
  {
  }

  // ---------- From units to numbers ----------

  /**
    The high end T, in units of 2^e that are each divided in `unit` parts, is D
    decimal units of 10^kappa, tenKappa parts each, and `rest` parts.
   */
  ghost predicate Split(T: int, e: int, D: int, rest: int, tenKappa: int, unit: int, kappa: int) {
    && unit > 0 && tenKappa > 0
    && T * unit == D * tenKappa + rest
    && (tenKappa as real) * Two(e) == Ten(kappa) * (unit as real)
  }

  /** One more digit: units are divided by m so that ten of the new decimal units make an old one. */
  lemma Finer(T: int, e: int, D: int, rest: int, tenKappa: int, unit: int, kappa: int,
              m: int, tenKappa': int, digit: int, rest': int)
    requires Split(T, e, D, rest, tenKappa, unit, kappa)
    requires m > 0 && tenKappa' > 0 && 10 * tenKappa' == tenKappa * m && rest * m == digit * tenKappa' + rest'
    ensures Split(T, e, 10 * D + digit, rest', tenKappa', unit * m, kappa - 1)
  {
    hide Two, Ten;
    FinerInteger(T, D, rest, tenKappa, unit, m, tenKappa', digit, rest');
    TenStep(kappa - 1);
    var t, u, f, y := tenKappa as real, unit as real, Ten(kappa - 1), Two(e);
    IntProduct(unit, m);
    IntProduct(tenKappa, m);
    FinerReal(t, u, f, y, m as real, tenKappa' as real);
  }

  lemma FinerInteger(T: int, D: int, rest: int, tenKappa: int, unit: int, m: int, tenKappa': int, digit: int, rest': int)
    requires T * unit == D * tenKappa + rest && 10 * tenKappa' == tenKappa * m && rest * m == digit * tenKappa' + rest'
    requires unit > 0 && m > 0
    ensures T * (unit * m) == (10 * D + digit) * tenKappa' + rest' && unit * m > 0
  {
    assert T * (unit * m) == (T * unit) * m;
    assert (D * tenKappa + rest) * m == D * (tenKappa * m) + rest * m;
    assert D * (10 * tenKappa') == (10 * D) * tenKappa';
    assert (10 * D + digit) * tenKappa' == (10 * D) * tenKappa' + digit * tenKappa';
    MulMonotone(1, unit, m);
  }

  lemma FinerReal(t: real, u: real, f: real, y: real, m: real, t': real)
    requires t * y == (10.0 * f) * u && 10.0 * t' == t * m
    ensures t' * y == f * (u * m)
  {
    RAssoc(10.0, t', y);
    RAssoc(y, t, m);
    RCommute(y, t);
    RCommute(t * m, y);
    RAssoc(10.0, f, u);
    RAssoc(10.0, f * u, m);
    RAssoc(f, u, m);
    assert 10.0 * (t' * y) == 10.0 * (f * (u * m));
  }

  /** The parts of a unit as a number. */
  ghost function Grain(e: int, unit: int): (c: real)
    requires unit > 0
    ensures c > 0.0 && c * (unit as real) == Two(e)
  {
    Two(e) / (unit as real)
  }

  /** x decimal units as parts. */
  lemma InGrains(T: int, e: int, D: int, rest: int, tenKappa: int, unit: int, kappa: int, x: int)
    requires Split(T, e, D, rest, tenKappa, unit, kappa)
    ensures Decimal10(x, kappa) == ((x * tenKappa) as real) * Grain(e, unit)
  {
    hide Two, Ten, Grain;
    var c, t, u := Grain(e, unit), tenKappa as real, unit as real;
    RAssoc(t, c, u);
    RCancel(t * c, Ten(kappa), u);
    IntProduct(x, tenKappa);
    RAssoc(x as real, t, c);
  }

  /** x whole units as parts. */
  lemma UnitsInGrains(x: int, e: int, unit: int)
    requires unit > 0
    ensures (x as real) * Two(e) == ((x * unit) as real) * Grain(e, unit)
  {
    hide Two, Grain;
    IntProduct(x, unit);
    RCommute(unit as real, Grain(e, unit));
    RAssoc(x as real, unit as real, Grain(e, unit));
  }

  /** No decimal with exponent k or more lies above a and not above b. */
  ghost predicate Emptied(a: real, b: real, k: int) {
    forall u: int, j: int :: u >= 1 && j >= k ==> !(a < Decimal10(u, j) <= b)
  }

  /** The largest decimal below the high end is below the low end already. */
  lemma StillEmpty(T: int, U: int, e: int, D: int, rest: int, tenKappa: int, unit: int, kappa: int, a: real, b: real)
    requires Split(T, e, D, rest, tenKappa, unit, kappa) && U * unit <= rest < tenKappa
    requires a == ((T - U) as real) * Two(e) && b == (T as real) * Two(e)
    requires Emptied(a, b, kappa + 1)
    ensures Emptied(a, b, kappa)
  {
    hide Two;
    forall u: int, j: int | u >= 1 && j >= kappa
      ensures !(a < Decimal10(u, j) <= b)
    {
      if j == kappa {
        EmptyHere(T, U, e, D, rest, tenKappa, unit, kappa, u);
      }
    }
  }

  lemma EmptyHere(T: int, U: int, e: int, D: int, rest: int, tenKappa: int, unit: int, kappa: int, u: int)
    requires Split(T, e, D, rest, tenKappa, unit, kappa) && U * unit <= rest < tenKappa
    ensures !(((T - U) as real) * Two(e) < Decimal10(u, kappa) <= (T as real) * Two(e))
  {
    hide Two, Ten, Grain, Split, Decimal10;
    SplitParts(T, e, D, rest, tenKappa, unit, kappa);
    var c := Grain(e, unit);
    InGrains(T, e, D, rest, tenKappa, unit, kappa, u);
    UnitsInGrains(T, e, unit);
    UnitsInGrains(T - U, e, unit);
    NoneBetween(T, U, D, rest, tenKappa, unit, u);
    InOrder(u * tenKappa, (T - U) * unit, c, Decimal10(u, kappa), ((T - U) as real) * Two(e));
    InOrder(T * unit, u * tenKappa, c, (T as real) * Two(e), Decimal10(u, kappa));
  }

  lemma SplitParts(T: int, e: int, D: int, rest: int, tenKappa: int, unit: int, kappa: int)
    requires Split(T, e, D, rest, tenKappa, unit, kappa)
    ensures T * unit == D * tenKappa + rest && unit > 0 && tenKappa > 0
  {
  }

  lemma NoneBetween(T: int, U: int, D: int, rest: int, tenKappa: int, unit: int, u: int)
    requires T * unit == D * tenKappa + rest && U * unit <= rest < tenKappa && 0 < tenKappa
    ensures u * tenKappa <= (T - U) * unit || T * unit < u * tenKappa
  {
    assert (T - U) * unit == T * unit - U * unit;
    assert (D + 1) * tenKappa == D * tenKappa + tenKappa;
    if u <= D { MulMonotone(u, D, tenKappa); } else { MulMonotone(D + 1, u, tenKappa); }
  }

  /** A decimal of this size lies above a and not above b, and none of a larger one does. */
  ghost predicate Coarsest(a: real, b: real, k: int) {
    Emptied(a, b, k + 1) && !Emptied(a, b, k)
  }

  /** The digits cut off the high end are a decimal above the low end. */
  lemma IsCoarsest(T: int, U: int, e: int, D: int, rest: int, tenKappa: int, unit: int, kappa: int, a: real, b: real)
    requires Split(T, e, D, rest, tenKappa, unit, kappa) && 0 <= rest < U * unit && 0 <= T - U
    requires a == ((T - U) as real) * Two(e) && b == (T as real) * Two(e)
    requires Emptied(a, b, kappa + 1)
    ensures Coarsest(a, b, kappa)
  {
    hide Two, Ten, Grain, Split, Decimal10;
    SplitParts(T, e, D, rest, tenKappa, unit, kappa);
    var c := Grain(e, unit);
    InGrains(T, e, D, rest, tenKappa, unit, kappa, D);
    UnitsInGrains(T, e, unit);
    UnitsInGrains(T - U, e, unit);
    assert (T - U) * unit == T * unit - U * unit;
    InOrder((T - U) * unit, D * tenKappa, c, a, Decimal10(D, kappa));
    InOrder(D * tenKappa, T * unit, c, Decimal10(D, kappa), b);
    ScaleOrder(0, T - U, Two(e));
    PositiveDigits(D, kappa);
  }

  /** Everything below 10^k holds no decimal of that size. */
  lemma EmptyAbove(a: real, b: real, k: int)
    requires b < Ten(k)
    ensures Emptied(a, b, k)
  {
    hide Ten, Pow10;
    forall u: int, j: int | u >= 1 && j >= k
      ensures !(a < Decimal10(u, j) <= b)
    {
      TenAdd(k, j - k);
      TenAtLeast(Ten(k), Pow10(j - k), u, Ten(j));
    }
  }

  // ---------- The conclusion ----------

  /** The exact number is less than a unit away. */
  ghost predicate Near(x: real, f: int, e: int) {
    ((f - 1) as real) * Two(e) < x < ((f + 1) as real) * Two(e)
  }

  /**
    A decimal y that can be trusted although low, w and high are off by up to a
    unit: it lies well inside, and the next one up or down, t away, is outside
    for certain or farther from w for certain.
   */
  ghost predicate Trusted(y: real, t: real, inLow: real, inHigh: real, outLow: real, outHigh: real,
                          below: real, above: real)
  {
    && inLow <= y <= inHigh
    && (y + t > outHigh || 2.0 * y + t >= 2.0 * above)
    && (y - t < outLow || 2.0 * y - t <= 2.0 * below)
  }

  ghost function Units(x: int, e: int): real {
    (x as real) * Two(e)
  }

  ghost predicate Certain(low: int, w: int, high: int, e: int, u: int, kappa: int) {
    Trusted(Decimal10(u, kappa), Ten(kappa), Units(low + 3, e), Units(high - 1, e), Units(low - 1, e),
            Units(high + 1, e), Units(w - 1, e), Units(w + 1, e))
  }

  /** In parts of a unit that is the weeding test. */
  lemma CertainInParts(low: int, w: int, high: int, e: int, D: int, rest: int, tenKappa: int, unit: int, kappa: int, u: int)
    requires Split(high + 1, e, D, rest, tenKappa, unit, kappa)
    ensures Certain(low, w, high, e, u, kappa) <==>
      Acceptable((high + 1) * unit, tenKappa, (high - low + 2) * unit, (high + 1 - w) * unit, unit, u)
  {
    hide Two, Ten, Grain, Split, Decimal10, Trusted, Weeded;
    SplitParts(high + 1, e, D, rest, tenKappa, unit, kappa);
    var c := Grain(e, unit);
    InGrains(high + 1, e, D, rest, tenKappa, unit, kappa, u);
    InGrains(high + 1, e, D, rest, tenKappa, unit, kappa, 1);
    OneDecimal(kappa);
    UnitsInGrains(low + 3, e, unit);
    UnitsInGrains(high - 1, e, unit);
    UnitsInGrains(low - 1, e, unit);
    UnitsInGrains(high + 1, e, unit);
    UnitsInGrains(w - 1, e, unit);
    UnitsInGrains(w + 1, e, unit);
    PartsOf(low, w, high, unit);
    TrustedInParts(u * tenKappa, tenKappa, (low + 3) * unit, (high - 1) * unit, (low - 1) * unit, (high + 1) * unit,
                   (w - 1) * unit, (w + 1) * unit, c,
                   Decimal10(u, kappa), Ten(kappa), Units(low + 3, e), Units(high - 1, e), Units(low - 1, e),
                   Units(high + 1, e), Units(w - 1, e), Units(w + 1, e));
    WeededIs(u * tenKappa, tenKappa, low * unit, w * unit, high * unit, unit);
  }

  lemma OneDecimal(kappa: int)
    ensures Decimal10(1, kappa) == Ten(kappa)
  {
  }

  lemma PartsOf(low: int, w: int, high: int, unit: int)
    ensures (low + 3) * unit == low * unit + 3 * unit && (low - 1) * unit == low * unit - unit
    ensures (high - 1) * unit == high * unit - unit && (high + 1) * unit == high * unit + unit
    ensures (w + 1) * unit == w * unit + unit && (w - 1) * unit == w * unit - unit
    ensures (high - low + 2) * unit == high * unit - low * unit + 2 * unit
    ensures (high + 1 - w) * unit == high * unit + unit - w * unit
  {
  }

  /** The same comparisons on parts. */
  ghost predicate TrustedParts(y: int, t: int, inLow: int, inHigh: int, outLow: int, outHigh: int, below: int, above: int) {
    && inLow <= y <= inHigh
    && (y + t > outHigh || 2 * y + t >= 2 * above)
    && (y - t < outLow || 2 * y - t <= 2 * below)
  }

  lemma WeededIs(y: int, t: int, low: int, w: int, high: int, unit: int)
    ensures Weeded(high + unit - y, t, high - low + 2 * unit, high + unit - w, unit) <==>
      TrustedParts(y, t, low + 3 * unit, high - unit, low - unit, high + unit, w - unit, w + unit)
  {
  }

  lemma TrustedInParts(y: int, t: int, inLow: int, inHigh: int, outLow: int, outHigh: int, below: int, above: int, c: real,
                       y': real, t': real, inLow': real, inHigh': real, outLow': real, outHigh': real, below': real,
                       above': real)
    requires c > 0.0 && y' == (y as real) * c && t' == (t as real) * c
    requires inLow' == (inLow as real) * c && inHigh' == (inHigh as real) * c
    requires outLow' == (outLow as real) * c && outHigh' == (outHigh as real) * c
    requires below' == (below as real) * c && above' == (above as real) * c
    ensures Trusted(y', t', inLow', inHigh', outLow', outHigh', below', above')
       <==> TrustedParts(y, t, inLow, inHigh, outLow, outHigh, below, above)
  {
    SumInParts(y, t, c, y', t');
    TwiceInParts(above, c, above');
    TwiceInParts(below, c, below');
    InOrder(inLow, y, c, inLow', y');
    InOrder(y, inHigh, c, y', inHigh');
    InOrder(outHigh, y + t, c, outHigh', y' + t');
    InOrder(y - t, outLow, c, y' - t', outLow');
    InOrder(2 * above, 2 * y + t, c, 2.0 * above', 2.0 * y' + t');
    InOrder(2 * y - t, 2 * below, c, 2.0 * y' - t', 2.0 * below');
  }

  lemma SumInParts(y: int, t: int, c: real, y': real, t': real)
    requires y' == (y as real) * c && t' == (t as real) * c
    ensures y' + t' == ((y + t) as real) * c && y' - t' == ((y - t) as real) * c
    ensures 2.0 * y' + t' == ((2 * y + t) as real) * c && 2.0 * y' - t' == ((2 * y - t) as real) * c
  {
    TwiceInParts(y, c, y');
    RDistribute(y as real, t as real, c);
    RDistribute((2 * y) as real, t as real, c);
  }

  lemma TwiceInParts(y: int, c: real, y': real)
    requires y' == (y as real) * c
    ensures 2.0 * y' == ((2 * y) as real) * c
  {
    RAssoc(2.0, y as real, c);
  }

  /** There is such a decimal. */
  ghost predicate Agreed(low: int, w: int, high: int, e: int, kappa: int) {
    exists u :: Certain(low, w, high, e, u, kappa)
  }

  lemma AgreedInParts(low: int, w: int, high: int, e: int, D: int, rest: int, tenKappa: int, unit: int, kappa: int)
    requires Split(high + 1, e, D, rest, tenKappa, unit, kappa)
    ensures Agreed(low, w, high, e, kappa) <==>
      SomeAcceptable((high + 1) * unit, tenKappa, (high - low + 2) * unit, (high + 1 - w) * unit, unit)
  {
    hide Split, Certain, Acceptable;
    var whole, unsafe, distance := (high + 1) * unit, (high - low + 2) * unit, (high + 1 - w) * unit;
    forall u
      ensures Certain(low, w, high, e, u, kappa) <==> Acceptable(whole, tenKappa, unsafe, distance, unit, u)
    {
      CertainInParts(low, w, high, e, D, rest, tenKappa, unit, kappa, u);
    }
  }

  /** A weeded decimal lies strictly between the exact boundaries. */
  lemma StrictlyInside(low: int, high: int, e: int, D: int, rest: int, tenKappa: int, unit: int, kappa: int,
                       lo: real, hi: real)
    requires Split(high + 1, e, D, rest, tenKappa, unit, kappa)
    requires 2 * unit <= rest <= (high - low + 2) * unit - 4 * unit
    requires Near(lo, low, e) && Near(hi, high, e)
    ensures lo < Decimal10(D, kappa) < hi
  {
    hide Two, Ten, Grain;
    var c := Grain(e, unit);
    InGrains(high + 1, e, D, rest, tenKappa, unit, kappa, D);
    UnitsInGrains(low + 1, e, unit);
    UnitsInGrains(high - 1, e, unit);
    UnitSteps(low, high, unit);
    ScaleOrder((low + 1) * unit, D * tenKappa, c);
    ScaleOrder(D * tenKappa, (high - 1) * unit, c);
  }

  lemma UnitSteps(low: int, high: int, unit: int)
    ensures (high + 1) * unit == high * unit + unit && (high - 1) * unit == high * unit - unit
    ensures (low + 1) * unit == low * unit + unit && (low - 1) * unit == low * unit - unit
    ensures (high - low + 2) * unit == high * unit - low * unit + 2 * unit
  {
  }

  /** Of two decimals, in parts of a unit: their middle is on the far side of all admissible numbers. */
  lemma MiddleIsBeyond(w: int, high: int, D: int, rest: int, tenKappa: int, unit: int, unsafe: int, u: int)
    requires (high + 1) * unit == D * tenKappa + rest && 0 < tenKappa && u != D
    requires Weeded(rest, tenKappa, unsafe, (high + 1 - w) * unit, unit)
    requires 0 <= (high + 1) * unit - u * tenKappa <= unsafe
    ensures u < D ==> u * tenKappa < D * tenKappa && D * tenKappa + u * tenKappa <= 2 * ((w - 1) * unit)
    ensures u > D ==> D * tenKappa < u * tenKappa && D * tenKappa + u * tenKappa >= 2 * ((w + 1) * unit)
  {
    hide Weeded;
    UnitSteps(w, high, unit);
    Distances(w, high, unit);
    Apart(D, u, tenKappa);
    Sums((high + 1) * unit, w * unit, D * tenKappa, u * tenKappa, rest, tenKappa, unsafe, unit);
  }

  lemma NearInGrains(v: real, w: int, e: int, unit: int)
    requires Near(v, w, e) && unit > 0
    ensures (((w - 1) * unit) as real) * Grain(e, unit) < v < (((w + 1) * unit) as real) * Grain(e, unit)
  {
    hide Two, Grain;
    UnitsInGrains(w - 1, e, unit);
    UnitsInGrains(w + 1, e, unit);
  }

  /** Of two decimals the one nearer to every number between the small and the big distance. */
  lemma Nearer(w: int, high: int, e: int, D: int, rest: int, tenKappa: int, unit: int, kappa: int, unsafe: int,
               v: real, u: int)
    requires Split(high + 1, e, D, rest, tenKappa, unit, kappa)
    requires Weeded(rest, tenKappa, unsafe, (high + 1 - w) * unit, unit) && Near(v, w, e) && u != D
    requires 0 <= (high + 1) * unit - u * tenKappa <= unsafe
    ensures Abs(Decimal10(D, kappa) - v) < Abs(Decimal10(u, kappa) - v)
  {
    hide Two, Ten, Grain, Split, Near, Weeded, Decimal10, Abs;
    SplitParts(high + 1, e, D, rest, tenKappa, unit, kappa);
    NearInGrains(v, w, e, unit);
    InGrains(high + 1, e, D, rest, tenKappa, unit, kappa, D);
    InGrains(high + 1, e, D, rest, tenKappa, unit, kappa, u);
    MiddleIsBeyond(w, high, D, rest, tenKappa, unit, unsafe, u);
    NearerInGrains(D * tenKappa, u * tenKappa, (w - 1) * unit, (w + 1) * unit, Grain(e, unit), v,
                   Decimal10(D, kappa), Decimal10(u, kappa));
  }

  /** x is nearer than y to all that lies between a and b, in parts. */
  lemma NearerInGrains(x: int, y: int, a: int, b: int, c: real, v: real, dx: real, dy: real)
    requires c > 0.0 && (a as real) * c < v < (b as real) * c && dx == (x as real) * c && dy == (y as real) * c
    requires (y < x && x + y <= 2 * a) || (x < y && x + y >= 2 * b)
    ensures Abs(dx - v) < Abs(dy - v)
  {
    hide Abs;
    if y < x {
      NearerAbove(x, y, a, c, v, dx, dy);
    } else {
      NearerBelow(x, y, b, c, v, dx, dy);
    }
  }

  lemma Apart(x: int, y: int, t: int)
    requires t > 0 && x != y
    ensures x < y ==> x * t + t <= y * t
    ensures y < x ==> y * t + t <= x * t
  {
    if x < y { MulMonotone(x + 1, y, t); } else { MulMonotone(y + 1, x, t); }
    assert (x + 1) * t == x * t + t && (y + 1) * t == y * t + t;
  }

  /** The middle of two candidates is on the far side of the admissible numbers. */
  lemma Sums(top: int, middle: int, x: int, y: int, rest: int, tenKappa: int, unsafe: int, unit: int)
    requires top == x + rest && Weeded(rest, tenKappa, unsafe, top - middle, unit) && 0 <= top - y <= unsafe
    requires y + tenKappa <= x || x + tenKappa <= y
    ensures y + tenKappa <= x ==> x + y <= 2 * (middle - unit)
    ensures x + tenKappa <= y ==> x + y >= 2 * (middle + unit)
  {
  }

  lemma Distances(w: int, high: int, unit: int)
    ensures (high + 1 - w) * unit == high * unit + unit - w * unit
  {
  }

  lemma NearerAbove(x: int, y: int, z: int, c: real, v: real, dx: real, dy: real)
    requires c > 0.0 && y < x && x + y <= 2 * z && (z as real) * c < v
    requires dx == (x as real) * c && dy == (y as real) * c
    ensures Abs(dx - v) < Abs(dy - v)
  {
    InOrder(y, x, c, dy, dx);
    TwiceScaled(x, y, z, c, dx, dy);
    InOrder(x + y, 2 * z, c, dx + dy, 2.0 * ((z as real) * c));
  }

  lemma TwiceScaled(x: int, y: int, z: int, c: real, dx: real, dy: real)
    requires dx == (x as real) * c && dy == (y as real) * c
    ensures dx + dy == ((x + y) as real) * c && 2.0 * ((z as real) * c) == ((2 * z) as real) * c
  {
    RDistribute(x as real, y as real, c);
    RAssoc(2.0, z as real, c);
  }

  lemma NearerBelow(x: int, y: int, z: int, c: real, v: real, dx: real, dy: real)
    requires c > 0.0 && x < y && x + y >= 2 * z && v < (z as real) * c
    requires dx == (x as real) * c && dy == (y as real) * c
    ensures Abs(dx - v) < Abs(dy - v)
  {
    InOrder(x, y, c, dx, dy);
    TwiceScaled(x, y, z, c, dx, dy);
    InOrder(2 * z, x + y, c, 2.0 * ((z as real) * c), dx + dy);
  }

  /** A decimal between the exact boundaries lies in the unsafe interval. */
  lemma InsideUnsafe(low: int, high: int, e: int, D: int, rest: int, tenKappa: int, unit: int, kappa: int,
                     lo: real, hi: real, u: int)
    requires Split(high + 1, e, D, rest, tenKappa, unit, kappa)
    requires Near(lo, low, e) && Near(hi, high, e) && lo <= Decimal10(u, kappa) <= hi
    ensures 0 <= (high + 1) * unit - u * tenKappa <= (high - low + 2) * unit
  {
    hide Two, Ten, Grain;
    var c := Grain(e, unit);
    InGrains(high + 1, e, D, rest, tenKappa, unit, kappa, u);
    UnitsInGrains(low - 1, e, unit);
    UnitsInGrains(high + 1, e, unit);
    UnitSteps(low, high, unit);
    InOrder((low - 1) * unit, u * tenKappa, c, ((low - 1) as real) * Two(e), Decimal10(u, kappa));
    InOrder(u * tenKappa, (high + 1) * unit, c, Decimal10(u, kappa), ((high + 1) as real) * Two(e));
  }

  lemma Concluded(low: int, w: int, high: int, e: int, D: int, rest: int, tenKappa: int, unit: int, kappa: int,
                  lo: real, v: real, hi: real, a: real, b: real)
    requires Split(high + 1, e, D, rest, tenKappa, unit, kappa)
    requires a == ((low - 1) as real) * Two(e) && b == ((high + 1) as real) * Two(e)
    requires Weeded(rest, tenKappa, (high - low + 2) * unit, (high + 1 - w) * unit, unit)
    requires Near(lo, low, e) && Near(v, w, e) && Near(hi, high, e)
    requires Emptied(a, b, kappa + 1)
    ensures StrictlyShortest(v, lo, hi, D, kappa)
  {
    hide Two, Ten, Split, Weeded;
    WeededBounds(rest, tenKappa, (high - low + 2) * unit, (high + 1 - w) * unit, unit);
    StrictlyInside(low, high, e, D, rest, tenKappa, unit, kappa, lo, hi);
    Coarser(a, b, lo, hi, kappa);
    forall u: int | u != D && Between(lo, hi, true, Decimal10(u, kappa))
      ensures Abs(Decimal10(D, kappa) - v) < Abs(Decimal10(u, kappa) - v)
    {
      InsideUnsafe(low, high, e, D, rest, tenKappa, unit, kappa, lo, hi, u);
      Nearer(w, high, e, D, rest, tenKappa, unit, kappa, (high - low + 2) * unit, v, u);
    }
  }

  lemma Coarser(a: real, b: real, lo: real, hi: real, x: int)
    requires Emptied(a, b, x + 1) && a < lo && hi < b
    ensures NothingCoarser(lo, hi, true, x)
  {
  }

  lemma WeededBounds(rest: int, tenKappa: int, unsafe: int, distance: int, unit: int)
    requires Weeded(rest, tenKappa, unsafe, distance, unit)
    ensures 2 * unit <= rest <= unsafe - 4 * unit
  {
  }
}
