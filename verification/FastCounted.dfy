/**
  Fast generation of a counted number of digits, rounded: what the digits say
  about every number within one unit of the scaled one.
 */
module FastCounted {
  import opened Positional
  import opened DigitLoops
  import opened Powers
  import opened Decimal
  import opened RealPowers
  import opened Rounding
  import opened MachineWords
  import opened DigitFilling
  import opened DiyFpModel
  import opened Weeding
  import opened FastDtoa

  // ---------- Rounding with an error ----------

  /** d or d + 1, whichever the rest, known to less than a unit, is closer to beyond doubt. */
  ghost predicate Decided(D: int, rest: int, tenKappa: int, unit: int, rounded: int) {
    && 2 * unit < tenKappa
    && ((rounded == D && 2 * (rest + unit) <= tenKappa) || (rounded == D + 1 && 2 * (rest - unit) >= tenKappa))
  }

  /** Rounding one way is right for all values within the error. */
  ghost predicate Decidable(D: int, rest: int, tenKappa: int, unit: int) {
    exists r :: Decided(D, rest, tenKappa, unit, r)
  }

  method RoundWeedCounted(buffer: array<int>, length: nat, rest: int, tenKappa: int, unit: int, kappa0: int)
      returns (ok: bool, kappa: int, ghost rounded: int)
    requires 1 <= length <= buffer.Length && IsDecimal(buffer[..length])
    requires 0 <= rest < tenKappa < TWO64 && 0 < unit < TWO64
    modifies buffer
    ensures IsDecimal(buffer[..length])
    ensures ok ==> Decided(old(Dec(buffer[..length])), rest, tenKappa, unit, rounded)
    ensures ok <==> Decidable(old(Dec(buffer[..length])), rest, tenKappa, unit)
    ensures ok ==> Carried(rounded, Dec(buffer[..length]), kappa - kappa0)
    ensures ok && kappa != kappa0 ==> buffer[0] == ZERO + 1
  {
    hide Dec;
    kappa := kappa0;
    rounded := Dec(buffer[..length]);
    if unit >= tenKappa || tenKappa - unit <= unit {
      return false, kappa, rounded;
    }
    if tenKappa - rest > rest && tenKappa - 2 * rest >= 2 * unit {
      return true, kappa, rounded;
    }
    if rest > unit && tenKappa - (rest - unit) <= rest - unit {
      ghost var s := buffer[..length];
      DecUpdate(s, length - 1, s[length - 1] + 1);
      DecEmpty();
      buffer[length - 1] := buffer[length - 1] + 1;
      assert buffer[..length] == s[length - 1 := s[length - 1] + 1];
      rounded := Dec(buffer[..length]);
      kappa := PropagateCarry(buffer, length, kappa);
      return true, kappa, rounded;
    }
    ok := false;
  }

  // ---------- What the decision means ----------

  /** Within half a decimal unit, the upper of two. */
  lemma HalfUpOfDecimal(v: real, kappa: int, x: int)
    requires Decimal10(x, kappa) - Ten(kappa) / 2.0 <= v < Decimal10(x, kappa) + Ten(kappa) / 2.0
    ensures HalfUp(v, -kappa) == x
  {
    hide Ten, HalfUp;
    var t, u := Ten(kappa), Ten(-kappa);
    TenInverse(kappa);
    InUnitsOf(v, x as real - 0.5, t, u);
    InUnitsOf(v, x as real + 0.5, t, u);
    RDistribute(x as real, 0.5, t);
    HalfUpCharacter(v, -kappa, x);
  }

  lemma InUnitsOf(v: real, x: real, t: real, u: real)
    requires t > 0.0 && u > 0.0 && t * u == 1.0
    ensures v < x * t <==> v * u < x
    ensures x * t <= v <==> x <= v * u
  {
    RAssoc(x, t, u);
    RMonotone(v, x * t, u);
    RMonotone(x * t, v, u);
  }

  /** The exact number in decimal units, from the rest and its error. */
  lemma ExactRange(w: int, e: int, D: int, rest: int, tenKappa: int, unit: int, kappa: int, v: real)
    requires Split(w, e, D, rest, tenKappa, unit, kappa) && Near(v, w, e)
    ensures unit > 0 && tenKappa > 0
    ensures var c := Grain(e, unit);
      && Decimal10(D, kappa) + ((rest - unit) as real) * c < v < Decimal10(D, kappa) + ((rest + unit) as real) * c
      && Ten(kappa) == (tenKappa as real) * c
  {
    hide Two, Ten, Grain;
    var c := Grain(e, unit);
    InGrains(w, e, D, rest, tenKappa, unit, kappa, D);
    InGrains(w, e, D, rest, tenKappa, unit, kappa, 1);
    UnitsInGrains(w - 1, e, unit);
    UnitsInGrains(w + 1, e, unit);
    UnitSteps(w, w, unit);
    SumInGrains(D * tenKappa, rest - unit, (w - 1) * unit, c);
    SumInGrains(D * tenKappa, rest + unit, (w + 1) * unit, c);
    OneDecimal(tenKappa, kappa);
  }

  lemma SumInGrains(x: int, y: int, z: int, c: real)
    requires x + y == z
    ensures (x as real) * c + (y as real) * c == (z as real) * c
  {
    RDistribute(x as real, y as real, c);
  }

  lemma OneDecimal(tenKappa: int, kappa: int)
    ensures Decimal10(1, kappa) == Ten(kappa) && 1 * tenKappa == tenKappa
  {
  }

  /** How x grains compare with fractions of a decimal unit t of tenKappa grains. */
  ghost predicate Compared(x: int, tenKappa: int, y: real, t: real) {
    && (2 * x >= tenKappa <==> y >= t / 2.0) && (2 * x <= tenKappa <==> y <= t / 2.0)
    && (2 * x > -tenKappa <==> y > -(t / 2.0)) && (2 * x < 3 * tenKappa <==> y < t + t / 2.0)
    && (20 * x >= -tenKappa <==> y >= -(t / 20.0)) && (x >= 0 <==> y >= 0.0)
  }

  lemma ExactParts(w: int, e: int, D: int, rest: int, tenKappa: int, unit: int, kappa: int, v: real)
      returns (below: real, above: real)
    requires Split(w, e, D, rest, tenKappa, unit, kappa) && Near(v, w, e)
    ensures Decimal10(D, kappa) + below < v < Decimal10(D, kappa) + above
    ensures Compared(rest - unit, tenKappa, below, Ten(kappa)) && Compared(rest + unit, tenKappa, above, Ten(kappa))
  {
    hide Two, Ten, Grain, Near, Split, Decimal10;
    ExactRange(w, e, D, rest, tenKappa, unit, kappa, v);
    var c := Grain(e, unit);
    below, above := ((rest - unit) as real) * c, ((rest + unit) as real) * c;
    Fractions(rest - unit, tenKappa, c, below, Ten(kappa));
    Fractions(rest + unit, tenKappa, c, above, Ten(kappa));
  }

  lemma DecidedIsHalfUp(w: int, e: int, D: int, rest: int, tenKappa: int, unit: int, kappa: int, v: real, rounded: int)
    requires Split(w, e, D, rest, tenKappa, unit, kappa) && Near(v, w, e) && 0 <= rest < tenKappa
    requires Decided(D, rest, tenKappa, unit, rounded)
    ensures HalfUp(v, -kappa) == rounded
    ensures Decimal10(D - 1, kappa) < v < Decimal10(D + 1, kappa) + Ten(kappa) / 2.0
    ensures rest >= unit || 20 * unit <= tenKappa ==> Decimal10(D, kappa) - Ten(kappa) / 20.0 <= v
  {
    hide Two, Ten, Grain, HalfUp, Near, Split, Decimal10;
    var below, above := ExactParts(w, e, D, rest, tenKappa, unit, kappa, v);
    NextDecimal(D, kappa);
    NextDecimal(D - 1, kappa);
    HalfUpOfDecimal(v, kappa, rounded);
  }

  lemma NextDecimal(D: int, kappa: int)
    ensures Decimal10(D + 1, kappa) == Decimal10(D, kappa) + Ten(kappa)
  {
    hide Ten;
    RDistribute(D as real, 1.0, Ten(kappa));
  }

  /** Comparing a number of grains with fractions of a decimal unit. */
  lemma Fractions(x: int, tenKappa: int, c: real, y: real, t: real)
    requires c > 0.0 && y == (x as real) * c && t == (tenKappa as real) * c
    ensures Compared(x, tenKappa, y, t)
  {
    Multiple(2, x, c);
    Multiple(20, x, c);
    Multiple(3, tenKappa, c);
    Multiple(-1, tenKappa, c);
    InOrder(tenKappa, 2 * x, c, t, 2.0 * y);
    InOrder(2 * x, tenKappa, c, 2.0 * y, t);
    InOrder(-1 * tenKappa, 2 * x, c, -1.0 * t, 2.0 * y);
    InOrder(2 * x, 3 * tenKappa, c, 2.0 * y, 3.0 * t);
    InOrder(-1 * tenKappa, 20 * x, c, -1.0 * t, 20.0 * y);
    InOrder(0, x, c, 0.0, y);
  }

  lemma Multiple(k: int, x: int, c: real)
    ensures ((k * x) as real) * c == (k as real) * ((x as real) * c)
  {
    IntProduct(k, x);
    RAssoc(k as real, x as real, c);
  }

  // ---------- The place of the first digit ----------

  /**
    The rounded digits are right at the place the exact number calls for, also
    when it and its approximation lie on different sides of a power of ten.
   */
  lemma PrecisionPlace(v: real, top: int, count: nat, D: int, rounded: int, kappa: int)
    requires Ten(top - 1) <= v < Ten(top) && count >= 1 && Pow10(count - 1) <= D < Pow10(count)
    requires (rounded == D || rounded == D + 1) && HalfUp(v, -kappa) == rounded
    requires v < Decimal10(D + 1, kappa) + Ten(kappa) / 2.0
    requires Decimal10(D, kappa) - Ten(kappa) / 20.0 <= v || Decimal10(Pow10(count - 1), kappa) <= v
    ensures Decimal10(HalfUp(v, count - top), top - count) == Decimal10(rounded, kappa)
  {
    hide Ten, Pow10, HalfUp;
    var K := count + kappa;
    PowerAsDecimal(count, kappa);
    PowerAsDecimal(count - 1, kappa);
    ScaleOrder(Pow10(count - 1), D, Ten(kappa));
    ScaleOrder(D + 1, Pow10(count), Ten(kappa));
    if top < K {
      TenMonotone(top, K - 1);
      BelowPower(v, top, count, D, rounded, kappa);
    } else if top > K {
      AbovePower(v, top, count, D, rounded, kappa);
    }
  }

  lemma PowerAsDecimal(n: nat, kappa: int)
    ensures Decimal10(Pow10(n), kappa) == Ten(n + kappa)
  {
    hide Ten, Pow10;
    TenAdd(kappa, n);
    RCommute(Pow10(n) as real, Ten(kappa));
  }

  /** Rounding never falls below a whole number it started from, nor rises above one it stayed below. */
  lemma HalfUpBounds(v: real, kappa: int, x: int)
    ensures v >= Decimal10(x, kappa) ==> HalfUp(v, -kappa) >= x
    ensures v < Decimal10(x, kappa) ==> HalfUp(v, -kappa) <= x
  {
    hide Ten;
    TenInverse(kappa);
    InUnitsOf(v, x as real, Ten(kappa), Ten(-kappa));
  }

  /** The number is just below the power of ten that its approximation reached. */
  lemma BelowPower(v: real, top: int, count: nat, D: int, rounded: int, kappa: int)
    requires Ten(top - 1) <= v < Ten(top) && count >= 1 && Pow10(count - 1) <= D && top < count + kappa
    requires (rounded == D || rounded == D + 1) && HalfUp(v, -kappa) == rounded
    requires Decimal10(D, kappa) - Ten(kappa) / 20.0 <= v
    ensures Decimal10(HalfUp(v, count - top), top - count) == Decimal10(rounded, kappa)
  {
    hide Ten, Pow10, HalfUp;
    var K, p := count + kappa, Pow10(count - 1);
    PowerAsDecimal(count - 1, kappa);
    TenMonotone(top, K - 1);
    HalfUpBounds(v, kappa, p);
    assert rounded == D == p;
    TenMonotone(kappa, K - 1);
    TenStep(K - 2);
    if top < K - 1 { TenMonotone(top, K - 2); }
    assert top == K - 1;
    TenStep(kappa - 1);
    PowerAsDecimal(count, kappa - 1);
    HalfUpOfDecimal(v, kappa - 1, Pow10(count));
  }

  /** The number has reached the power of ten that its approximation stayed below. */
  lemma AbovePower(v: real, top: int, count: nat, D: int, rounded: int, kappa: int)
    requires Ten(top - 1) <= v < Ten(top) && count >= 1 && D < Pow10(count) && top > count + kappa
    requires (rounded == D || rounded == D + 1) && HalfUp(v, -kappa) == rounded
    requires v < Decimal10(D + 1, kappa) + Ten(kappa) / 2.0
    ensures Decimal10(HalfUp(v, count - top), top - count) == Decimal10(rounded, kappa)
  {
    hide Ten, Pow10, HalfUp;
    var K, p := count + kappa, Pow10(count);
    PowerAsDecimal(count, kappa);
    TenMonotone(K, top - 1);
    HalfUpBounds(v, kappa, p);
    assert rounded == D + 1 == p;
    TenMonotone(kappa, K);
    TenStep(K);
    if top > K + 1 { TenMonotone(K + 1, top - 1); }
    assert top == K + 1;
    TenStep(kappa);
    PowerAsDecimal(count - 1, kappa + 1);
    HalfUpOfDecimal(v, kappa + 1, Pow10(count - 1));
  }

  // ---------- Generating the digits ----------

  /** D is the digits so far, the first of them not zero. */
  ghost predicate Counted(w: int, e: int, D: int, rest: int, tenKappa: int, unit: int, kappa: int, length: nat) {
    && Split(w, e, D, rest, tenKappa, unit, kappa) && 0 <= rest < tenKappa
    && D >= 0 && (length > 0 ==> D >= Pow10(length - 1))
  }

  /** The error cannot take the number visibly below the power of ten its digits start from. */
  ghost predicate SafeBelow(D: int, rest: int, tenKappa: int, unit: int, length: nat) {
    rest >= unit || 20 * unit <= tenKappa || (length > 0 && D > Pow10(length - 1))
  }

  lemma CountedRest(w: int, e: int, D: int, rest: int, tenKappa: int, unit: int, kappa: int, length: nat)
    requires Counted(w, e, D, rest, tenKappa, unit, kappa, length)
    ensures 0 <= rest < tenKappa && 0 < unit
  {
  }

  lemma CountedAdvance(w: int, e: int, D: int, rest: int, tenKappa: int, unit: int, kappa: int, length: nat,
                       m: int, tenKappa': int, digit: int, rest': int)
    requires Counted(w, e, D, rest, tenKappa, unit, kappa, length)
    requires m > 0 && tenKappa' > 0 && 10 * tenKappa' == tenKappa * m && rest * m == digit * tenKappa' + rest'
    requires 0 <= rest' < tenKappa' && digit >= 0 && (length == 0 ==> digit >= 1)
    ensures Counted(w, e, 10 * D + digit, rest', tenKappa', unit * m, kappa - 1, length + 1)
    ensures length > 0 && digit >= 1 ==> 10 * D + digit > Pow10(length)
  {
    hide Two, Ten, Pow10, Split;
    Finer(w, e, D, rest, tenKappa, unit, kappa, m, tenKappa', digit, rest');
    if length > 0 { PlaceAbove(1, length - 1); }
    assert Pow10(0) == 1 by { TenTable(); }
  }

  /** A good decision makes the digits the rounded ones at the place the exact number calls for. */
  lemma CountedIsRounded(w: int, e: int, D: int, rest: int, tenKappa: int, unit: int, kappa0: int, count: nat,
                         v: real, top: int, rounded: int, digits: seq<int>, kappa: int)
    requires Counted(w, e, D, rest, tenKappa, unit, kappa0, count) && SafeBelow(D, rest, tenKappa, unit, count)
    requires 1 <= count == |digits| && D < Pow10(count) && Near(v, w, e) && Ten(top - 1) <= v < Ten(top)
    requires Decided(D, rest, tenKappa, unit, rounded) && Carried(rounded, Dec(digits), kappa - kappa0)
    requires IsDecimal(digits)
    ensures RoundedTo(v, count - top, digits, count + kappa)
  {
    hide Two, Ten, Pow10, Split, Near, HalfUp, Dec;
    DecidedIsHalfUp(w, e, D, rest, tenKappa, unit, kappa0, v, rounded);
    InOrder(Pow10(count - 1), D - 1, Ten(kappa0), Decimal10(Pow10(count - 1), kappa0), Decimal10(D - 1, kappa0));
    PrecisionPlace(v, top, count, D, rounded, kappa0);
    CarriedPoint(rounded, Dec(digits), kappa0, kappa - kappa0);
  }

  /** Rounding up digits that start with a nonzero one leaves such digits. */
  lemma RoundedLeads(w: int, e: int, D: int, rest: int, tenKappa: int, unit: int, kappa0: int,
                     rounded: int, digits: seq<int>, kappa: int)
    requires |digits| > 0 && Counted(w, e, D, rest, tenKappa, unit, kappa0, |digits|) && IsDecimal(digits)
    requires Decided(D, rest, tenKappa, unit, rounded) && Carried(rounded, Dec(digits), kappa - kappa0)
    requires kappa != kappa0 ==> digits[0] == ZERO + 1
    ensures digits[0] != ZERO
  {
    hide Two, Ten, Pow10, Dec, Split;
    LeadingDigit(digits);
  }

  method Finish(buffer: array<int>, length: nat, rest: int, tenKappa: int, unit: int, kappa0: int,
                ghost w: int, ghost e: int, ghost v: real, ghost top: int)
      returns (ok: bool, kappa: int)
    requires 1 <= length <= buffer.Length && IsDecimal(buffer[..length]) && tenKappa < TWO64 && unit < TWO64
    requires Counted(w, e, Dec(buffer[..length]), rest, tenKappa, unit, kappa0, length)
    requires SafeBelow(Dec(buffer[..length]), rest, tenKappa, unit, length)
    requires Near(v, w, e) && Ten(top - 1) <= v < Ten(top)
    modifies buffer
    ensures IsDecimal(buffer[..length])
    ensures ok ==> RoundedTo(v, length - top, buffer[..length], length + kappa) && buffer[0] != ZERO
    ensures ok <==> Decidable(old(Dec(buffer[..length])), rest, tenKappa, unit)
  {
    hide Two, Ten, Pow10, Dec, Counted, SafeBelow, Near, Decided, Decidable, Carried, RoundedTo;
    ghost var D := Dec(buffer[..length]);
    DecBound(buffer[..length]);
    CountedRest(w, e, D, rest, tenKappa, unit, kappa0, length);
    ghost var rounded;
    ok, kappa, rounded := RoundWeedCounted(buffer, length, rest, tenKappa, unit, kappa0);
    if ok {
      CountedIsRounded(w, e, D, rest, tenKappa, unit, kappa0, length, v, top, rounded, buffer[..length], kappa);
      RoundedLeads(w, e, D, rest, tenKappa, unit, kappa0, rounded, buffer[..length], kappa);
    }
  }

  /** Digits before the binary point, at most as many as requested. */
  method CountedIntegrals(w: int, e: int, requested: nat, buffer: array<int>)
      returns (length: nat, kappa: nat, integrals: nat, fractionals: int, divisor: nat)
    requires -60 <= e <= -32 && 0x4000_0000_0000_0000 <= w < TWO64 && 1 <= requested <= buffer.Length
    modifies buffer
    ensures 1 <= length <= requested && IsDecimal(buffer[..length])
    ensures length == requested ==> divisor == Pow10(kappa) && divisor * Pow2(-e) <= w
    ensures length == requested || kappa == 0
    ensures Counted(w, e, Dec(buffer[..length]), integrals * Pow2(-e) + fractionals, Pow10(kappa) * Pow2(-e), 1, kappa, length)
    ensures 0 <= fractionals < Pow2(-e)
  {
    hide Pow2, Pow10, Two, Ten, Dec, Split, Counted, BiggestPowerTen;
    HighEndParts(w, e);
    var one := Pow2(-e);
    integrals := w / one;
    fractionals := w % one;
    FirstPlace(w, e, integrals, fractionals, one);
    var (power, index) := BiggestPowerTen(integrals, 64 + e);
    divisor := power;
    kappa := index;
    length := 0;
    ghost var rest, tenKappa := w, Pow10(index) * one;
    PlaceInUnits(e, index, tenKappa);
    CountedStart(w, e, tenKappa, index);
    assert buffer[..0] == [];
    DecEmpty();
    while kappa > 0 && length < requested
      invariant 0 <= kappa <= index && length == index - kappa && length <= requested
      invariant IsDecimal(buffer[..length])
      invariant length == 0 ==> divisor <= integrals
      invariant kappa > 0 && length < requested ==> divisor == Pow10(kappa - 1) && divisor * one <= w
      invariant length == requested ==> divisor == Pow10(kappa) && divisor * one <= w
      invariant rest == integrals * one + fractionals && tenKappa == Pow10(kappa) * one
      invariant Counted(w, e, Dec(buffer[..length]), rest, tenKappa, 1, kappa, length)
    {
      ghost var D := Dec(buffer[..length]);
      CountedRest(w, e, D, rest, tenKappa, 1, kappa, length);
      IntegralDigit(integrals, divisor, one, fractionals, kappa);
      var digit := integrals / divisor;
      StoreDigit(buffer, length, digit);
      integrals := integrals % divisor;
      CountedAdvance(w, e, D, rest, tenKappa, 1, kappa, length, 1, divisor * one, digit, integrals * one + fractionals);
      rest, tenKappa := integrals * one + fractionals, divisor * one;
      length := length + 1;
      kappa := kappa - 1;
      if length != requested {
        NextDivisor(divisor, kappa, one, w);
        divisor := divisor / 10;
      }
    }
  }

  lemma CountedStart(w: int, e: int, tenKappa: int, kappa: nat)
    requires (tenKappa as real) * Two(e) == Ten(kappa) && 0 <= w < tenKappa
    ensures Counted(w, e, 0, w, tenKappa, 1, kappa, 0)
  {
  }

  lemma FractionalCount(w: int, e: int, D: int, fractionals: int, one: int, unit: int, kappa: int, length: nat)
    requires Counted(w, e, D, fractionals, one, unit, kappa, length) && length > 0 && fractionals > unit
    requires 0 < one <= 0x1000_0000_0000_0000
    ensures var digit, rest := (fractionals * 10) / one, (fractionals * 10) % one;
      && 0 <= digit <= 9 && 0 < unit * 10 < TWO64
      && Counted(w, e, 10 * D + digit, rest, one, unit * 10, kappa - 1, length + 1)
      && SafeBelow(10 * D + digit, rest, one, unit * 10, length + 1)
  {
    hide Two, Ten, Pow10, Counted;
    CountedRest(w, e, D, fractionals, one, unit, kappa, length);
    BelowProduct(fractionals * 10, 10, one);
    var digit, rest := (fractionals * 10) / one, (fractionals * 10) % one;
    CountedAdvance(w, e, D, fractionals, one, unit, kappa, length, 10, one, digit, rest);
  }

  /** Digits after the binary point, as long as the rest is larger than its error. */
  method CountedFractionals(w: int, e: int, requested: nat, buffer: array<int>, length0: nat, fractionals0: int)
      returns (length: nat, kappa: int, fractionals: int, error: int)
    requires -60 <= e <= -32 && 1 <= length0 < requested <= buffer.Length && IsDecimal(buffer[..length0])
    requires Counted(w, e, Dec(buffer[..length0]), fractionals0, Pow2(-e), 1, 0, length0)
    modifies buffer
    ensures 1 <= length <= requested && IsDecimal(buffer[..length]) && 0 < error < TWO64
    ensures Counted(w, e, Dec(buffer[..length]), fractionals, Pow2(-e), error, kappa, length)
    ensures length == requested ==> SafeBelow(Dec(buffer[..length]), fractionals, Pow2(-e), error, length)
    ensures length < requested ==> fractionals <= error
  {
    hide Pow2, Pow10, Two, Ten, Dec, Counted, SafeBelow;
    var one := Pow2(-e);
    Pow2Monotone(-e, 60);
    HighPowers();
    length, kappa, fractionals, error := length0, 0, fractionals0, 1;
    while length < requested && fractionals > error
      invariant 1 <= length <= requested && IsDecimal(buffer[..length]) && 0 < error < TWO64
      invariant Counted(w, e, Dec(buffer[..length]), fractionals, one, error, kappa, length)
      invariant length == requested ==> SafeBelow(Dec(buffer[..length]), fractionals, one, error, length)
      decreases requested - length
    {
      FractionalCount(w, e, Dec(buffer[..length]), fractionals, one, error, kappa, length);
      CountedRest(w, e, Dec(buffer[..length]), fractionals, one, error, kappa, length);
      fractionals := fractionals * 10;
      error := error * 10;
      assert fractionals < TWO64 && error < TWO64;
      var digit := fractionals / one;
      StoreDigit(buffer, length, digit);
      length := length + 1;
      fractionals := fractionals % one;
      kappa := kappa - 1;
    }
  }

  /**
    `requested` digits of the number that w approximates: if they are returned
    as good, they are the ones rounding that number half up gives.
   */
  /** The number as its first digits and a rest, in parts of a unit. */
  datatype Cut = Cut(digits: int, rest: int, tenKappa: int, unit: int, kappa: int, length: nat)

  ghost predicate IsCut(c: Cut, w: int, e: int, requested: nat) {
    && Counted(w, e, c.digits, c.rest, c.tenKappa, c.unit, c.kappa, c.length) && c.length <= requested
    && (c.length < requested ==> c.rest <= c.unit)
  }

  /** As many digits as requested, and no doubt about the rounding. */
  ghost predicate Enough(c: Cut, requested: nat) {
    c.length == requested && Decidable(c.digits, c.rest, c.tenKappa, c.unit)
  }

  method DigitGenCounted(w: DiyFp, requested: nat, buffer: array<int>, ghost v: real, ghost top: int)
      returns (ok: bool, length: nat, kappa: int, ghost c: Cut)
    requires -60 <= w.e <= -32 && 0x4000_0000_0000_0000 <= w.f < TWO64 && 1 <= requested <= buffer.Length
    requires Near(v, w.f, w.e) && Ten(top - 1) <= v < Ten(top)
    modifies buffer
    ensures ok ==> length == requested && RoundedTo(v, requested - top, buffer[..length], length + kappa)
    ensures ok ==> buffer[0] != ZERO
    ensures IsCut(c, w.f, w.e, requested) && (ok <==> Enough(c, requested))
  {
    hide Pow2, Pow10, Two, Ten, Dec, Near, Counted, SafeBelow, RoundedTo, Decidable;
    var one := Pow2(-w.e);
    var integrals, fractionals, divisor;
    length, kappa, integrals, fractionals, divisor := CountedIntegrals(w.f, w.e, requested, buffer);
    ghost var D := Dec(buffer[..length]);
    if length == requested {
      c := Cut(D, integrals * one + fractionals, divisor * one, 1, kappa, length);
      SafeIntegral(w.e, kappa, D, integrals * one + fractionals, divisor * one, length);
      ok, kappa := Finish(buffer, length, integrals * one + fractionals, divisor * one, 1, kappa, w.f, w.e, v, top);
      return;
    }
    OnlyFraction(w.f, w.e, D, integrals, fractionals, one, length);
    var error;
    length, kappa, fractionals, error := CountedFractionals(w.f, w.e, requested, buffer, length, fractionals);
    c := Cut(Dec(buffer[..length]), fractionals, one, error, kappa, length);
    if length != requested {
      return false, length, kappa, c;
    }
    Pow2Monotone(-w.e, 60);
    HighPowers();
    ok, kappa := Finish(buffer, length, fractionals, one, error, kappa, w.f, w.e, v, top);
  }

  lemma SafeIntegral(e: int, kappa: nat, D: int, rest: int, tenKappa: int, length: nat)
    requires -60 <= e <= -32 && tenKappa == Pow10(kappa) * Pow2(-e)
    ensures SafeBelow(D, rest, tenKappa, 1, length)
  {
    hide Pow2, Pow10;
    Pow2Monotone(32, -e);
    Pow2Words();
    MulMonotone(1, Pow10(kappa), Pow2(-e));
  }

  lemma OnlyFraction(w: int, e: int, D: int, integrals: nat, fractionals: int, one: int, length: nat)
    requires Counted(w, e, D, integrals * one + fractionals, Pow10(0) * one, 1, 0, length)
    requires 0 <= fractionals < one
    ensures Counted(w, e, D, fractionals, one, 1, 0, length)
  {
    if integrals >= 1 { MulMonotone(1, integrals, one); }
    assert Pow10(0) * one == one;
  }
}
