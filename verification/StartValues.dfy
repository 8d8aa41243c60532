/**
  The exact start of digit generation: v = significand * 2^exponent, divided by
  an estimated power of ten, as a ratio of bignums, with the distances to the
  boundaries of v over the same denominator.
 */
module StartValues {
  import opened Positional
  import opened DigitLoops
  import opened Powers
  import opened BignumModel
  import opened Decimal
  import opened BignumDtoa

  ghost function Up(x: int): nat {
    if x > 0 then x else 0
  }

  /** Numerator of 2^exponent / 10^power. */
  ghost function Over(exponent: int, power: int): (r: int)
    ensures r > 0
  {
    Positive(Pow2(Up(exponent)), Pow10(Up(-power)));
    Pow2(Up(exponent)) * Pow10(Up(-power))
  }

  /** Denominator of 2^exponent / 10^power. */
  ghost function Under(exponent: int, power: int): (r: int)
    ensures r > 0
  {
    Positive(Pow2(Up(-exponent)), Pow10(Up(power)));
    Pow2(Up(-exponent)) * Pow10(Up(power))
  }

  lemma Positive(x: int, y: int)
    requires x > 0 && y > 0
    ensures x * y > 0
  {
    MulMonotone(1, x, y);
  }

  /** The exponents and powers for which the bignums have room; those of doubles lie well inside. */
  ghost predicate InReach(significand: int, exponent: int, power: int) {
    0 < significand < TWO64 && -1100 <= exponent <= 1100 && -400 <= power <= 400
  }

  lemma {:induction false} PowTen(n: nat)
    ensures Pow(10, n) == Pow10(n)
  {
    if n > 0 { PowTen(n - 1); }
  }

  lemma {:induction false} TenBelowSixteen(n: nat)
    ensures Pow10(n) <= Pow2(4 * n)
  {
    if n > 0 {
      TenBelowSixteen(n - 1);
      Pow2Add(4, 4 * (n - 1));
      Pow2Small();
    }
  }

  /** Everything the start values consist of stays far below the capacity. */
  lemma ValuesFit(significand: int, exponent: int, power: int)
    requires InReach(significand, exponent, power)
    ensures 160 * (significand * Over(exponent, power)) < Scale(1, 127)
    ensures 160 * Over(exponent, power) < Scale(1, 127)
    ensures 160 * Under(exponent, power) < Scale(1, 127)
  {
    hide Pow2, Pow10, Scale;
    PartFits(Up(exponent), Up(-power));
    PartFits(Up(-exponent), Up(power));
    var x := Over(exponent, power);
    MulMonotone(significand, 0x1_0000_0000_0000_0000, x);
    ScalePow2(127);
  }

  lemma PartFits(e: nat, p: nat)
    requires e <= 1100 && p <= 400
    ensures 0 <= 160 * (0x1_0000_0000_0000_0000 * (Pow2(e) * Pow10(p))) < Pow2(28 * 127)
  {
    Pow2Small();
    assert Pow2(8) == 256;
    hide Pow2, Pow10;
    Pow2Add(32, 32);
    Pow2Add(64, 2700);
    Pow2Add(8, 2764);
    Pow2Monotone(2772, 28 * 127);
    ProductFits(e, p);
  }

  lemma ProductFits(e: nat, p: nat)
    requires e <= 1100 && p <= 400
    ensures 0 <= Pow2(e) * Pow10(p) <= Pow2(2700)
  {
    hide Pow2, Pow10;
    TenBelowSixteen(p);
    Pow2Monotone(e, 1100);
    Pow2Monotone(4 * p, 1600);
    MulMonotone(Pow2(e), Pow2(1100), Pow10(p));
    MulMonotone(Pow10(p), Pow2(1600), Pow2(1100));
    Pow2Add(1100, 1600);
    MulMonotone(0, Pow2(e), Pow10(p));
  }

  lemma TenFits(p: nat)
    requires p <= 400
    ensures Bignum.PowerFitsIn(10, p)
  {
    assert OddPart(10) == OddPart(5) == 5;
    assert BitLength(5) == 1 + BitLength(2) == 2 + BitLength(1) == 3;
  }

  /** Assigns a power of ten. */
  method AssignPowerOfTen(x: Bignum, p: nat)
    requires x.Raw() && p <= 400
    modifies x, x.bigits
    ensures x.Valid() && x.Value() == Pow10(p)
  {
    TenFits(p);
    x.AssignPowerUInt16(10, p);
    PowTen(p);
  }

  /** A shift with room to spare. */
  method Shift(x: Bignum, amount: nat)
    requires x.Valid() && x.Value() < Scale(1, 127)
    modifies x, x.bigits
    ensures x.Valid() && x.Value() == Pow2(amount) * old(x.Value())
  {
    UsedBelow(x, 127);
    x.ShiftLeft(amount);
  }

  /**
    The ratio is significand * 2^exponent / 10^power, and with deltas twice as
    large on both sides, each delta being half a unit in the last place.
   */
  ghost predicate Started(significand: int, exponent: int, power: int, deltas: bool,
                          num: int, den: int, dm: int, dp: int)
  {
    var c := if deltas then 2 else 1;
    && num == c * (significand * Over(exponent, power)) && den == c * Under(exponent, power)
    && (deltas ==> dm == Over(exponent, power) && dp == Over(exponent, power))
  }

  lemma IsStarted(significand: int, exponent: int, power: int, deltas: bool, num: int, den: int, dm: int, dp: int,
                  top: int, over: int, under: int)
    requires over == Over(exponent, power) && under == Under(exponent, power) && top == significand * over
    requires deltas ==> num == 2 * top && den == 2 * under && dm == over && dp == over
    requires !deltas ==> num == top && den == under
    ensures Started(significand, exponent, power, deltas, num, den, dm, dp)
  {
  }

  ghost predicate AllValid(numerator: Bignum, denominator: Bignum, deltaMinus: Bignum, deltaPlus: Bignum)
    reads numerator, numerator.bigits, denominator, denominator.bigits
    reads deltaMinus, deltaMinus.bigits, deltaPlus, deltaPlus.bigits
  {
    && numerator.Valid() && denominator.Valid() && deltaMinus.Valid() && deltaPlus.Valid()
    && Separate(numerator, denominator) && Separate(numerator, deltaMinus) && Separate(numerator, deltaPlus)
    && Separate(denominator, deltaMinus) && Separate(denominator, deltaPlus) && Separate(deltaMinus, deltaPlus)
  }

  /** One sign of exponent and power at a time. */
  lemma OverUnder(exponent: int, power: int)
    ensures exponent >= 0 && power >= 0 ==> Over(exponent, power) == Pow2(exponent) && Under(exponent, power) == Pow10(power)
    ensures exponent <= 0 && power >= 0 ==> Over(exponent, power) == 1 && Under(exponent, power) == Pow2(-exponent) * Pow10(power)
    ensures exponent <= 0 && power <= 0 ==> Over(exponent, power) == Pow10(-power) && Under(exponent, power) == Pow2(-exponent)
  {
    assert Pow2(0) == 1 && Pow10(0) == 1;
  }

  method AssignShifted(x: Bignum, value: nat, amount: nat)
    requires x.Raw() && value < TWO64
    modifies x, x.bigits
    ensures x.Valid() && x.Value() == value * Pow2(amount)
  {
    x.AssignUInt64(value);
    SignificandFits(value);
    hide V, Scale, Pow2;
    Shift(x, amount);
    Commute(Pow2(amount), value);
  }

  lemma SignificandFits(significand: nat)
    requires significand < TWO64
    ensures significand < Scale(1, 127) && 1 < Scale(1, 127)
  {
    ScaleGrows(3, 127);
  }

  method AssignPowerOfTwo(x: Bignum, amount: nat)
    requires x.Raw()
    modifies x, x.bigits
    ensures x.Valid() && x.Value() == Pow2(amount)
  {
    x.AssignUInt16(1);
    SignificandFits(1);
    hide V, Scale, Pow2;
    Shift(x, amount);
  }

  method Double(x: Bignum)
    requires x.Valid() && x.Value() < Scale(1, 127)
    modifies x, x.bigits
    ensures x.Valid() && x.Value() == 2 * old(x.Value())
  {
    Shift(x, 1);
    assert Pow2(1) == 2;
  }

  method DoubleRatio(x: Bignum, y: Bignum)
    requires x.Valid() && y.Valid() && Separate(x, y) && x.Value() < Scale(1, 127) && y.Value() < Scale(1, 127)
    modifies x, x.bigits, y, y.bigits
    ensures x.Valid() && y.Valid() && x.Value() == 2 * old(x.Value()) && y.Value() == 2 * old(y.Value())
  {
    hide V, Scale, Bignum.Valid, Bignum.Raw, Bignum.Value;
    Double(x);
    Double(y);
  }

  method CopyDeltas(x: Bignum, deltaMinus: Bignum, deltaPlus: Bignum)
    requires x.Valid() && deltaMinus.Raw() && deltaPlus.Raw()
    requires Separate(x, deltaMinus) && Separate(x, deltaPlus) && Separate(deltaMinus, deltaPlus)
    modifies deltaMinus, deltaMinus.bigits, deltaPlus, deltaPlus.bigits
    ensures deltaMinus.Valid() && deltaPlus.Valid()
    ensures deltaMinus.Value() == x.Value() && deltaPlus.Value() == x.Value()
  {
    hide V, Scale, Bignum.Valid, Bignum.Raw, Bignum.Value;
    deltaPlus.AssignBignum(x);
    deltaMinus.AssignBignum(x);
  }

  method AssignScaledPowerOfTen(x: Bignum, power: nat, shift: nat)
    requires x.Raw() && power <= 400 && Pow10(power) < Scale(1, 127)
    modifies x, x.bigits
    ensures x.Valid() && x.Value() == Pow2(shift) * Pow10(power)
  {
    hide V, Scale, Pow2, Pow10, Bignum.Valid, Bignum.Raw, Bignum.Value;
    AssignPowerOfTen(x, power);
    Shift(x, shift);
  }

  method StartPositiveExponent(significand: nat, exponent: nat, power: nat, deltas: bool,
                               numerator: Bignum, denominator: Bignum, deltaMinus: Bignum, deltaPlus: Bignum)
    requires AllValid(numerator, denominator, deltaMinus, deltaPlus) && InReach(significand, exponent, power)
    modifies numerator, numerator.bigits, denominator, denominator.bigits
    modifies deltaMinus, deltaMinus.bigits, deltaPlus, deltaPlus.bigits
    ensures AllValid(numerator, denominator, deltaMinus, deltaPlus)
    ensures Started(significand, exponent, power, deltas,
                    numerator.Value(), denominator.Value(), deltaMinus.Value(), deltaPlus.Value())
    ensures !deltas ==> deltaMinus.Value() == old(deltaMinus.Value()) && deltaPlus.Value() == old(deltaPlus.Value())
  {
    hide V, Scale, Pow2, Pow10, Over, Under, Started, Bignum.Valid, Bignum.Raw, Bignum.Value;
    ghost var top, over, under := Limits(significand, exponent, power);
    AssignShifted(numerator, significand, exponent);
    AssignPowerOfTen(denominator, power);
    if deltas {
      DoubleRatio(denominator, numerator);
      AssignPowerOfTwo(deltaPlus, exponent);
      AssignPowerOfTwo(deltaMinus, exponent);
    }
    IsStarted(significand, exponent, power, deltas, numerator.Value(), denominator.Value(),
              deltaMinus.Value(), deltaPlus.Value(), top, over, under);
  }

  method StartNegativeExponentPositivePower(significand: nat, exponent: int, power: nat, deltas: bool,
                                            numerator: Bignum, denominator: Bignum, deltaMinus: Bignum, deltaPlus: Bignum)
    requires AllValid(numerator, denominator, deltaMinus, deltaPlus) && InReach(significand, exponent, power)
    requires exponent < 0
    modifies numerator, numerator.bigits, denominator, denominator.bigits
    modifies deltaMinus, deltaMinus.bigits, deltaPlus, deltaPlus.bigits
    ensures AllValid(numerator, denominator, deltaMinus, deltaPlus)
    ensures Started(significand, exponent, power, deltas,
                    numerator.Value(), denominator.Value(), deltaMinus.Value(), deltaPlus.Value())
    ensures !deltas ==> deltaMinus.Value() == old(deltaMinus.Value()) && deltaPlus.Value() == old(deltaPlus.Value())
  {
    hide V, Scale, Pow2, Pow10, Over, Under, Started, Bignum.Valid, Bignum.Raw, Bignum.Value;
    ghost var top, over, under := Limits(significand, exponent, power);
    numerator.AssignUInt64(significand);
    AssignScaledPowerOfTen(denominator, power, -exponent);
    if deltas {
      DoubleRatio(denominator, numerator);
      deltaPlus.AssignUInt16(1);
      deltaMinus.AssignUInt16(1);
    }
    IsStarted(significand, exponent, power, deltas, numerator.Value(), denominator.Value(),
              deltaMinus.Value(), deltaPlus.Value(), top, over, under);
  }

  /** The numbers the start values are made of, and that they fit. */
  lemma Limits(significand: int, exponent: int, power: int) returns (top: int, over: int, under: int)
    requires InReach(significand, exponent, power)
    ensures over == Over(exponent, power) && under == Under(exponent, power) && top == significand * over
    ensures top < Scale(1, 127) && over < Scale(1, 127) && under < Scale(1, 127) && significand < Scale(1, 127)
    ensures exponent >= 0 && power >= 0 ==> over == Pow2(exponent) && under == Pow10(power)
    ensures exponent <= 0 && power >= 0 ==>
      over == 1 && top == significand && under == Pow2(-exponent) * Pow10(power) && Pow10(power) < Scale(1, 127)
    ensures exponent <= 0 && power <= 0 ==> over == Pow10(-power) && under == Pow2(-exponent)
  {
    over, under := Over(exponent, power), Under(exponent, power);
    top := significand * over;
    ValuesFit(significand, exponent, power);
    OverUnder(exponent, power);
    SignificandFits(significand);
    if power >= 0 { TenBelowUnder(exponent, power); }
  }

  lemma TenBelowUnder(exponent: int, power: nat)
    ensures Pow10(power) <= Under(exponent, power)
  {
    MulMonotone(1, Pow2(Up(-exponent)), Pow10(power));
  }

  method StartNegativeExponentNegativePower(significand: nat, exponent: int, power: int, deltas: bool,
                                            numerator: Bignum, denominator: Bignum, deltaMinus: Bignum, deltaPlus: Bignum)
    requires AllValid(numerator, denominator, deltaMinus, deltaPlus) && InReach(significand, exponent, power)
    requires exponent < 0 && power < 0
    modifies numerator, numerator.bigits, denominator, denominator.bigits
    modifies deltaMinus, deltaMinus.bigits, deltaPlus, deltaPlus.bigits
    ensures AllValid(numerator, denominator, deltaMinus, deltaPlus)
    ensures Started(significand, exponent, power, deltas,
                    numerator.Value(), denominator.Value(), deltaMinus.Value(), deltaPlus.Value())
    ensures !deltas ==> deltaMinus.Value() == old(deltaMinus.Value()) && deltaPlus.Value() == old(deltaPlus.Value())
  {
    hide V, Scale, Pow2, Pow10, Over, Under, Started, Bignum.Valid, Bignum.Raw, Bignum.Value;
    ghost var top, over, under := Limits(significand, exponent, power);
    AssignPowerOfTen(numerator, -power);
    if deltas {
      CopyDeltas(numerator, deltaMinus, deltaPlus);
    }
    TimesSignificand(numerator, significand);
    AssignPowerOfTwo(denominator, -exponent);
    if deltas {
      DoubleRatio(numerator, denominator);
    }
    IsStarted(significand, exponent, power, deltas, numerator.Value(), denominator.Value(),
              deltaMinus.Value(), deltaPlus.Value(), top, over, under);
  }

  method TimesSignificand(x: Bignum, significand: nat)
    requires x.Valid() && significand < TWO64 && significand * x.Value() < Scale(1, 127)
    modifies x, x.bigits
    ensures x.Valid() && x.Value() == significand * old(x.Value())
  {
    hide V, Scale;
    DigitsBelowValue(x);
    MulMonotone(V(x.Digits()), x.Value(), significand);
    ScaleGrows(127, 128);
    x.MultiplyByUInt64(significand);
  }
}
