/**
  The fields of an IEEE double, from its 64 bits.
 */
module Ieee {
  import opened Positional
  import opened DigitLoops
  import opened RealPowers
  import opened Doubles

  const HIDDEN_BIT: nat := 0x10_0000_0000_0000

  predicate IsNegative(bits: nat) {
    bits % TWO64 >= TWO63
  }

  /** The eleven bits below the sign. */
  function BiasedExponent(bits: nat): nat {
    (bits / HIDDEN_BIT) % 2048
  }

  predicate IsDenormal(bits: nat) {
    BiasedExponent(bits) == 0
  }

  predicate IsSpecial(bits: nat) {
    BiasedExponent(bits) == 2047
  }

  function Exponent(bits: nat): int {
    if IsDenormal(bits) then -1074 else BiasedExponent(bits) - 1075
  }

  function Significand(bits: nat): nat {
    if IsDenormal(bits) then bits % HIDDEN_BIT else bits % HIDDEN_BIT + HIDDEN_BIT
  }

  predicate LowerBoundaryIsCloser(bits: nat) {
    bits % HIDDEN_BIT == 0 && Exponent(bits) != -1074
  }

  /** The bits of a positive double. */
  function Bits(significand: int, exponent: int): nat
    requires IsDouble(significand, exponent)
  {
    if significand < HIDDEN_BIT then significand
    else (exponent + 1075) * HIDDEN_BIT + (significand - HIDDEN_BIT)
  }

  /** The sign is the top bit, and nothing else depends on it. */
  lemma SignBit(bits: nat)
    requires bits < TWO63
    ensures !IsNegative(bits) && IsNegative(bits + TWO63)
    ensures Significand(bits + TWO63) == Significand(bits) && Exponent(bits + TWO63) == Exponent(bits)
    ensures IsSpecial(bits + TWO63) == IsSpecial(bits)
    ensures LowerBoundaryIsCloser(bits + TWO63) == LowerBoundaryIsCloser(bits)
    ensures IsSpecial(bits) <==> bits >= 0x7FF0_0000_0000_0000
  {
    var high, low := bits / HIDDEN_BIT, bits % HIDDEN_BIT;
    assert bits == high * HIDDEN_BIT + low && high < 2048;
    assert bits + TWO63 == (high + 2048) * HIDDEN_BIT + low;
  }

  /** What finite bits stand for, without the sign. */
  ghost function Magnitude(bits: nat): real {
    Number(Significand(bits), Exponent(bits))
  }

  /** Bits count the doubles upwards from zero, each a unit of its predecessor above it, and one has these bits. */
  lemma NextDouble(bits: nat)
    requires bits + 1 < 0x7FF0_0000_0000_0000
    ensures Magnitude(bits + 1) == Magnitude(bits) + Two(Exponent(bits))
    ensures Magnitude(0) == 0.0 && Magnitude(0x3FF0_0000_0000_0000) == 1.0
  {
    hide Two;
    NextFields(bits, HIDDEN_BIT);
    UnitAbove(Significand(bits), Exponent(bits));
    assert Number(0, -1074) == 0.0 by { RSignZero(Two(-1074)); }
    OneAsPower(52);
    assert Pow2(52) == HIDDEN_BIT by { Pow2At52(); }
  }

  /** A unit more, or twice the hidden bit. */
  lemma UnitAbove(significand: int, exponent: int)
    ensures Number(significand + 1, exponent) == Number(significand, exponent) + Two(exponent)
    ensures significand % 2 == 1 ==>
      Number((significand + 1) / 2, exponent + 1) == Number(significand, exponent) + Two(exponent)
  {
    hide Two;
    var t := Two(exponent);
    RDistribute(significand as real, 1.0, t);
    if significand % 2 == 1 {
      var h := (significand + 1) / 2;
      TwoStep(exponent);
      TwiceAsMany(h, t);
      assert 2 * h == significand + 1;
    }
  }

  lemma TwiceAsMany(h: int, t: real)
    ensures (h as real) * (2.0 * t) == ((2 * h) as real) * t
  {
    RAssoc(h as real, 2.0, t);
  }

  lemma RSignZero(t: real)
    ensures 0.0 * t == 0.0
  {
  }

  lemma OneAsPower(n: nat)
    ensures (Pow2(n) as real) * Two(0 - n) == 1.0
  {
    hide Two, Pow2;
    TwoAdd(0 - n, n);
    TwoZero();
    RCommute(Pow2(n) as real, Two(0 - n));
  }

  lemma Pow2At52()
    ensures Pow2(52) == 0x10_0000_0000_0000 && Pow2(23) == 0x80_0000
  {
    assert Pow2(13) == 8192 && Pow2(10) == 1024;
    hide Pow2;
    Pow2Add(13, 10);
    Pow2Add(13, 13);
    Pow2Add(26, 26);
  }

  /** One more is one more in the low bits, or a carry into the exponent. */
  lemma NextFields(bits: nat, hidden: nat)
    requires hidden > 0
    ensures var high, low := bits / hidden, bits % hidden;
      if low + 1 < hidden then (bits + 1) / hidden == high && (bits + 1) % hidden == low + 1
      else (bits + 1) / hidden == high + 1 && (bits + 1) % hidden == 0
  {
    var high, low := bits / hidden, bits % hidden;
    if low + 1 < hidden {
      QuotientIs(bits + 1, hidden, high, low + 1);
    } else {
      QuotientIs(bits + 1, hidden, high + 1, 0);
    }
  }

  /** Finite bits that are not zero are those of exactly one double, up to the sign. */
  lemma FieldsAreDouble(bits: nat)
    requires bits < TWO64 && !IsSpecial(bits) && Significand(bits) != 0
    ensures IsDouble(Significand(bits), Exponent(bits))
    ensures bits == Bits(Significand(bits), Exponent(bits)) + if IsNegative(bits) then TWO63 else 0
    ensures LowerBoundaryIsCloser(bits) <==> Significand(bits) == HIDDEN_BIT && Exponent(bits) > -1074
  {
    var high, low := bits / HIDDEN_BIT, bits % HIDDEN_BIT;
    assert bits == high * HIDDEN_BIT + low && high < 4096;
    assert bits >= TWO63 <==> high >= 2048;
  }

  lemma BitsHaveFields(significand: int, exponent: int)
    requires IsDouble(significand, exponent)
    ensures var bits := Bits(significand, exponent);
      && bits < TWO63 && !IsNegative(bits) && !IsSpecial(bits)
      && Significand(bits) == significand && Exponent(bits) == exponent
  {
    if significand >= HIDDEN_BIT {
      FieldsOf(exponent + 1075, significand - HIDDEN_BIT);
    } else {
      FieldsOf(0, significand);
    }
  }

  lemma FieldsOf(biased: nat, low: nat)
    requires biased < 2047 && low < HIDDEN_BIT
    ensures var bits := biased * HIDDEN_BIT + low;
      bits < TWO63 && BiasedExponent(bits) == biased && bits % HIDDEN_BIT == low
  {
  }

  // ---------- Singles, from 32 bits ----------

  const SINGLE_HIDDEN_BIT: nat := 0x80_0000

  predicate SingleIsNegative(bits: nat) {
    bits % TWO32 >= TWO31
  }

  function SingleBiasedExponent(bits: nat): nat {
    (bits / SINGLE_HIDDEN_BIT) % 256
  }

  predicate SingleIsSpecial(bits: nat) {
    SingleBiasedExponent(bits) == 255
  }

  function SingleExponent(bits: nat): int {
    if SingleBiasedExponent(bits) == 0 then -149 else SingleBiasedExponent(bits) - 150
  }

  function SingleSignificand(bits: nat): nat {
    bits % SINGLE_HIDDEN_BIT + if SingleBiasedExponent(bits) == 0 then 0 else SINGLE_HIDDEN_BIT
  }

  predicate SingleLowerBoundaryIsCloser(bits: nat) {
    bits % SINGLE_HIDDEN_BIT == 0 && SingleExponent(bits) != -149
  }

  lemma SingleSignBit(bits: nat)
    requires bits < TWO31
    ensures !SingleIsNegative(bits) && SingleIsNegative(bits + TWO31)
    ensures SingleSignificand(bits + TWO31) == SingleSignificand(bits)
    ensures SingleExponent(bits + TWO31) == SingleExponent(bits)
    ensures SingleIsSpecial(bits + TWO31) == SingleIsSpecial(bits)
    ensures SingleLowerBoundaryIsCloser(bits + TWO31) == SingleLowerBoundaryIsCloser(bits)
    ensures SingleIsSpecial(bits) <==> bits >= 0x7F80_0000
  {
    var high, low := bits / SINGLE_HIDDEN_BIT, bits % SINGLE_HIDDEN_BIT;
    assert bits == high * SINGLE_HIDDEN_BIT + low && high < 256;
    assert bits + TWO31 == (high + 256) * SINGLE_HIDDEN_BIT + low;
  }

  ghost function SingleMagnitude(bits: nat): real {
    Number(SingleSignificand(bits), SingleExponent(bits))
  }

  /** The same for singles. */
  lemma NextSingle(bits: nat)
    requires bits + 1 < 0x7F80_0000
    ensures SingleMagnitude(bits + 1) == SingleMagnitude(bits) + Two(SingleExponent(bits))
    ensures SingleMagnitude(0) == 0.0 && SingleMagnitude(0x3F80_0000) == 1.0
  {
    hide Two;
    NextFields(bits, SINGLE_HIDDEN_BIT);
    UnitAbove(SingleSignificand(bits), SingleExponent(bits));
    assert Number(0, -149) == 0.0 by { RSignZero(Two(-149)); }
    OneAsPower(23);
    assert Pow2(23) == SINGLE_HIDDEN_BIT by { Pow2At52(); }
  }

  /** Where the number is the hidden bit the predecessor is half as far away, except next to the subnormals. */
  lemma SingleBoundary(bits: nat)
    requires bits < TWO32 && !SingleIsSpecial(bits) && SingleSignificand(bits) != 0
    ensures 0 < SingleSignificand(bits) < 2 * SINGLE_HIDDEN_BIT && -149 <= SingleExponent(bits) <= 104
    ensures SingleSignificand(bits) < SINGLE_HIDDEN_BIT ==> SingleExponent(bits) == -149
    ensures SingleLowerBoundaryIsCloser(bits) <==>
      SingleSignificand(bits) == SINGLE_HIDDEN_BIT && SingleExponent(bits) > -149
  {
  }
}
