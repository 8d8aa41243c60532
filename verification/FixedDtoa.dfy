/**
  The fast path for a fixed number of decimals: integer and fraction are
  converted with 64-bit, or for small numbers 128-bit, arithmetic.
 */
module FixedDtoa {
  import opened Positional
  import opened DigitLoops
  import opened Powers
  import opened Decimal
  import opened RealPowers
  import opened Doubles
  import opened Rounding
  import opened StartValues
  import opened BignumFixed
  import opened MachineWords
  import opened DigitFilling

  // ---------- The fraction ----------

  /**
    After i digits: the buffer, w, and the rest f, with the binary point at bit
    `point`, make up v in units of 10^-i.
   */
  ghost predicate Splitting(v: real, i: nat, w: int, f: int, point: nat) {
    0 <= f < Pow2(point) && v * Ten(i) == (w as real) + (f as real) * Two(0 - point)
  }

  /** Ten times the rest is five times it with the point one bit down. */
  lemma SplitStep(v: real, i: nat, w: int, f: int, point: nat, digit: int, rest: int)
    requires Splitting(v, i, w, f, point) && point >= 1
    requires 5 * f == digit * Pow2(point - 1) + rest && 0 <= rest < Pow2(point - 1)
    ensures Splitting(v, i + 1, 10 * w + digit, rest, point - 1)
  {
    hide Ten, Two, Pow2;
    var t, u := Two(0 - point), Two(1 - point);
    TenStep(i);
    TwoStep(0 - point);
    RSwap(v, 10.0, Ten(i));
    TwoAdd(1 - point, point - 1);
    assert Two(0) == 1.0 by { TwoZero(); }
    FiveAtLowerPoint(f, digit, rest, Pow2(point - 1), t, u);
  }

  lemma FiveAtLowerPoint(f: int, digit: int, rest: int, p: int, t: real, u: real)
    requires 5 * f == digit * p + rest && u == 2.0 * t && 1.0 == u * (p as real)
    ensures 10.0 * ((f as real) * t) == (digit as real) + (rest as real) * u
  {
    IntProduct(digit, p);
    var f', d', r', p' := f as real, digit as real, rest as real, p as real;
    assert 5.0 * f' == d' * p' + r';
    RSwap(10.0, f', t);
    RAssoc(f', 5.0, u);
    RDistribute(d' * p', r', u);
    RAssoc(d', p', u);
    RCommute(p', u);
    assert 10.0 * t == 5.0 * u;
    RCommute(f', 5.0);
  }

  /** The digit split off is a decimal one. */
  lemma FractionDigit(f: int, point: nat)
    requires 0 <= f < Pow2(point) && point >= 1
    ensures var p := Pow2(point - 1);
      && 0 <= (5 * f) / p <= 9
      && 5 * f == ((5 * f) / p) * p + (5 * f) % p
      && 0 <= (5 * f) % p < p && 5 * f < 10 * p
  {
    BelowProduct(5 * f, 10, Pow2(point - 1));
  }

  /** The bit below the point decides: with it set the rest is at least one half. */
  ghost function RoundBit(f: int, point: nat): int {
    if point == 0 then 0 else (f / Pow2(point - 1)) % 2
  }

  lemma RoundBitIsHalf(f: int, point: nat)
    requires 0 <= f < Pow2(point)
    ensures RoundBit(f, point) == 0 || RoundBit(f, point) == 1
    ensures RoundBit(f, point) == 1 <==> 2 * f >= Pow2(point)
  {
    if point > 0 { BelowProduct(f, 2, Pow2(point - 1)); }
  }

  lemma PointUnit(point: nat)
    ensures Two(0 - point) * (Pow2(point) as real) == 1.0
  {
    TwoAdd(0 - point, point);
    assert (0 - point) + point == 0;
  }

  lemma HalfOfUnit(f: int, p: int, t: real)
    requires t > 0.0 && t * (p as real) == 1.0 && 0 <= f < p
    ensures 2 * f >= p <==> (f as real) * t >= 0.5
    ensures 0.0 <= (f as real) * t < 1.0
  {
    Doubled(f, t);
    RCommute(p as real, t);
    InOrder(0, f, t, 0.0, (f as real) * t);
    InOrder(f, p, t, (f as real) * t, 1.0);
    InOrder(p, 2 * f, t, 1.0, 2.0 * ((f as real) * t));
  }

  lemma Doubled(f: int, t: real)
    ensures ((2 * f) as real) * t == 2.0 * ((f as real) * t)
  {
    RAssoc(2.0, f as real, t);
  }

  /** Stopping after i digits, because there were enough or nothing was left. */
  lemma SplitDone(v: real, i: nat, w: int, f: int, point: nat, n: nat)
    requires Splitting(v, i, w, f, point) && i <= n && (i == n || f == 0)
    ensures Decimal10(w + RoundBit(f, point), 0 - i) == Decimal10(HalfUp(v, n), 0 - n)
  {
    hide Ten, Two, Pow2, RoundBit, HalfUp;
    RoundBitIsHalf(f, point);
    var bit := RoundBit(f, point);
    if f == 0 {
      assert bit == 0;
      ExactStays(v, w, i, n);
    } else {
      PointUnit(point);
      HalfOfUnit(f, Pow2(point), Two(0 - point));
      HalfUpCharacter(v, n, w + bit);
      assert ((w + bit) as real) == (w as real) + (bit as real);
    }
  }

  // ---------- 64 bits ----------

  /** The rest has room for a factor of five at every step. */
  ghost predicate RoomForFive(f: int, i: nat, room: int) {
    (i == 0 ==> f < room) && (i == 1 ==> f < 5 * room) && (i == 2 ==> f < 25 * room)
  }

  lemma FiveFits(f: int, i: nat, point: nat, start: nat, bits: nat, room: int, limit: int)
    requires RoomForFive(f, i, room) && 0 <= f < Pow2(point) && point == start - i && start <= bits && bits >= 3
    requires limit == Pow2(bits) && 125 * room <= limit
    ensures 5 * f < limit
  {
    hide Pow2;
    if i >= 3 {
      Pow2Monotone(point, bits - 3);
      Pow2Add(bits - 3, 3);
      assert Pow2(3) == 8 by { PowThree(); }
    }
  }

  lemma RoomAtStart(f: int, room: int)
    requires f < room
    ensures RoomForFive(f, 0, room)
  {
  }

  lemma SplittingBelow(v: real, i: nat, w: int, f: int, point: nat)
    requires Splitting(v, i, w, f, point)
    ensures 0 <= f < Pow2(point)
  {
  }

  lemma RoomAfterFive(f: int, i: nat, room: int, f': int)
    requires RoomForFive(f, i, room) && 0 <= f' <= 5 * f
    ensures RoomForFive(f', i + 1, room)
  {
  }

  lemma PowThree()
    ensures Pow2(3) == 8
  {
  }

  method SplitDigits64(fractionals: nat, point0: nat, count: nat, buffer: array<int>, length0: nat, ghost v: real)
      returns (f: nat, point: nat, length: nat)
    requires fractionals < 0x100_0000_0000_0000 && fractionals < Pow2(point0) && point0 <= 64
    requires length0 + count <= buffer.Length && IsDecimal(buffer[..length0])
    requires Splitting(v, 0, Dec(buffer[..length0]), fractionals, point0)
    modifies buffer
    ensures length0 <= length <= length0 + count && IsDecimal(buffer[..length])
    ensures length == length0 + count || f == 0
    ensures Splitting(v, length - length0, Dec(buffer[..length]), f, point)
    ensures point <= point0
    ensures point == 0 <==> point0 == 0 || (fractionals % 2 == 1 && point0 <= count)
  {
    hide Dec, Pow2, Splitting, RoomForFive;
    Pow2Words();
    RoomAtStart(fractionals, 0x100_0000_0000_0000);
    f, point, length := fractionals, point0, length0;
    var i := 0;
    while i < count && f != 0
      invariant 0 <= i <= count && length == length0 + i && point == point0 - i
      invariant f < Pow2(point) && RoomForFive(f, i, 0x100_0000_0000_0000)
      invariant point0 > 0 && fractionals % 2 == 0 ==> f % 2 == 0 && point > 0
      invariant point0 > 0 && fractionals % 2 == 1 ==> (if point == 0 then f == 0 else f % 2 == 1)
      invariant IsDecimal(buffer[..length])
      invariant Splitting(v, i, Dec(buffer[..length]), f, point)
    {
      PointLeft(f, point);
      FiveFits(f, i, point, point0, 64, 0x100_0000_0000_0000, TWO64);
      FractionDigit(f, point);
      ghost var w, g := Dec(buffer[..length]), f;
      f := f * 5;
      assert f < TWO64;
      point := point - 1;
      var digit := f / Pow2(point);
      StoreDigit(buffer, length, digit);
      length := length + 1;
      f := f - digit * Pow2(point);
      SplitStep(v, i, w, g, point + 1, digit, f);
      ParityKept(g, point, digit, f);
      RoomAfterFive(g, i, 0x100_0000_0000_0000, f);
      i := i + 1;
    }
  }

  /** A digit taken off leaves an odd number odd and an even one even, until the point is at the end. */
  lemma ParityKept(g: int, point: nat, digit: int, f: int)
    requires 0 < g < Pow2(point + 1) && f == g * 5 - digit * Pow2(point) && 0 <= f < Pow2(point)
    ensures point >= 1 ==> f % 2 == g % 2
    ensures point == 0 ==> f == 0 && g % 2 == 1
  {
    if point >= 1 {
      HalfProduct(digit, point);
      SameParity(f, g, digit * Pow2(point - 1));
    }
  }

  lemma SameParity(f: int, g: int, h: int)
    requires f == g * 5 - 2 * h
    ensures f % 2 == g % 2
  {
    assert f == g + 2 * (2 * g - h);
  }

  lemma PointLeft(f: int, point: nat)
    requires 0 < f < Pow2(point)
    ensures point >= 1
  {
  }

  // ---------- 128 bits ----------

  const ROOM128: int := 0x80_0000_0000_0000_0000_0000_0000_0000

  method SplitDigits128(fractionals: UInt128, count: nat, buffer: array<int>, length0: nat, ghost v: real)
      returns (point: nat, length: nat)
    requires fractionals.Valid() && fractionals.Value() < ROOM128
    requires count <= 20 && length0 + count <= buffer.Length && IsDecimal(buffer[..length0])
    requires Splitting(v, 0, Dec(buffer[..length0]), fractionals.Value(), 128)
    modifies buffer, fractionals
    ensures fractionals.Valid() && 108 <= point
    ensures length0 <= length <= length0 + count && IsDecimal(buffer[..length])
    ensures length == length0 + count || fractionals.Value() == 0
    ensures point <= 128 && Splitting(v, length - length0, Dec(buffer[..length]), fractionals.Value(), point)
  {
    hide Dec, Pow2, Splitting, RoomForFive, UInt128.Value;
    Pow2Words();
    RoomAtStart(fractionals.Value(), ROOM128);
    SplittingBelow(v, 0, Dec(buffer[..length0]), fractionals.Value(), 128);
    point, length := 128, length0;
    var i := 0;
    while i < count && !fractionals.IsZero()
      invariant 0 <= i <= count && length == length0 + i && point == 128 - i
      invariant fractionals.Valid() && fractionals.Value() < Pow2(point)
      invariant RoomForFive(fractionals.Value(), i, ROOM128)
      invariant IsDecimal(buffer[..length])
      invariant Splitting(v, i, Dec(buffer[..length]), fractionals.Value(), point)
    {
      ghost var w, g := Dec(buffer[..length]), fractionals.Value();
      FiveFits(g, i, point, 128, 128, ROOM128, TWO128);
      FractionDigit(g, point);
      fractionals.Multiply(5);
      point := point - 1;
      var digit := fractionals.DivModPowerOf2(point);
      QuotientIs(5 * g, Pow2(point), digit, fractionals.Value());
      RoomAfterFive(g, i, ROOM128, fractionals.Value());
      StoreDigit(buffer, length, digit);
      length := length + 1;
      SplitStep(v, i, w, g, point + 1, digit, fractionals.Value());
      i := i + 1;
    }
  }

  // ---------- All of the fraction ----------

  /** The fraction as the 128-bit branch holds it. */
  lemma Widened(f: nat, exponent: int)
    requires f < 0x100_0000_0000_0000 && -128 <= exponent < -64
    ensures var x := f * Pow2(128 + exponent);
      && (f * TWO64) / Pow2(-exponent - 64) == x && 0 <= x < ROOM128
      && (x as real) * Two(-128) == (f as real) * Two(exponent)
  {
    hide Pow2, Two;
    var k, m := Pow2(-exponent - 64), Pow2(128 + exponent);
    Pow2Add(-exponent - 64, 128 + exponent);
    Pow2Words();
    PullFactor(f, k, m);
    QuotientIs(f * TWO64, k, f * m, 0);
    Pow2Monotone(128 + exponent, 63);
    assert Pow2(63) == 0x8000_0000_0000_0000 by { Pow2Add(63, 1); PowOne(); }
    MulMonotone(m, 0x8000_0000_0000_0000, f);
    ProductNat(f, m);
    TwoAdd(-128, 128 + exponent);
    IntProduct(f, m);
    RAssoc(f as real, m as real, Two(-128));
    RCommute(m as real, Two(-128));
  }

  lemma SplitStart(v: real, w: int, f: int, point: nat, y: real)
    requires 0 <= f < Pow2(point) && y == (f as real) * Two(0 - point) && v == (w as real) + y
    ensures Splitting(v, 0, w, f, point)
  {
    TenIsTen();
  }

  /** What stopping means for the buffer: its digits, with one added in the last place if the bit is set. */
  lemma Filled(v: real, n: nat, w: int, f: int, binaryPoint: nat, i: nat, digits: seq<int>, point: int)
    requires Splitting(v, i, w, f, binaryPoint) && i <= n && (i == n || f == 0)
    requires IsDecimal(digits) && Denoted(digits, point) == Decimal10(w + RoundBit(f, binaryPoint), 0 - i)
    ensures RoundedTo(v, n, digits, point)
  {
    hide Splitting, RoundBit, HalfUp, Denoted, Decimal10;
    SplitDone(v, i, w, f, binaryPoint, n);
  }

  method RoundLast(bit: int, buffer: array<int>, length0: nat, point0: int, ghost w: int)
      returns (length: nat, point: int)
    requires length0 <= buffer.Length && 0 < buffer.Length && IsDecimal(buffer[..length0])
    requires w == Dec(buffer[..length0]) && (bit == 0 || bit == 1) && (length0 == 0 ==> point0 == 0)
    modifies buffer
    ensures length <= buffer.Length && IsDecimal(buffer[..length])
    ensures Denoted(buffer[..length], point) == Decimal10(w + bit, point0 - length0)
  {
    hide Dec, Ten;
    length, point := length0, point0;
    if bit == 1 {
      length, point := DigitFilling.RoundUp(buffer, length, point);
    }
  }

  /** The fraction that is odd and has no more bits than decimals, and the fraction of no bits at all. */
  predicate EndsAtPoint(fractionals: nat, exponent: int, count: nat) {
    exponent == 0 || (fractionals % 2 == 1 && -64 <= exponent && -exponent <= count)
  }

  /**
    Digits of the fraction, rounded half up into whatever the buffer already
    holds. The bit behind the last digit is found by shifting down; for a
    fraction that ends at the point the source shifts by minus one, and the bit
    is taken to be zero here, as nothing is left.
   */
  method FillFractionals(fractionals: nat, exponent: int, count: nat, buffer: array<int>, length0: nat, point0: int,
                         ghost v: real)
      returns (length: nat, point: int, ghost shift: int)
    requires -128 <= exponent <= 0 && fractionals < 0x100_0000_0000_0000 && fractionals < Pow2(-exponent)
    requires count <= 20 && 0 < buffer.Length && length0 + count <= buffer.Length
    requires IsDecimal(buffer[..length0]) && point0 == length0
    requires v == (Dec(buffer[..length0]) as real) + (fractionals as real) * Two(exponent)
    modifies buffer
    ensures length <= buffer.Length && RoundedTo(v, count, buffer[..length], point)
    ensures -1 <= shift < (if -exponent <= 64 then 64 else 128)
    ensures shift == -1 <==> EndsAtPoint(fractionals, exponent, count)
  {
    hide Dec, Pow2, Two, Splitting, Denoted, RoundedTo, Decimal10, UInt128.Value;
    ghost var w := Dec(buffer[..length0]);
    if -exponent <= 64 {
      SplitStart(v, w, fractionals, -exponent, (fractionals as real) * Two(exponent));
      var f, binaryPoint, length1 := SplitDigits64(fractionals, -exponent, count, buffer, length0, v);
      ghost var w1 := Dec(buffer[..length1]);
      RoundBitOf(v, length1 - length0, w1, f, binaryPoint);
      shift := binaryPoint as int - 1;
      var bit := if binaryPoint == 0 then 0 else (f / Pow2(binaryPoint - 1)) % 2;
      length, point := RoundLast(bit, buffer, length1, point0, w1);
      Filled(v, count, w1, f, binaryPoint, length1 - length0, buffer[..length], point);
    } else {
      length, point, shift := FillFractionals128(fractionals, exponent, count, buffer, length0, point0, v);
    }
  }

  lemma RoundBitOf(v: real, i: nat, w: int, f: int, point: nat)
    requires Splitting(v, i, w, f, point)
    ensures RoundBit(f, point) == 0 || RoundBit(f, point) == 1
  {
    RoundBitIsHalf(f, point);
  }

  method FillFractionals128(fractionals: nat, exponent: int, count: nat, buffer: array<int>, length0: nat, point0: int,
                            ghost v: real)
      returns (length: nat, point: int, ghost shift: int)
    requires -128 <= exponent < -64 && fractionals < 0x100_0000_0000_0000
    requires count <= 20 && 0 < buffer.Length && length0 + count <= buffer.Length
    requires IsDecimal(buffer[..length0]) && point0 == length0
    requires v == (Dec(buffer[..length0]) as real) + (fractionals as real) * Two(exponent)
    modifies buffer
    ensures length <= buffer.Length && RoundedTo(v, count, buffer[..length], point)
    ensures 0 <= shift < 128
  {
    hide Dec, Pow2, Two, Splitting, Denoted, RoundedTo, Decimal10, UInt128.Value;
    Pow2Words();
    Widened(fractionals, exponent);
    var fractionals128 := new UInt128(fractionals, 0);
    fractionals128.Shift(-exponent - 64);
    SplitStart(v, Dec(buffer[..length0]), fractionals128.Value(), 128, (fractionals as real) * Two(exponent));
    var binaryPoint, length1 := SplitDigits128(fractionals128, count, buffer, length0, v);
    ghost var w1, f := Dec(buffer[..length1]), fractionals128.Value();
    RoundBitOf(v, length1 - length0, w1, f, binaryPoint);
    shift := binaryPoint - 1;
    var bit := fractionals128.BitAt(binaryPoint - 1);
    length, point := RoundLast(bit, buffer, length1, point0, w1);
    Filled(v, count, w1, f, binaryPoint, length1 - length0, buffer[..length], point);
  }

  // ---------- The integer part ----------

  /** The buffer holds the integer x. */
  ghost predicate Holds(digits: seq<int>, x: int) {
    IsDecimal(digits) && Dec(digits) == x
  }

  lemma AppendedToNothing(t: seq<int>, number: int, k: nat)
    requires Appended([], t, number, k)
    ensures Holds(t, number)
  {
    AppendedIsDecimal([], t, number, k);
  }

  /** Division by 10^17 through its factor 5^17: quotient and remainder of significand * 2^exponent. */
  method DivideByTen17(significand: nat, exponent: nat) returns (quotient: nat, remainder: nat)
    requires significand < 0x20_0000_0000_0000 && 12 <= exponent <= 20
    ensures significand * Pow2(exponent) == quotient * 100_000_000_000_000_000 + remainder
    ensures quotient < TWO32 && remainder < 100_000_000_000_000_000
  {
    hide Pow2;
    SmallShifts();
    var divisor := 762_939_453_125;
    var dividend := significand;
    if exponent > 17 {
      Pow2Add(exponent - 17, 17);
      ShiftedDividend(significand, exponent);
      dividend := dividend * Pow2(exponent - 17);
      assert dividend < TWO64;
      quotient := dividend / divisor;
      remainder := (dividend % divisor) * Pow2(17);
    } else {
      Pow2Add(17 - exponent, exponent);
      ShiftedDivisor(significand, Pow2(17 - exponent), Pow2(exponent));
      divisor := divisor * Pow2(17 - exponent);
      assert divisor < TWO64;
      quotient := dividend / divisor;
      remainder := (dividend % divisor) * Pow2(exponent);
    }
  }

  lemma SmallShifts()
    ensures Pow2(1) == 2 && Pow2(2) == 4 && Pow2(3) == 8 && Pow2(17) == 0x2_0000
  {
    Pow2Small();
    Pow2Add(14, 3);
  }

  lemma ShiftedDividend(s: int, exponent: nat)
    requires 0 <= s < 0x20_0000_0000_0000 && 17 < exponent <= 20
    ensures var x := s * Pow2(exponent - 17); var q, r := x / 762_939_453_125, x % 762_939_453_125;
      && 0 <= x < 0x100_0000_0000_0000 && 0 <= q < TWO32
      && s * Pow2(exponent) == q * 100_000_000_000_000_000 + r * 0x2_0000
  {
    hide Pow2;
    SmallShifts();
    Pow2Add(exponent - 17, 17);
    var x := s * Pow2(exponent - 17);
    assert exponent == 18 || exponent == 19 || exponent == 20;
    ProductOfThree(s, Pow2(exponent - 17), 0x2_0000);
    var q, r := x / 762_939_453_125, x % 762_939_453_125;
    assert x == 762_939_453_125 * q + r;
  }

  lemma ShiftedDivisor(s: int, m: int, p: int)
    requires 0 <= s < 0x20_0000_0000_0000 && 1 <= m <= 0x2_0000 && 1 <= p && m * p == 0x2_0000
    ensures var d := 762_939_453_125 * m; var q, r := s / d, s % d;
      && 0 < d < TWO64 && 0 <= q < TWO32
      && s * p == q * 100_000_000_000_000_000 + r * p
      && 0 <= r * p < 100_000_000_000_000_000
  {
    var d := 762_939_453_125 * m;
    var q, r := s / d, s % d;
    assert s == d * q + r;
    SplitTimes(d, p, q, r);
    ProductOfThree(762_939_453_125, m, p);
    assert d * p == 100_000_000_000_000_000;
    MulBelow(r, d, p);
    ProductNat(r, p);
    if q >= TWO32 { MulMonotone(762_939_453_125, d, q); }
    if q < 0 { MulMonotone(q, -1, d); }
  }

  /** An integer of up to 73 bits. */
  method FillLargeInteger(significand: nat, exponent: nat, buffer: array<int>) returns (length: nat)
    requires significand < 0x20_0000_0000_0000 && 12 <= exponent <= 20 && buffer.Length >= 27
    modifies buffer
    ensures length <= buffer.Length && Holds(buffer[..length], significand * Pow2(exponent))
  {
    hide Pow2, Pow10, Dec, Appended;
    var quotient, remainder := DivideByTen17(significand, exponent);
    ghost var s := buffer[..0];
    length := FillDigits32(quotient, buffer, 0);
    ghost var t, k := buffer[..length], length;
    length := FillDigits64FixedLength(remainder, buffer, length);
    AppendedTwice(s, t, buffer[..length], quotient, k, remainder, 17);
    SmallPowers();
    AppendedToNothing(buffer[..length], significand * Pow2(exponent), k + 17);
  }

  /** The integer part of a number with a fraction. */
  method FillIntegrals(integrals: nat, buffer: array<int>) returns (length: nat)
    requires integrals < TWO64 && buffer.Length >= 24
    modifies buffer
    ensures length <= 24 && Holds(buffer[..length], integrals)
  {
    hide Pow10, Dec, Appended;
    assert buffer[..0] == [];
    if integrals > 0xFFFF_FFFF {
      length := FillDigits64(integrals, buffer, 0);
    } else {
      length := FillDigits32(integrals, buffer, 0);
    }
    AppendedToNothing(buffer[..length], integrals, length);
  }

  // ---------- The whole conversion ----------

  /** An integer needs no rounding. */
  lemma IntegerIsRounded(significand: int, exponent: nat, digits: seq<int>, n: nat)
    requires Holds(digits, significand * Pow2(exponent))
    ensures RoundedTo(Number(significand, exponent), n, digits, |digits|)
  {
    hide Ten, Two, Pow2, Dec, HalfUp;
    TwoAdd(0, exponent);
    TwoZero();
    IntProduct(significand, Pow2(exponent));
    TenIsTen();
    ExactStays(Number(significand, exponent), significand * Pow2(exponent), 0, n);
  }

  /** A number with a fraction is its integer part plus the rest. */
  lemma CutNumber(significand: nat, exponent: int)
    requires exponent < 0
    ensures var p := Pow2(-exponent); var q, r := significand / p, significand % p;
      && Number(significand, exponent) == (q as real) + (r as real) * Two(exponent)
      && significand - q * p == r && 0 <= r < p && 0 <= q <= significand
  {
    hide Pow2, Two;
    var p := Pow2(-exponent);
    var q, r := significand / p, significand % p;
    assert significand == p * q + r;
    TwoSplit(exponent);
    assert Pow2(Up(exponent)) == 1 by { PowZeroIsOne(); }
    IntProduct(p, q);
    CutReal(significand as real, p as real, q as real, r as real, Two(exponent));
    AtMost(significand, p);
  }

  lemma CutReal(s: real, p: real, q: real, r: real, t: real)
    requires s == p * q + r && t * p == 1.0
    ensures s * t == q + r * t
  {
    RDistribute(p * q, r, t);
    RCommute(p * q, t);
    RAssoc(t, p, q);
  }

  /** Below 2^-128 a number has no digits within the first twenty decimals. */
  lemma NothingToPrint(significand: nat, exponent: int, n: nat)
    requires significand < 0x20_0000_0000_0000 && exponent < -128 && n <= 20
    ensures RoundedTo(Number(significand, exponent), n, [], 0 - n)
  {
    hide Ten, Two, Pow2, RoundedTo;
    var v, k := Number(significand, exponent), -exponent - 129;
    TwoAdd(exponent, k);
    Pow2AtLeastOne(k);
    ScaleOrder(1, Pow2(k), Two(exponent));
    RCommute(Two(exponent), Pow2(k) as real);
    assert Two(exponent) <= Two(-129);
    InOrder(significand, 0x20_0000_0000_0000, Two(exponent), v, 9007199254740992.0 * Two(exponent));
    Tiny();
    TenSteps(n);
    NumberPositive(significand, exponent);
    TooSmall(v, n, -(n as int) - 1);
  }

  lemma Pow2AtLeastOne(k: nat)
    ensures Pow2(k) >= 1
  {
  }

  /** 2^53 * 2^-129 is below 10^-21. */
  lemma Tiny()
    ensures 9007199254740992.0 * Two(-129) < Ten(-21)
  {
    hide Two, Ten, Pow2, Pow10;
    TwoAdd(-129, 129);
    TwoZero();
    TenAdd(-21, 21);
    TenIsTen();
    SmallPowers();
    Pow10Add(14, 7);
    Pow2Words();
    Pow2Add(128, 1);
    PowOne();
    var t, u := Two(-129), Ten(-21);
    assert t * 680564733841876926926749214863536422912.0 == 1.0;
    assert u * 1000000000000000000000.0 == 1.0;
  }

  lemma TenSteps(n: nat)
    requires n <= 20
    ensures Ten(-21) <= Ten(0 - n - 1)
  {
    hide Ten, Pow10;
    var k: nat := 20 - n;
    TenAdd(-21, k);
    assert -21 + k == 0 - n - 1;
    AtLeastItself(Ten(-21), Pow10(k), Ten(0 - n - 1));
  }

  lemma AtLeastItself(x: real, p: nat, y: real)
    requires x > 0.0 && p >= 1 && y == x * (p as real)
    ensures x <= y
  {
    ScaleOrder(1, p, x);
    RCommute(x, p as real);
  }

  /** Trimming does not change what the digits denote, and an empty buffer denotes zero whatever the point. */
  lemma TrimmedIsRounded(v: real, n: nat, before: seq<int>, point0: int, after: seq<int>, point1: int, point: int)
    requires RoundedTo(v, n, before, point0) && IsDecimal(after)
    requires Denoted(after, point1) == Denoted(before, point0)
    requires point == if |after| == 0 then 0 - n else point1
    ensures RoundedTo(v, n, after, point)
  {
    hide Ten, HalfUp;
    if |after| == 0 {
      DecEmpty();
      assert Denoted(after, point) == 0.0 == Denoted(after, point1);
    }
  }

  /** An odd significand whose fraction has no more bits than decimals are asked for. */
  predicate ShiftsTooLittle(significand: nat, exponent: int, count: nat) {
    significand % 2 == 1 && exponent < 0 && -exponent <= count
  }

  lemma FractionEnds(significand: nat, exponent: int, integrals: nat, fractionals: nat, count: nat)
    requires exponent < 0 && fractionals == significand - integrals * Pow2(-exponent) && count <= 20
    ensures EndsAtPoint(fractionals, exponent, count) <==> ShiftsTooLittle(significand, exponent, count)
  {
    hide Pow2;
    HalfProduct(integrals, -exponent);
    EvenPart(significand, fractionals, integrals * Pow2(-exponent - 1));
    SameEnd(fractionals, significand, exponent, count);
  }

  lemma EvenPart(x: int, y: int, h: int)
    requires y == x - 2 * h
    ensures y % 2 == x % 2
  {
  }

  /** The digits, before trimming. */
  method FixedInteger(significand: nat, exponent: int, count: nat, buffer: array<int>) returns (length: nat, point: int)
    requires significand < 0x20_0000_0000_0000 && 0 <= exponent <= 20 && buffer.Length >= 27
    modifies buffer
    ensures length <= buffer.Length && RoundedTo(Number(significand, exponent), count, buffer[..length], point)
  {
    hide Ten, Two, Pow2, Dec, RoundedTo, Number;
    if exponent + 53 > 64 {
      length := FillLargeInteger(significand, exponent, buffer);
    } else {
      ShiftFits(significand, exponent);
      assert buffer[..0] == [];
      length := FillDigits64(significand * Pow2(exponent), buffer, 0);
      AppendedToNothing(buffer[..length], significand * Pow2(exponent), length);
    }
    point := length;
    IntegerIsRounded(significand, exponent, buffer[..length], count);
  }

  method FixedFraction(significand: nat, exponent: int, count: nat, buffer: array<int>)
      returns (length: nat, point: int, ghost shifts: seq<int>)
    requires significand < 0x20_0000_0000_0000 && exponent < 0 && count <= 20 && buffer.Length >= 27 + count
    modifies buffer
    ensures length <= buffer.Length && RoundedTo(Number(significand, exponent), count, buffer[..length], point)
    ensures -1 in shifts <==> ShiftsTooLittle(significand, exponent, count)
  {
    hide Ten, Two, Pow2, Dec, RoundedTo, Number, EndsAtPoint, ShiftsTooLittle;
    ghost var v := Number(significand, exponent);
    ghost var shift;
    shifts := [];
    if exponent > -53 {
      CutNumber(significand, exponent);
      var integrals := significand / Pow2(-exponent);
      var fractionals := significand - integrals * Pow2(-exponent);
      FractionEnds(significand, exponent, integrals, fractionals, count);
      length := FillIntegrals(integrals, buffer);
      length, point, shift := FillFractionals(fractionals, exponent, count, buffer, length, length, v);
      shifts := [shift];
    } else if exponent < -128 {
      length := 0;
      point := 0 - count;
      NothingToPrint(significand, exponent, count);
      SameEnd(significand, significand, exponent, count);
      assert buffer[..0] == [];
    } else {
      AllFraction(significand, exponent);
      SameEnd(significand, significand, exponent, count);
      assert buffer[..0] == [];
      length, point, shift := FillFractionals(significand, exponent, count, buffer, 0, 0, v);
      shifts := [shift];
    }
  }

  lemma SameEnd(fractionals: nat, significand: nat, exponent: int, count: nat)
    requires exponent < 0 && count <= 20 && fractionals % 2 == significand % 2
    ensures EndsAtPoint(fractionals, exponent, count) <==> ShiftsTooLittle(significand, exponent, count)
    ensures exponent < -128 ==> !ShiftsTooLittle(significand, exponent, count)
  {
  }

  method FixedUntrimmed(significand: nat, exponent: int, count: nat, buffer: array<int>)
      returns (length: nat, point: int, ghost shifts: seq<int>)
    requires significand < 0x20_0000_0000_0000 && exponent <= 20 && count <= 20 && buffer.Length >= 27 + count
    modifies buffer
    ensures length <= buffer.Length && RoundedTo(Number(significand, exponent), count, buffer[..length], point)
    ensures -1 in shifts <==> ShiftsTooLittle(significand, exponent, count)
  {
    hide RoundedTo, Number;
    if exponent >= 0 {
      shifts := [];
      length, point := FixedInteger(significand, exponent, count, buffer);
    } else {
      length, point, shifts := FixedFraction(significand, exponent, count, buffer);
    }
  }

  lemma ShiftFits(significand: nat, exponent: nat)
    requires significand < 0x20_0000_0000_0000 && exponent <= 11
    ensures 0 <= significand * Pow2(exponent) < TWO64
  {
    hide Pow2;
    Pow2Monotone(exponent, 11);
    assert Pow2(11) == 2048 by { Pow2Eleven(); }
    MulMonotone(Pow2(exponent), 2048, significand);
    ProductNat(significand, Pow2(exponent));
  }

  lemma Pow2Eleven()
    ensures Pow2(11) == 2048 && Pow2(53) == 0x20_0000_0000_0000
  {
    Pow2Small();
    Pow2Add(32, 14);
    Pow2Add(46, 7);
  }

  lemma AllFraction(significand: nat, exponent: int)
    requires significand < 0x20_0000_0000_0000 && exponent <= -53
    ensures significand < Pow2(-exponent)
    ensures Number(significand, exponent) == (Dec([]) as real) + (significand as real) * Two(exponent)
  {
    hide Pow2, Two;
    Pow2Monotone(53, -exponent);
    Pow2Eleven();
  }

  /** Prints v with `count` decimals if it can; it can exactly when exponent and count are at most twenty. */
  method FastFixedDtoa(significand: nat, exponent: int, count: nat, buffer: array<int>)
      returns (ok: bool, length: nat, point: int, ghost shifts: seq<int>)
    requires significand < 0x20_0000_0000_0000 && buffer.Length >= 27 + count
    modifies buffer
    ensures ok <==> exponent <= 20 && count <= 20
    ensures ok ==> length <= buffer.Length && RoundedTo(Number(significand, exponent), count, buffer[..length], point)
    ensures ok ==> NoOuterZeros(buffer[..length])
    ensures ok ==> (-1 in shifts <==> ShiftsTooLittle(significand, exponent, count))
  {
    hide Ten, Two, Dec, RoundedTo, Number, Denoted;
    length, point, shifts := 0, 0, [];
    if exponent > 20 || count > 20 {
      return false, length, point, shifts;
    }
    ghost var v := Number(significand, exponent);
    length, point, shifts := FixedUntrimmed(significand, exponent, count, buffer);
    ghost var before, point0 := buffer[..length], point;
    RoundedIsDecimal(v, count, before, point0);
    length, point := TrimZeros(buffer, length, point);
    ghost var point1 := point;
    if length == 0 {
      point := 0 - count;
    }
    TrimmedIsRounded(v, count, before, point0, buffer[..length], point1, point);
    ok := true;
  }

  /** The double (2^52 + 1) / 2 with one decimal, printed right, makes the source shift by minus one. */
  method ShiftByMinusOne(buffer: array<int>) returns (ok: bool, length: nat, point: int, ghost shifts: seq<int>)
    requires buffer.Length >= 28
    modifies buffer
    ensures IsDouble(0x10_0000_0000_0001, -1) && ok && -1 in shifts
    ensures length <= buffer.Length && RoundedTo(Number(0x10_0000_0000_0001, -1), 1, buffer[..length], point)
  {
    hide RoundedTo, Number;
    ok, length, point, shifts := FastFixedDtoa(0x10_0000_0000_0001, -1, 1, buffer);
  }

  lemma RoundedIsDecimal(v: real, n: int, digits: seq<int>, point: int)
    requires RoundedTo(v, n, digits, point)
    ensures IsDecimal(digits)
  {
  }
}
