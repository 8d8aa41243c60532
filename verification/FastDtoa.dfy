/**
  Fast digit generation from a scaled number that is known to within one unit:
  the shortest digits, or a counted number of them, or an admission of failure.
 */
module FastDtoa {
  import opened Positional
  import opened DigitLoops
  import opened Powers
  import opened Decimal
  import opened RealPowers
  import opened Rounding
  import opened MachineWords
  import opened DigitFilling
  import opened DiyFpModel
  import opened Weeding

  // ---------- The first digit's place ----------

  const SMALL_POWERS: seq<nat> := [0, 1, 10, 100, 1_000, 10_000, 100_000, 1_000_000, 10_000_000, 100_000_000, 1_000_000_000]

  /** 1233/4096 is slightly more than the logarithm of two. */
  function Guess(bits: nat): nat {
    ((bits + 1) * 1233) / 4096 + 1
  }

  /** A power of ten for a number of at most `bits` bits, and one more than its exponent. */
  function BiggestPowerTen(number: nat, bits: nat): (r: (nat, nat))
    requires bits <= 32
  {
    var guess := Guess(bits);
    var index := if number < SMALL_POWERS[guess] then guess - 1 else guess;
    (SMALL_POWERS[index], index)
  }

  lemma SmallPowerIs(i: nat)
    requires 1 <= i <= 10
    ensures SMALL_POWERS[i] == Pow10(i - 1)
  {
    SmallPowers();
    assert Pow10(9) == 1_000_000_000 by { Pow10Add(3, 3); Pow10Add(3, 6); }
    assert Pow10(8) == 100_000_000 && Pow10(4) == 10_000 && Pow10(5) == 100_000 && Pow10(6) == 1_000_000;
  }

  /** The guess covers all numbers of that many bits and one more, and is at most two digits too long. */
  lemma GuessCovers(n: nat)
    requires 1 <= n <= 33
    ensures Pow2(n) <= Pow10(Guess(n - 1))
    ensures n >= 4 ==> 2 <= Guess(n - 1) <= 10 && Pow10(Guess(n - 1) - 2) <= Pow2(n - 3)
  {
    hide Pow2, Pow10;
    TwoTable();
    SmallPowers();
    TenTable();
    if n <= 3 { Pow2Monotone(n, 3); }
    else if n <= 6 { Pow2Monotone(n, 6); Pow2Monotone(1, n - 3); }
    else if n <= 9 { Pow2Monotone(n, 9); Pow2Monotone(4, n - 3); }
    else if n <= 13 { Pow2Monotone(n, 13); Pow2Monotone(7, n - 3); }
    else if n <= 16 { Pow2Monotone(n, 16); Pow2Monotone(11, n - 3); }
    else if n <= 19 { Pow2Monotone(n, 19); Pow2Monotone(14, n - 3); }
    else if n <= 23 { Pow2Monotone(n, 23); Pow2Monotone(17, n - 3); }
    else if n <= 26 { Pow2Monotone(n, 26); Pow2Monotone(21, n - 3); }
    else if n <= 29 { Pow2Monotone(n, 29); Pow2Monotone(24, n - 3); }
    else { Pow2Monotone(n, 33); Pow2Monotone(27, n - 3); }
  }

  lemma TwoTable()
    ensures Pow2(1) == 2 && Pow2(3) == 8 && Pow2(4) == 16 && Pow2(6) == 64 && Pow2(7) == 128 && Pow2(9) == 512
    ensures Pow2(11) == 2048 && Pow2(13) == 8192 && Pow2(14) == 16384 && Pow2(16) == 65536 && Pow2(17) == 131072
    ensures Pow2(19) == 524288 && Pow2(21) == 2097152 && Pow2(23) == 8388608 && Pow2(24) == 16777216
    ensures Pow2(26) == 67108864 && Pow2(27) == 134217728 && Pow2(29) == 536870912 && Pow2(33) == 8589934592
  {
    Pow2Small();
    assert Pow2(7) == 128;
    Pow2Add(7, 7);
    Pow2Add(14, 7);
    Pow2Add(21, 6);
    Pow2Add(32, 1);
  }

  lemma TenTable()
    ensures Pow10(0) == 1 && Pow10(1) == 10 && Pow10(2) == 100 && Pow10(4) == 10_000 && Pow10(5) == 100_000
    ensures Pow10(6) == 1_000_000 && Pow10(8) == 100_000_000 && Pow10(9) == 1_000_000_000
  {
    SmallPowers();
  }

  /**
    The power is at most the number, and ten times it more, only from a tenth of
    the guessed power up, not for every number of so few bits as the comment on
    the function promises. Zero has no such power.
   */
  lemma BiggestPowerTenIs(number: nat, bits: nat)
    requires bits <= 32 && number < Pow2(bits + 1)
    ensures var (power, index) := BiggestPowerTen(number, bits);
      && (power <= number < 10 * power <==> number > 0 && number >= SMALL_POWERS[Guess(bits) - 1])
      && (index == 0 <==> number == 0 && bits <= 2)
      && (index == 0 ==> power == 0)
      && (index > 0 ==> index <= 10 && power == Pow10(index - 1) && number < 10 * power)
    ensures bits >= 3 && number >= Pow2(bits - 2) ==> number >= SMALL_POWERS[Guess(bits) - 1]
  {
    hide Pow2, Pow10;
    GuessCovers(bits + 1);
    var guess := Guess(bits);
    if bits <= 2 {
      TwoTable();
      TenTable();
      Pow2Monotone(bits + 1, 3);
    } else {
      SmallPowerIs(guess);
      SmallPowerIs(guess - 1);
      PlaceAbove(1, guess - 2);
      PlaceAbove(1, guess - 1);
    }
  }

  lemma BiggestPowerTenCanExceed()
    ensures BiggestPowerTen(5, 32).0 == 100_000_000
  {
  }

  // ---------- Shortest digits ----------

  /**
    Between two digits: nothing of the size of the last digit or more lies in
    the interval, and there is more left than the interval is wide.
   */
  ghost predicate Progress(T: int, U: int, e: int, a: real, b: real, D: int, rest: int,
                           tenKappa: int, unit: int, kappa: int, length: nat)
  {
    && Split(T, e, D, rest, tenKappa, unit, kappa) && U * unit <= rest < tenKappa
    && Emptied(a, b, kappa)
    && D >= 0 && (length > 0 ==> D >= Pow10(length - 1))
  }

  /** After the next digit either the digits do, or the generator is between digits again. */
  lemma Advance(T: int, U: int, e: int, a: real, b: real, D: int, rest: int, tenKappa: int, unit: int, kappa: int,
                length: nat, m: int, tenKappa': int, digit: int, rest': int)
    requires Progress(T, U, e, a, b, D, rest, tenKappa, unit, kappa, length)
    requires a == ((T - U) as real) * Two(e) && b == (T as real) * Two(e)
    requires m > 0 && tenKappa' > 0 && 10 * tenKappa' == tenKappa * m && rest * m == digit * tenKappa' + rest'
    requires 0 <= rest' < tenKappa' && digit >= 0 && (length == 0 ==> digit >= 1)
    ensures Split(T, e, 10 * D + digit, rest', tenKappa', unit * m, kappa - 1) && Emptied(a, b, kappa)
    ensures (U * unit) * m <= rest * m && (U * unit) * m == U * (unit * m)
    ensures U * (unit * m) <= rest' ==>
              Progress(T, U, e, a, b, 10 * D + digit, rest', tenKappa', unit * m, kappa - 1, length + 1)
  {
    hide Two, Ten, Pow10, Split, Emptied;
    Finer(T, e, D, rest, tenKappa, unit, kappa, m, tenKappa', digit, rest');
    MulMonotone(U * unit, rest, m);
    assert (U * unit) * m == U * (unit * m);
    if length > 0 { PlaceAbove(1, length - 1); }
    assert Pow10(0) == 1 by { TenTable(); }
    if U * (unit * m) <= rest' {
      StillEmpty(T, U, e, 10 * D + digit, rest', tenKappa', unit * m, kappa - 1, a, b);
    }
  }

  /** So many digits are only reached by a quotient that has them. */
  lemma ManyDigits(T: int, U: int, e: int, a: real, b: real, D: int, rest: int, tenKappa: int, unit: int, kappa: int,
                   length: nat, size: nat)
    requires Progress(T, U, e, a, b, D, rest, tenKappa, unit, kappa, length)
    requires 1 <= size <= length && U > 0
    ensures T > U * Pow10(size - 1)
  {
    hide Two, Ten, Pow10, Emptied;
    var p := Pow10(size - 1);
    Pow10Grows(size - 1, length - 1);
    MulMonotone(p, D, tenKappa);
    assert p * tenKappa == tenKappa * p;
    MulBelowStrict(U * unit, tenKappa, p);
    assert (U * p) * unit == (U * unit) * p;
    if T <= U * p { MulMonotone(T, U * p, unit); }
  }

  /** A buffer that could hold the quotient of the high end and the interval always has room. */
  lemma RoomForDigit(T: int, U: int, e: int, a: real, b: real, D: int, rest: int, tenKappa: int, unit: int, kappa: int,
                     length: nat, size: nat)
    requires Progress(T, U, e, a, b, D, rest, tenKappa, unit, kappa, length)
    requires size >= 1 && U > 0 && T <= U * Pow10(size - 1)
    ensures length < size
  {
    hide Two, Ten, Pow10, Emptied, Progress;
    if length >= size {
      ManyDigits(T, U, e, a, b, D, rest, tenKappa, unit, kappa, length, size);
    }
  }

  lemma MulBelowStrict(x: int, y: int, p: int)
    requires x < y && p > 0
    ensures x * p < y * p
  {
    MulBelow(x, y, p);
  }

  /** Rounds the digits towards the number and says whether they can be trusted. */
  method Settle(low: int, w: int, high: int, e: int, unsafe: int, distance: int, buffer: array<int>, length: nat,
                rest: int, tenKappa: int, unit: int, kappa: int, ghost D: int, ghost lo: real, ghost v: real,
                ghost hi: real, ghost a: real, ghost b: real)
      returns (ok: bool)
    requires 1 <= low <= w <= high && low + 2 <= high && 0 < unit
    requires unsafe == (high - low + 2) * unit && distance == (high + 1 - w) * unit
    requires 1 <= length <= buffer.Length && IsDecimal(buffer[..length]) && Dec(buffer[..length]) == D
    requires Split(high + 1, e, D, rest, tenKappa, unit, kappa)
    requires (high - low + 2) * unit < TWO64 && 0 <= rest < tenKappa < TWO64 && rest < (high - low + 2) * unit
    requires (high - low + 2) * unit <= (buffer[length - 1] - ZERO) * tenKappa + rest
    requires Near(lo, low, e) && Near(v, w, e) && Near(hi, high, e)
    requires a == ((low - 1) as real) * Two(e) && b == ((high + 1) as real) * Two(e) && Emptied(a, b, kappa + 1)
    modifies buffer
    ensures IsDecimal(buffer[..length]) && buffer[..length - 1] == old(buffer[..length - 1])
    ensures ok ==> StrictlyShortest(v, lo, hi, Dec(buffer[..length]), kappa)
    ensures (ok <==> Agreed(low, w, high, e, kappa)) && Coarsest(a, b, kappa)
  {
    hide Two, Ten, Dec, Split, Near, Emptied, StrictlyShortest, Weeded, SomeAcceptable, Agreed, Coarsest;
    ghost var rest';
    WidthsInUnits(low, w, high, unit);
    SplitParts(high + 1, e, D, rest, tenKappa, unit, kappa);
    AgreedInParts(low, w, high, e, D, rest, tenKappa, unit, kappa);
    IsCoarsest(high + 1, high - low + 2, e, D, rest, tenKappa, unit, kappa, a, b) by { WidthOf(low, high); }
    assert D * tenKappa + rest == (high + 1) * unit;
    ok, rest' := RoundWeed(buffer, length, distance, unsafe, rest, tenKappa, unit);
    if ok {
      SplitAgain(high + 1, e, D, rest, tenKappa, unit, kappa, Dec(buffer[..length]), rest');
      Concluded(low, w, high, e, Dec(buffer[..length]), rest', tenKappa, unit, kappa, lo, v, hi, a, b);
    }
  }

  lemma WidthOf(low: int, high: int)
    ensures high + 1 - (high - low + 2) == low - 1
  {
  }

  lemma WidthsInUnits(low: int, w: int, high: int, unit: int)
    requires low <= w <= high && low + 2 <= high && 0 < unit
    ensures unit <= (high + 1 - w) * unit && (high + 1 - w) * unit + unit <= (high - low + 2) * unit
    ensures 4 * unit <= (high - low + 2) * unit
  {
    MulMonotone(1, high + 1 - w, unit);
    MulMonotone(high + 2 - w, high - low + 2, unit);
    MulMonotone(4, high - low + 2, unit);
    assert (high + 2 - w) * unit == (high + 1 - w) * unit + unit;
  }

  lemma SplitAgain(T: int, e: int, D: int, rest: int, tenKappa: int, unit: int, kappa: int, D': int, rest': int)
    requires Split(T, e, D, rest, tenKappa, unit, kappa) && D' * tenKappa + rest' == D * tenKappa + rest
    ensures Split(T, e, D', rest', tenKappa, unit, kappa)
  {
  }

  /** The numbers the generator works on: low < w < high with room for their errors. */
  ghost predicate Usable(low: int, w: int, high: int, e: int) {
    && -60 <= e <= -32
    && 1 <= low <= w <= high && low + 2 <= high <= TWO64 - 2 && 0x4000_0000_0000_0000 <= high
  }

  /** Integral and fractional part of the high end. */
  lemma HighEndParts(T: int, e: int)
    requires -60 <= e <= -32 && 0x4000_0000_0000_0000 <= T < TWO64
    ensures var one := Pow2(-e); var n, f := T / one, T % one;
      && T == n * one + f && 0 <= f < one && 0 <= n < TWO32 && 0 < one <= 0x1000_0000_0000_0000
      && Pow2(62 + e) <= n < Pow2(65 + e)
  {
    hide Pow2;
    UnitRange(e);
    var one := Pow2(-e);
    QuotientRange(T, one, Pow2(64 + e), Pow2(62 + e));
    DivideBack(T, one);
  }

  lemma UnitRange(e: int)
    requires -60 <= e <= -32
    ensures 0 < Pow2(-e) <= 0x1000_0000_0000_0000 && Pow2(64 + e) <= Pow2(65 + e) && Pow2(64 + e) <= TWO32
    ensures Pow2(-e) * Pow2(64 + e) == TWO64 && Pow2(-e) * Pow2(62 + e) == 0x4000_0000_0000_0000
  {
    hide Pow2;
    HighPowers();
    Pow2Words();
    Pow2Monotone(-e, 60);
    Pow2Add(-e, 64 + e);
    Pow2Add(-e, 62 + e);
    Pow2Monotone(64 + e, 65 + e);
    Pow2Monotone(64 + e, 32);
  }

  lemma DivideBack(x: int, p: int)
    requires p > 0
    ensures x == (x / p) * p + x % p && 0 <= x % p < p
  {
  }

  /** The place of the first digit of the high end. */
  lemma FirstPlace(T: int, e: int, n: nat, f: int, one: int)
    requires -60 <= e <= -32 && T == n * one + f && 0 <= f < one && one == Pow2(-e)
    requires Pow2(62 + e) <= n < Pow2(65 + e)
    ensures var (power, index) := BiggestPowerTen(n, 64 + e);
      && 1 <= index <= 10 && power == Pow10(index - 1) && power <= n < 10 * power
      && 0 < power * one <= T && T < Pow10(index) * one
  {
    hide Pow2, Pow10, Guess, BiggestPowerTen;
    BiggestPowerTenIs(n, 64 + e);
    var (power, index) := BiggestPowerTen(n, 64 + e);
    MulMonotone(power, n, one);
    PlaceAbove(1, index - 1);
    MulMonotone(n + 1, Pow10(index), one);
    assert (n + 1) * one == n * one + one;
    MulMonotone(1, power, one);
  }

  lemma HighPowers()
    ensures Pow2(60) == 0x1000_0000_0000_0000 && Pow2(62) == 0x4000_0000_0000_0000
  {
    Pow2Small();
    Pow2Add(32, 28);
    Pow2Add(60, 2);
  }

  lemma QuotientRange(x: int, p: int, hi: int, lo: int)
    requires p > 0 && p * lo <= x < p * hi
    ensures lo <= x / p < hi
  {
    var q := x / p;
    assert x == p * q + x % p;
    if q < lo { MulMonotone(q + 1, lo, p); }
    if q >= hi { MulMonotone(hi, q, p); }
  }

  /** 10^index, in units. */
  lemma PlaceInUnits(e: int, index: nat, tenKappa: int)
    requires e <= 0 && tenKappa == Pow10(index) * Pow2(-e)
    ensures (tenKappa as real) * Two(e) == Ten(index) && tenKappa > 0
  {
    hide Pow2, Pow10, Two, Ten;
    var one, p := Pow2(-e), Pow10(index);
    TwoAdd(e, -e);
    TwoZero();
    TenAdd(0, index);
    TenIsTen();
    IntProduct(p, one);
    RAssoc(p as real, one as real, Two(e));
    RCommute(one as real, Two(e));
    MulMonotone(1, p, one);
  }

  lemma Started(T: int, U: int, e: int, index: nat, tenKappa: int, a: real, b: real)
    requires e <= 0 && tenKappa == Pow10(index) * Pow2(-e) && U <= T < tenKappa && b == (T as real) * Two(e)
    ensures Progress(T, U, e, a, b, 0, T, tenKappa, 1, index, 0)
  {
    hide Pow2, Pow10, Two, Ten, Emptied;
    PlaceInUnits(e, index, tenKappa);
    InOrder(T, tenKappa, Two(e), b, Ten(index));
    EmptyAbove(a, b, index);
  }

  lemma IntegralAdvance(low: int, high: int, e: int, a: real, b: real, D: int, rest0: int, tenKappa0: int, kappa: nat,
                        length: nat, integrals: nat, divisor: nat, one: nat, fractionals: nat)
    requires Progress(high + 1, high - low + 2, e, a, b, D, rest0, tenKappa0, 1, kappa, length)
    requires a == ((low - 1) as real) * Two(e) && b == ((high + 1) as real) * Two(e)
    requires kappa > 0 && divisor == Pow10(kappa - 1) && fractionals < one && (length == 0 ==> divisor <= integrals)
    requires rest0 == integrals * one + fractionals && tenKappa0 == Pow10(kappa) * one
    ensures divisor > 0
    ensures var digit, rest, tenKappa := integrals / divisor, (integrals % divisor) * one + fractionals, divisor * one;
      && 0 <= digit <= 9 && 0 <= rest < tenKappa && high - low + 2 <= digit * tenKappa + rest
      && Split(high + 1, e, 10 * D + digit, rest, tenKappa, 1, kappa - 1) && Emptied(a, b, kappa)
      && (high - low + 2 <= rest ==>
            Progress(high + 1, high - low + 2, e, a, b, 10 * D + digit, rest, tenKappa, 1, kappa - 1, length + 1))
  {
    hide Pow2, Pow10, Two, Ten, Split, Emptied, Progress;
    ProgressRest(high + 1, high - low + 2, e, a, b, D, rest0, tenKappa0, 1, kappa, length);
    IntegralDigit(integrals, divisor, one, fractionals, kappa);
    var digit, rest, tenKappa := integrals / divisor, (integrals % divisor) * one + fractionals, divisor * one;
    Advance(high + 1, high - low + 2, e, a, b, D, rest0, tenKappa0, 1, kappa, length, 1, tenKappa, digit, rest);
  }

  /** One digit before the binary point. */
  method IntegralStep(low: int, w: int, high: int, e: int, unsafe: int, distance: int, buffer: array<int>,
                      length: nat, kappa: nat, integrals: nat, fractionals: nat, divisor: nat, one: nat,
                      ghost lo: real, ghost v: real, ghost hi: real, ghost a: real, ghost b: real, ghost rest0: int,
                      ghost tenKappa: int)
      returns (done: bool, ok: bool, next: nat, ghost rest: int)
    requires Usable(low, w, high, e)
    requires unsafe == high - low + 2 && distance == high + 1 - w
    requires Near(lo, low, e) && Near(v, w, e) && Near(hi, high, e)
    requires a == ((low - 1) as real) * Two(e) && b == ((high + 1) as real) * Two(e)
    requires buffer.Length >= 1 && high + 1 <= (high - low + 2) * Pow10(buffer.Length - 1)
    requires length <= buffer.Length && IsDecimal(buffer[..length]) && (length == 0 ==> divisor <= integrals)
    requires kappa > 0 && divisor == Pow10(kappa - 1) && divisor * one <= high + 1 && fractionals < one
    requires rest0 == integrals * one + fractionals && tenKappa == Pow10(kappa) * one
    requires Progress(high + 1, high - low + 2, e, a, b, Dec(buffer[..length]), rest0, tenKappa, 1, kappa, length)
    modifies buffer
    ensures length < buffer.Length && IsDecimal(buffer[..length + 1])
    ensures buffer[..length] == old(buffer[..length]) && (!done && length == 0 ==> buffer[0] != ZERO)
    ensures done && ok ==> StrictlyShortest(v, lo, hi, Dec(buffer[..length + 1]), kappa - 1)
    ensures done ==> (ok <==> Agreed(low, w, high, e, kappa - 1)) && Coarsest(a, b, kappa - 1)
    ensures rest == next * one + fractionals
    ensures !done ==> Progress(high + 1, high - low + 2, e, a, b, Dec(buffer[..length + 1]), rest, divisor * one, 1,
                               kappa - 1, length + 1)
  {
    hide Pow2, Pow10, Two, Ten, Dec, Split, Near, Emptied, Progress, StrictlyShortest, Agreed, Coarsest;
    ghost var D := Dec(buffer[..length]);
    RoomForDigit(high + 1, unsafe, e, a, b, D, rest0, tenKappa, 1, kappa, length, buffer.Length);
    IntegralAdvance(low, high, e, a, b, D, rest0, tenKappa, kappa, length, integrals, divisor, one, fractionals);
    var digit := integrals / divisor;
    StoreDigit(buffer, length, digit);
    next := integrals % divisor;
    var left, tenKappa' := next * one + fractionals, divisor * one;
    rest := left;
    done, ok := left < unsafe, false;
    if done {
      ok := Settle(low, w, high, e, unsafe, distance, buffer, length + 1, left, tenKappa', 1, kappa - 1,
                   10 * D + digit, lo, v, hi, a, b);
    }
  }

  /** Digits before the binary point; stops early when the interval allows it. */
  method IntegralDigits(low: int, w: int, high: int, e: int, unsafe: int, distance: int, buffer: array<int>,
                        ghost lo: real, ghost v: real, ghost hi: real, ghost a: real, ghost b: real)
      returns (done: bool, ok: bool, length: nat, kappa: int, fractionals: int)
    requires Usable(low, w, high, e)
    requires unsafe == high - low + 2 && distance == high + 1 - w
    requires Near(lo, low, e) && Near(v, w, e) && Near(hi, high, e)
    requires a == ((low - 1) as real) * Two(e) && b == ((high + 1) as real) * Two(e)
    requires buffer.Length >= 1 && high + 1 <= (high - low + 2) * Pow10(buffer.Length - 1)
    modifies buffer
    ensures length <= buffer.Length && IsDecimal(buffer[..length])
    ensures done && ok ==> length >= 1 && StrictlyShortest(v, lo, hi, Dec(buffer[..length]), kappa)
    ensures done ==> (ok <==> Agreed(low, w, high, e, kappa)) && Coarsest(a, b, kappa)
    ensures done && length > 1 ==> buffer[0] != ZERO
    ensures !done ==> kappa == 0 && length >= 1 && buffer[0] != ZERO
    ensures !done ==> Progress(high + 1, high - low + 2, e, a, b, Dec(buffer[..length]), fractionals, Pow2(-e), 1, 0, length)
  {
    hide Pow2, Pow10, Two, Ten, Dec, Near, Progress, StrictlyShortest, Agreed, Coarsest, BiggestPowerTen;
    var tooHigh := high + 1;
    HighEndParts(tooHigh, e);
    var one := Pow2(-e);
    var integrals := tooHigh / one;
    fractionals := tooHigh % one;
    FirstPlace(tooHigh, e, integrals, fractionals, one);
    var (divisor, index) := BiggestPowerTen(integrals, 64 + e);
    kappa := index;
    length, ok, done := 0, false, false;
    ghost var rest, tenKappa := tooHigh, Pow10(index) * one;
    Started(tooHigh, high - low + 2, e, index, tenKappa, a, b);
    assert buffer[..0] == [];
    DecEmpty();
    while kappa > 0
      invariant 0 <= kappa <= index && length == index - kappa && length <= buffer.Length
      invariant IsDecimal(buffer[..length]) && (length > 0 ==> buffer[0] != ZERO)
      invariant integrals >= 0 && (length == 0 ==> divisor <= integrals)
      invariant kappa > 0 ==> divisor == Pow10(kappa - 1) && divisor * one <= tooHigh
      invariant rest == integrals * one + fractionals && tenKappa == Pow10(kappa) * one
      invariant Progress(tooHigh, high - low + 2, e, a, b, Dec(buffer[..length]), rest, tenKappa, 1, kappa, length)
    {
      done, ok, integrals, rest := IntegralStep(low, w, high, e, unsafe, distance, buffer, length, kappa, integrals,
                                                fractionals, divisor, one, lo, v, hi, a, b, rest, tenKappa);
      length := length + 1;
      kappa := kappa - 1;
      if done {
        return;
      }
      NextDivisor(divisor, kappa, one, tooHigh);
      tenKappa := divisor * one;
      divisor := divisor / 10;
    }
    assert tenKappa == one && rest == fractionals by {
      NextDivisor(1, 0, one, one);
      NoIntegralsLeft(tooHigh, high - low + 2, e, a, b, Dec(buffer[..length]), rest, tenKappa, length,
                      integrals, one, fractionals);
    }
  }

  lemma NoIntegralsLeft(T: int, U: int, e: int, a: real, b: real, D: int, rest: int, tenKappa: int, length: nat,
                        integrals: nat, one: int, fractionals: int)
    requires Progress(T, U, e, a, b, D, rest, tenKappa, 1, 0, length)
    requires rest == integrals * one + fractionals && tenKappa == Pow10(0) * one && one > 0 && fractionals >= 0
    ensures integrals == 0
  {
    if integrals >= 1 { MulMonotone(1, integrals, one); }
  }

  lemma ProgressRest(T: int, U: int, e: int, a: real, b: real, D: int, rest: int,
                     tenKappa: int, unit: int, kappa: int, length: nat)
    requires Progress(T, U, e, a, b, D, rest, tenKappa, unit, kappa, length)
    ensures U * unit <= rest < tenKappa && D >= 0 && unit > 0
  {
  }

  lemma IntegralDigit(integrals: int, divisor: int, one: int, fractionals: int, kappa: nat)
    requires kappa >= 1 && divisor == Pow10(kappa - 1) && one > 0 && 0 <= integrals && 0 <= fractionals < one
    requires integrals * one + fractionals < Pow10(kappa) * one
    ensures var q, r := integrals / divisor, integrals % divisor;
      && 0 <= q <= 9 && 0 <= r < divisor && (integrals >= divisor ==> q >= 1)
      && 10 * (divisor * one) == Pow10(kappa) * one
      && integrals * one + fractionals == q * (divisor * one) + (r * one + fractionals)
      && 0 <= r * one + fractionals < divisor * one && 0 < divisor * one
  {
    hide Pow10;
    PlaceAbove(1, kappa - 1);
    if integrals >= 10 * divisor { MulMonotone(10 * divisor, integrals, one); }
    BelowProduct(integrals, 10, divisor);
    assert 10 * (divisor * one) == (10 * divisor) * one;
    DigitParts(integrals, divisor, one, fractionals, integrals / divisor, integrals % divisor);
  }

  lemma DigitParts(n: int, divisor: int, one: int, f: int, q: int, r: int)
    requires n == q * divisor + r && 0 <= r < divisor && 0 < one && 0 <= f < one
    ensures n * one + f == q * (divisor * one) + (r * one + f)
    ensures 0 <= r * one + f < divisor * one && (n >= divisor ==> q >= 1)
  {
    SplitTimes(divisor, one, q, r);
    ProductOfThree(q, divisor, one);
    assert (divisor * one) * q == q * (divisor * one);
    MulBelow(r, divisor, one);
    ProductNat(r, one);
    if q <= 0 { MulMonotone(q, 0, divisor); }
  }

  lemma NextDivisor(divisor: int, kappa: nat, one: int, T: int)
    requires divisor == Pow10(kappa) && divisor * one <= T && one > 0
    ensures kappa > 0 ==> divisor / 10 == Pow10(kappa - 1) && (divisor / 10) * one <= T
    ensures Pow10(0) * one == one
  {
    assert Pow10(0) == 1;
    if kappa > 0 {
      MulMonotone(divisor / 10, divisor, one);
    }
  }

  lemma FractionalAdvance(low: int, high: int, e: int, a: real, b: real, D: int, fractionals: int, one: int, unit: int,
                          kappa: int, length: nat)
    requires Progress(high + 1, high - low + 2, e, a, b, D, fractionals, one, unit, kappa, length) && length > 0
    requires a == ((low - 1) as real) * Two(e) && b == ((high + 1) as real) * Two(e)
    requires 0 < one <= 0x1000_0000_0000_0000 && low + 2 <= high
    ensures 0 < unit && 0 <= fractionals < one && (high - low + 2) * unit < one && 4 * unit <= (high - low + 2) * unit
    ensures var U := high - low + 2; var digit, rest := (fractionals * 10) / one, (fractionals * 10) % one;
      && 0 <= digit <= 9 && 0 <= rest < one && U * (unit * 10) == (U * unit) * 10
      && U * (unit * 10) <= digit * one + rest
      && Split(high + 1, e, 10 * D + digit, rest, one, unit * 10, kappa - 1) && Emptied(a, b, kappa)
      && (U * (unit * 10) <= rest ==>
            Progress(high + 1, U, e, a, b, 10 * D + digit, rest, one, unit * 10, kappa - 1, length + 1))
  {
    hide Pow2, Pow10, Two, Ten, Split, Emptied, Progress;
    var U := high - low + 2;
    ProgressRest(high + 1, U, e, a, b, D, fractionals, one, unit, kappa, length);
    WidthsInUnits(low, low, high, unit);
    BelowProduct(fractionals * 10, 10, one);
    var digit, rest := (fractionals * 10) / one, (fractionals * 10) % one;
    Advance(high + 1, U, e, a, b, D, fractionals, one, unit, kappa, length, 10, one, digit, rest);
  }

  /** Digits after the binary point; units and interval grow with every digit until the interval allows stopping. */
  method FractionalDigits(low: int, w: int, high: int, e: int, unsafe0: int, distance: int, buffer: array<int>,
                          length0: nat, fractionals0: int,
                          ghost lo: real, ghost v: real, ghost hi: real, ghost a: real, ghost b: real)
      returns (ok: bool, length: nat, kappa: int)
    requires Usable(low, w, high, e)
    requires unsafe0 == high - low + 2 && distance == high + 1 - w
    requires Near(lo, low, e) && Near(v, w, e) && Near(hi, high, e)
    requires a == ((low - 1) as real) * Two(e) && b == ((high + 1) as real) * Two(e)
    requires buffer.Length >= 1 && high + 1 <= (high - low + 2) * Pow10(buffer.Length - 1)
    requires 0 < length0 <= buffer.Length && IsDecimal(buffer[..length0]) && buffer[0] != ZERO
    requires Progress(high + 1, high - low + 2, e, a, b, Dec(buffer[..length0]), fractionals0, Pow2(-e), 1, 0, length0)
    modifies buffer
    ensures 0 < length <= buffer.Length && IsDecimal(buffer[..length]) && buffer[0] != ZERO
    ensures ok ==> StrictlyShortest(v, lo, hi, Dec(buffer[..length]), kappa)
    ensures (ok <==> Agreed(low, w, high, e, kappa)) && Coarsest(a, b, kappa)
  {
    hide Pow2, Pow10, Two, Ten, Dec, Split, Near, Emptied, Progress, StrictlyShortest, Agreed, Coarsest;
    ghost var U := high - low + 2;
    var one := Pow2(-e);
    Pow2Monotone(-e, 60);
    HighPowers();
    var fractionals, unit, unsafe := fractionals0, 1, unsafe0;
    length, kappa, ok := length0, 0, false;
    var done := false;
    while !done
      invariant 0 < length <= buffer.Length && IsDecimal(buffer[..length]) && buffer[0] != ZERO
      invariant !done ==> unsafe == U * unit
      invariant !done ==> Progress(high + 1, U, e, a, b, Dec(buffer[..length]), fractionals, one, unit, kappa, length)
      invariant done && ok ==> StrictlyShortest(v, lo, hi, Dec(buffer[..length]), kappa)
      invariant done ==> (ok <==> Agreed(low, w, high, e, kappa)) && Coarsest(a, b, kappa)
      decreases !done, one - unsafe
    {
      ghost var D := Dec(buffer[..length]);
      RoomForDigit(high + 1, U, e, a, b, D, fractionals, one, unit, kappa, length, buffer.Length);
      FractionalAdvance(low, high, e, a, b, D, fractionals, one, unit, kappa, length);
      fractionals := fractionals * 10;
      unit := unit * 10;
      unsafe := unsafe * 10;
      assert fractionals < TWO64 && unit < TWO64 && unsafe < TWO64;
      var digit := fractionals / one;
      StoreDigit(buffer, length, digit);
      length := length + 1;
      fractionals := fractionals % one;
      kappa := kappa - 1;
      if fractionals < unsafe {
        ok := Settle(low, w, high, e, unsafe, distance * unit, buffer, length, fractionals, one, unit, kappa,
                     10 * D + digit, lo, v, hi, a, b);
        done := true;
      }
    }
  }

  /**
    The digits of w: if they are returned as good, they are the shortest ones
    strictly between the exact boundaries and strictly the closest to the exact
    number, whatever the three numbers are within a unit of low, w and high.
   */
  method DigitGen(low: DiyFp, w: DiyFp, high: DiyFp, buffer: array<int>, ghost lo: real, ghost v: real, ghost hi: real)
      returns (ok: bool, length: nat, kappa: int)
    requires low.e == w.e == high.e && Usable(low.f, w.f, high.f, w.e)
    requires Near(lo, low.f, w.e) && Near(v, w.f, w.e) && Near(hi, high.f, w.e)
    requires buffer.Length >= 1 && high.f + 1 <= (high.f - low.f + 2) * Pow10(buffer.Length - 1)
    modifies buffer
    ensures length <= buffer.Length && IsDecimal(buffer[..length]) && (length > 1 ==> buffer[0] != ZERO)
    ensures ok ==> length >= 1 && StrictlyShortest(v, lo, hi, Dec(buffer[..length]), kappa)
    ensures ok <==> Agreed(low.f, w.f, high.f, w.e, kappa)
    ensures Coarsest(Units(low.f - 1, w.e), Units(high.f + 1, w.e), kappa)
  {
    hide Pow2, Pow10, Two, Dec, Near, Progress, StrictlyShortest, Agreed, Coarsest;
    ghost var a, b := Units(low.f - 1, w.e), Units(high.f + 1, w.e);
    var tooLow := new DiyFp(low.f - 1, low.e);
    var tooHigh := new DiyFp(high.f + 1, high.e);
    var unsafe := Minus(tooHigh, tooLow);
    var distance := Minus(tooHigh, w);
    var done, fractionals;
    done, ok, length, kappa, fractionals :=
      IntegralDigits(low.f, w.f, high.f, w.e, unsafe.f, distance.f, buffer, lo, v, hi, a, b);
    if !done {
      ok, length, kappa := FractionalDigits(low.f, w.f, high.f, w.e, unsafe.f, distance.f, buffer, length, fractionals,
                                            lo, v, hi, a, b);
    }
  }
}
