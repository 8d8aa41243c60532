/**
  Rounding the 128-bit window to a floating-point format, and why that is
  rounding the exact value.
 */
module Float16Rounding {
  import opened Positional
  import opened DigitLoops
  import opened MachineWords
  import opened Powers
  import opened RealPowers
  import opened Float16

  datatype Mode = Nearest | Upward | Truncating

  /** Nearest rounds ties up. */
  ghost function RoundReal(mode: Mode, y: real): int {
    match mode
    case Nearest => (y + 0.5).Floor
    case Upward => -((-y).Floor)
    case Truncating => y.Floor
  }

  /** The same for n/d. */
  ghost function RoundRatio(mode: Mode, n: nat, d: nat): int
    requires d > 0
  {
    match mode
    case Nearest => n / d + (if 2 * (n % d) >= d then 1 else 0)
    case Upward => n / d + (if n % d != 0 then 1 else 0)
    case Truncating => n / d
  }

  lemma RatioIsReal(mode: Mode, n: nat, d: nat, y: real)
    requires d > 0 && y * (d as real) == n as real
    ensures RoundRatio(mode, n, d) == RoundReal(mode, y)
  {
    var q, r := n / d, n % d;
    assert n == d * q + r;
    FractionOf(n, d, q, r, y);
  }

  /** y is q and r d-ths. */
  lemma FractionOf(n: nat, d: nat, q: int, r: int, y: real)
    requires d > 0 && y * (d as real) == n as real && n == d * q + r && 0 <= r < d
    ensures q as real <= y < q as real + 1.0
    ensures r == 0 <==> y == q as real
    ensures 2 * r >= d <==> y >= q as real + 0.5
  {
    var d', q', r' := d as real, q as real, r as real;
    IntProduct(d, q);
    RCommute(d', q');
    var f := y - q';
    RDistribute(y, q', d');
    FractionBounds(f, d', r');
    HalfOf(r, d);
  }

  lemma FractionBounds(f: real, d: real, r: real)
    requires d > 0.0 && f * d == r && 0.0 <= r < d
    ensures 0.0 <= f < 1.0
    ensures r == 0.0 <==> f == 0.0
    ensures 0.5 * d <= r <==> 0.5 <= f
  {
    InScale(0.0, f, d, 0.0, r);
    InScale(f, 0.0, d, r, 0.0);
    InScale(f, 1.0, d, r, d);
    InScale(0.5, f, d, 0.5 * d, r);
  }

  lemma InScale(a: real, b: real, c: real, x: real, y: real)
    requires c > 0.0 && x == a * c && y == b * c
    ensures a <= b <==> x <= y
    ensures a < b <==> x < y
  {
    RMonotone(a, b, c);
  }

  lemma HalfOf(r: int, d: int)
    ensures 2 * r >= d <==> 0.5 * (d as real) <= r as real
  {
    assert (2 * r) as real == 2.0 * (r as real);
  }

  // ---------- Quotients of the window ----------

  lemma DivideTwice(x: nat, a: nat, b: nat)
    requires a > 0 && b > 0
    ensures a * b > 0 && x / (a * b) == (x / a) / b
    ensures x % (a * b) == 0 <==> x % a == 0 && (x / a) % b == 0
  {
    var q, r := x / a, x % a;
    assert x == a * q + r;
    var s, t := q / b, q % b;
    assert q == b * s + t;
    MulMonotone(1, a, b);
    Nested(x, a, b, q, r, s, t);
    QuotientIs(x, a * b, s, a * t + r);
    if t > 0 { MulMonotone(1, t, a); }
  }

  lemma Nested(x: int, a: int, b: int, q: int, r: int, s: int, t: int)
    requires a > 0 && b > 0 && x == a * q + r && q == b * s + t && 0 <= r < a && 0 <= t < b
    ensures x == (a * b) * s + (a * t + r) && 0 <= a * t + r < a * b
  {
    assert a * (b * s + t) == (a * b) * s + a * t;
    MulBelow(t, b, a);
    ProductNat(a, t);
    assert t * a == a * t && b * a == a * b;
  }

  /** Below the first 124 bits the window and the exact number agree on every quotient. */
  lemma WindowQuotient(N: nat, bits: int, w: int, j: nat, d: nat)
    requires Window(N, bits, w) && j >= 4 && d == Den(bits) * Pow2(j - 4)
    ensures d > 0 && w >= 0 && w / Pow2(j) == Num(N, bits) / d && (w % Pow2(j) == 0 <==> Num(N, bits) % d == 0)
  {
    hide Pow2, Num, Den;
    Pow2Add(4, j - 4);
    assert Pow2(4) == 16 by { Pow2Small(); }
    DivideTwice(w, 16, Pow2(j - 4));
    DivideTwice(Num(N, bits), Den(bits), Pow2(j - 4));
  }

  /** A shift to the right that remembers in the last bit whether something was lost. */
  ghost function Sticky(w: nat, k: nat): nat {
    var v := w / Pow2(k);
    if w % Pow2(k) != 0 && v % 2 == 0 then v + 1 else v
  }

  lemma StickyQuotient(w: nat, k: nat, j: nat)
    requires j >= 1
    ensures Sticky(w, k) / Pow2(j) == w / Pow2(k + j)
    ensures Sticky(w, k) % Pow2(j) == 0 <==> w % Pow2(k + j) == 0
  {
    hide Pow2;
    Pow2Add(k, j);
    Pow2Add(1, j - 1);
    assert Pow2(1) == 2 by { PowOne(); }
    var v, x := w / Pow2(k), Sticky(w, k);
    DivideTwice(w, Pow2(k), Pow2(j));
    DivideTwice(v, 2, Pow2(j - 1));
    DivideTwice(x, 2, Pow2(j - 1));
    assert x / 2 == v / 2;
    assert w % Pow2(k) != 0 ==> x % 2 == 1;
  }

  /** With p bits kept of the shifted window: the quotient, the bit behind it and the rest are those of the exact number. */
  lemma ExactBits(N: nat, bits: int, w: int, k: nat, p: nat)
    requires Window(N, bits, w) && 2 <= p <= 113
    ensures var d := Den(bits) * Pow2(123 - p + k); var x := Sticky(w, k);
      && d > 0
      && x / Pow2(128 - p) == Num(N, bits) / (2 * d)
      && x / Pow2(127 - p) == Num(N, bits) / d
      && (x % Pow2(128 - p) == 0 <==> Num(N, bits) % (2 * d) == 0)
  {
    hide Pow2, Num, Den, Sticky, Window;
    WindowBits(N, bits, w);
    var m: nat := 123 - p + k;
    var d := Den(bits) * Pow2(m);
    Pow2Add(m, 1);
    assert Pow2(1) == 2 by { PowOne(); }
    ProductOfThree(Den(bits), Pow2(m), 2);
    WindowQuotient(N, bits, w, k + 127 - p, d);
    WindowQuotient(N, bits, w, k + 128 - p, 2 * d);
    StickyQuotient(w, k, 128 - p);
    StickyQuotient(w, k, 127 - p);
  }

  /** The decision taken on the window is the one for the exact ratio. */
  ghost function Decided(x: nat, mode: Mode, p: nat): int
    requires p <= 127
  {
    x / Pow2(128 - p) + (match mode
                         case Nearest => (x / Pow2(127 - p)) % 2
                         case Upward => if x % Pow2(128 - p) != 0 then 1 else 0
                         case Truncating => 0)
  }

  lemma DecidedIsRounded(N: nat, bits: int, w: int, k: nat, p: nat, mode: Mode)
    requires Window(N, bits, w) && 2 <= p <= 113
    ensures var D := 2 * (Den(bits) * Pow2(123 - p + k));
      D > 0 && Decided(Sticky(w, k), mode, p) == RoundRatio(mode, Num(N, bits), D)
  {
    hide Pow2, Num, Den, Sticky, Window;
    ExactBits(N, bits, w, k, p);
    HalfBit(Num(N, bits), Den(bits) * Pow2(123 - p + k));
  }

  /** The bit behind the quotient says whether the rest is at least a half. */
  lemma HalfBit(n: nat, d: nat)
    requires d > 0
    ensures (n / d) % 2 == 1 <==> 2 * (n % (2 * d)) >= 2 * d
  {
    var q, r := n / d, n % d;
    assert n == d * q + r;
    var s, t := q / 2, q % 2;
    assert q == 2 * s + t;
    assert d * (2 * s + t) == (2 * d) * s + t * d;
    assert t == 0 || t == 1;
    QuotientIs(n, 2 * d, s, t * d + r);
  }

  /** The exact ratio as a number: N in units of 2^(bits + k - p). */
  lemma RatioValue(N: nat, bits: int, k: nat, p: nat)
    requires 1 <= bits && 2 <= p <= 113
    ensures var D := 2 * (Den(bits) * Pow2(123 - p + k));
      ((N as real) * Two(p - bits - k)) * (D as real) == Num(N, bits) as real
  {
    hide Pow2, Two;
    var m := 123 - p + k;
    var D := 2 * (Den(bits) * Pow2(m));
    Pow2Add(m, 1);
    assert Pow2(1) == 2 by { PowOne(); }
    ProductOfThree(Den(bits), Pow2(m), 2);
    assert D == Den(bits) * Pow2(m + 1);
    if bits <= 124 {
      TwoAdd(p - bits - k, m + 1);
      TwoAdd(0, 124 - bits);
      assert Two(0) == 1.0 by { TwoZero(); }
      assert p - bits - k + (m + 1) == 0 + (124 - bits);
      IntProduct(N, Pow2(124 - bits));
      RAssoc(N as real, Two(p - bits - k), D as real);
    } else {
      Pow2Add(bits - 124, m + 1);
      TwoAdd(p - bits - k, bits - 124 + (m + 1));
      assert Two(0) == 1.0 by { TwoZero(); }
      assert p - bits - k + (bits - 124 + (m + 1)) == 0;
      RAssoc(N as real, Two(p - bits - k), D as real);
    }
  }

  /** Rounding the shifted window is rounding the exact value. */
  lemma WindowRounds(N: nat, bits: int, w: int, k: nat, p: nat, mode: Mode, y: real)
    requires Window(N, bits, w) && 2 <= p <= 113 && y == (N as real) * Two(p - bits - k)
    ensures w >= 0 && Decided(Sticky(w, k), mode, p) == RoundReal(mode, y)
  {
    hide Pow2, Num, Den, Sticky, Window, Decided, RoundRatio, RoundReal, Two;
    WindowBits(N, bits, w);
    DecidedIsRounded(N, bits, w, k, p, mode);
    RatioValue(N, bits, k, p);
    RatioIsReal(mode, Num(N, bits), 2 * (Den(bits) * Pow2(123 - p + k)), y);
  }

  lemma WindowBits(N: nat, bits: int, w: int)
    requires Window(N, bits, w)
    ensures bits >= 1 && 0 <= w < TWO128
  {
  }

  // ---------- The operations on the two words ----------

  ghost predicate Words(high: int, low: int) {
    0 <= high < TWO64 && 0 <= low < TWO64
  }

  ghost function Whole(high: int, low: int): int {
    high * TWO64 + low
  }

  method HasTrailingBits(high: int, low: int, amount: nat) returns (r: bool)
    requires Words(high, low) && amount < 128
    ensures r <==> Whole(high, low) % Pow2(amount) != 0
  {
    hide Pow2;
    if amount >= 64 {
      HighRemainder(high, low, amount);
      r := low != 0 || high % Pow2(amount - 64) != 0;
    } else {
      LowRemainder(high, low, amount);
      r := low % Pow2(amount) != 0;
    }
  }

  lemma HighRemainder(high: int, low: int, amount: nat)
    requires Words(high, low) && 64 <= amount < 128
    ensures Whole(high, low) % Pow2(amount) == 0 <==> low == 0 && high % Pow2(amount - 64) == 0
  {
    hide Pow2;
    Pow2Words();
    Pow2Add(64, amount - 64);
    QuotientIs(Whole(high, low), TWO64, high, low);
    DivideTwice(Whole(high, low), TWO64, Pow2(amount - 64));
  }

  lemma LowRemainder(high: int, low: int, amount: nat)
    requires Words(high, low) && amount < 64
    ensures Whole(high, low) % Pow2(amount) == low % Pow2(amount)
  {
    hide Pow2;
    Pow2Words();
    Pow2Add(amount, 64 - amount);
    var p, q := Pow2(amount), Pow2(64 - amount);
    var l, r := low / p, low % p;
    assert low == p * l + r;
    ProductOfThree(high, p, q);
    assert (high * p) * q == p * (high * q);
    QuotientIs(Whole(high, low), p, high * q + l, r);
  }

  method ShiftWords(high0: int, low0: int, amount: nat) returns (high: int, low: int)
    requires Words(high0, low0) && 0 < amount < 128
    ensures Words(high, low) && Whole(high, low) == Whole(high0, low0) / Pow2(amount)
  {
    hide Pow2;
    if amount >= 64 {
      HighQuotient(high0, low0, amount);
      QuotientSmall(high0, Pow2(amount - 64));
      high, low := 0, high0 / Pow2(amount - 64);
    } else {
      ShiftRightParts(high0, low0, amount);
      QuotientSmall(high0, Pow2(amount));
      QuotientSmall(low0, Pow2(amount));
      low := (high0 * Pow2(64 - amount)) % TWO64 + low0 / Pow2(amount);
      high := high0 / Pow2(amount);
    }
  }

  /** Shifts right by any amount below 128 and keeps a mark of what was lost. */
  method ShiftRight(high0: int, low0: int, amount: nat) returns (high: int, low: int)
    requires Words(high0, low0) && 0 < amount < 128
    ensures Words(high, low) && Whole(high, low) == Sticky(Whole(high0, low0), amount)
  {
    hide Pow2, Whole;
    var trailing := HasTrailingBits(high0, low0, amount);
    WholeNat(high0, low0);
    high, low := ShiftWords(high0, low0, amount);
    WholeNat(high, low);
    if trailing && low % 2 == 0 {
      low := low + 1;
    }
  }

  lemma WholeNat(high: int, low: int)
    requires Words(high, low)
    ensures 0 <= Whole(high, low) < TWO128 && Whole(high, low) % 2 == low % 2
    ensures low % 2 == 0 ==> low + 1 < TWO64 && Whole(high, low + 1) == Whole(high, low) + 1
  {
    assert low == 2 * (low / 2) + low % 2;
    QuotientIs(Whole(high, low), 2, high * TWO63 + low / 2, low % 2);
  }

  lemma QuotientSmall(x: nat, p: nat)
    requires p > 0 && x < TWO64
    ensures 0 <= x / p < TWO64
  {
    var q := x / p;
    assert x == p * q + x % p;
    if q >= TWO64 { MulMonotone(1, p, q); }
    if q < 0 { MulMonotone(q, -1, p); }
  }

  /** Adds one in the last of p places; tells whether it ran over the top. */
  method Increment(high0: int, low0: int, p: nat) returns (high: int, low: int, over: bool)
    requires Words(high0, low0) && 2 <= p <= 113
    ensures Words(high, low)
    ensures over <==> Whole(high0, low0) + Pow2(128 - p) >= TWO128
    ensures !over ==> Whole(high, low) == Whole(high0, low0) + Pow2(128 - p)
    ensures over ==> Whole(high, low) / Pow2(128 - p) == Pow2(p - 1)
  {
    hide Pow2;
    high, low, over := high0, low0, false;
    if p > 64 {
      IncrementLow(high, low, p);
      var sum := low + Pow2(128 - p);
      low := sum % TWO64;
      if sum < TWO64 {
        return;
      }
      sum := high + 1;
      high := sum % TWO64;
      if sum < TWO64 {
        return;
      }
    } else {
      IncrementHigh(high, low, p);
      var sum := high + Pow2(64 - p);
      high := sum % TWO64;
      if sum < TWO64 {
        return;
      }
    }
    high := TWO63;
    over := true;
  }

  /** Rounds the first p bits; a carry out of the top makes the exponent one larger. */
  method ApplyRounding(high0: int, low0: int, exponent0: int, mode: Mode, p: nat)
      returns (high: int, low: int, exponent: int)
    requires Words(high0, low0) && 2 <= p <= 113
    ensures Words(high, low) && Whole(high0, low0) >= 0 && Whole(high, low) >= 0
    ensures var m := Decided(Whole(high0, low0), mode, p);
      if m == Pow2(p) then Whole(high, low) / Pow2(128 - p) == Pow2(p - 1) && exponent == exponent0 + 1
      else Whole(high, low) / Pow2(128 - p) == m && exponent == exponent0
  {
    hide Pow2, Whole;
    WholeNat(high0, low0);
    ghost var w := Whole(high0, low0);
    high, low, exponent := high0, low0, exponent0;
    var trailing := HasTrailingBits(high, low, 128 - p);
    var bit := BitBehind(high, low, p);
    QuotientBelow(w, p);
    if (mode == Nearest && bit == 1) || (mode == Upward && trailing) {
      Incremented(w, p);
      var over;
      high, low, over := Increment(high, low, p);
      if over {
        exponent := exponent + 1;
      }
    }
    WholeNat(high, low);
  }

  method BitBehind(high: int, low: int, p: nat) returns (bit: int)
    requires Words(high, low) && 2 <= p <= 113
    ensures bit == (Whole(high, low) / Pow2(127 - p)) % 2
  {
    hide Pow2;
    if p < 64 {
      HighQuotient(high, low, 127 - p);
      bit := (high / Pow2(63 - p)) % 2;
    } else {
      LowBit(high, low, 127 - p);
      bit := (low / Pow2(127 - p)) % 2;
    }
  }

  lemma QuotientBelow(w: nat, p: nat)
    requires w < TWO128 && 2 <= p <= 113
    ensures 0 <= w / Pow2(128 - p) < Pow2(p)
  {
    hide Pow2;
    Pow2Words();
    Pow2Add(p, 128 - p);
    BelowProduct(w, Pow2(p), Pow2(128 - p));
  }

  /** One more in the last place kept. */
  lemma Incremented(w: nat, p: nat)
    requires w < TWO128 && 2 <= p <= 113
    ensures var u := Pow2(128 - p);
      && (w + u) / u == w / u + 1
      && (w + u < TWO128 <==> w / u + 1 < Pow2(p))
  {
    hide Pow2;
    Pow2Words();
    Pow2Add(p, 128 - p);
    var u := Pow2(128 - p);
    var q, r := w / u, w % u;
    assert w == u * q + r;
    assert u * (q + 1) == u * q + u;
    QuotientIs(w + u, u, q + 1, r);
    BelowProduct(w, Pow2(p), u);
    if q + 1 < Pow2(p) { MulMonotone(q + 2, Pow2(p), u); } else { MulMonotone(Pow2(p), q + 1, u); }
    assert (q + 2) * u == u * q + 2 * u && (q + 1) * u == u * q + u;
  }

  /** A unit in the lower word, with a carry into the upper one. */
  lemma IncrementLow(high: int, low: int, p: nat)
    requires Words(high, low) && 64 < p <= 113
    ensures var u := Pow2(128 - p); var sum := low + u;
      && 0 < u < TWO64
      && (sum < TWO64 ==> Whole(high, sum) == Whole(high, low) + u && sum % TWO64 == sum)
      && (sum >= TWO64 ==> sum % TWO64 == sum - TWO64 && 0 <= sum - TWO64 < u
                           && Whole(high + 1, sum - TWO64) == Whole(high, low) + u)
      && (sum >= TWO64 && high + 1 == TWO64 ==> Whole(TWO63, sum - TWO64) / u == Pow2(p - 1))
  {
    hide Pow2;
    Pow2Words();
    var u := Pow2(128 - p);
    Pow2Monotone(128 - p, 63);
    Pow2Add(63, 1);
    PowOne();
    Pow2Add(128 - p, p - 1);
    Pow2Add(63, 64);
    var rest := low + u - TWO64;
    if rest >= 0 { QuotientIs(Whole(TWO63, rest), u, Pow2(p - 1), rest); }
  }

  lemma IncrementHigh(high: int, low: int, p: nat)
    requires Words(high, low) && 2 <= p <= 64
    ensures var u := Pow2(64 - p); var sum := high + u;
      && 0 < u < TWO64 && u * TWO64 == Pow2(128 - p)
      && (sum < TWO64 ==> Whole(sum, low) == Whole(high, low) + Pow2(128 - p) && sum % TWO64 == sum)
      && (sum >= TWO64 ==> Whole(high, low) + Pow2(128 - p) >= TWO128 && Whole(TWO63, low) / Pow2(128 - p) == Pow2(p - 1))
  {
    hide Pow2;
    Pow2Words();
    var u := Pow2(64 - p);
    Pow2Add(64 - p, 64);
    Pow2Monotone(64 - p, 63);
    Pow2Add(63, 1);
    PowOne();
    Pow2Add(128 - p, p - 1);
    Pow2Add(63, 64);
    QuotientIs(Whole(TWO63, low), Pow2(128 - p), Pow2(p - 1), low);
  }

  // ---------- The conversion ----------

  datatype Converted = Zero | TooLarge | TooSmall | Finite(exponent: int, significand: int)

  /** The biased exponent of N * 2^exponent before rounding, for a significand of `bits` bits. */
  function Biased(exponent: int, bits: int, bias: int): int {
    exponent + bits + bias - 1
  }

  /** N * 2^exponent in units of the last place of a number with the given biased exponent and p bits. */
  ghost function InUnits(N: nat, exponent: int, biased: int, bias: int, p: int): real {
    (N as real) * Two(exponent - (biased - bias - (p - 1)))
  }

  /** What rounding the exact value gives: m units, or half as many of the next larger exponent. */
  ghost function Correct(N: nat, exponent: int, biased: int, bias: int, p: nat, mode: Mode, largest: int): Converted
    requires p >= 1
  {
    var e := if biased <= 0 then 1 else biased;
    Packed(RoundReal(mode, InUnits(N, exponent, e, bias, p)), e, p, largest)
  }

  ghost function Packed(m: int, e: int, p: nat, largest: int): Converted
    requires p >= 1
  {
    var (e', m') := if m == Pow2(p) then (e + 1, Pow2(p - 1)) else (e, m);
    if e' > largest then TooLarge else Finite(if e' == 1 && m' < Pow2(p - 1) then 0 else e', m')
  }

  /** What the conversion gives: infinity and zero from the exponent alone, else the rounded value. */
  ghost function Given(N: nat, exponent: int, bits: int, bias: int, p: nat, mode: Mode, largest: int): Converted
    requires p >= 1
  {
    var biased := Biased(exponent, bits, bias);
    if biased > largest then TooLarge else if biased <= 1 - p then TooSmall
    else Correct(N, exponent, biased, bias, p, mode, largest)
  }

  method GetBin(encoder: Encoder, exponent: int, mode: Mode, expDig: nat, p: nat) returns (r: Converted)
    requires encoder.Valid() && 2 <= p <= 113 && 2 <= expDig <= 15
    ensures encoder.value == 0 ==> r == Zero
    ensures encoder.value > 0 ==>
      r == Given(encoder.value, exponent, encoder.bits, Pow2(expDig - 1) - 1, p, mode, Pow2(expDig) - 2)
  {
    hide Pow2, Window, Exact, Whole, Decided, Sticky, RoundReal, Two;
    var high, low := encoder.high, encoder.low;
    if high == 0 {
      return Zero;
    }
    ghost var N, bits, w := encoder.value, encoder.bits, Whole(high, low);
    IsWhole(high, low);
    var biased := exponent + encoder.bits + Pow2(expDig - 1) - 2;
    var largest := Pow2(expDig) - 2;
    if biased > largest {
      return TooLarge;
    }
    ghost var k := if biased <= 0 then 1 - biased else 0;
    var e := biased;
    if biased <= 0 {
      if biased > 1 - p {
        high, low := ShiftRight(high, low, 1 - biased);
        e := 1;
      } else {
        return TooSmall;
      }
    } else {
      StickyNothing(w);
    }
    ghost var y := InUnits(N, exponent, e, Pow2(expDig - 1) - 1, p);
    SameUnits(exponent, bits, Pow2(expDig - 1) - 1, p, e, k);
    WindowRounds(N, bits, w, k, p, mode, y);
    high, low, e := ApplyRounding(high, low, e, mode, p);
    if e > largest {
      return TooLarge;
    }
    TopBitOfPlaces(high, low, p);
    if e == 1 && high < TWO63 {
      e := 0;
    }
    r := Finite(e, TopPlaces(high, low, p));
  }

  lemma IsWhole(high: int, low: int)
    ensures Whole(high, low) == high * TWO64 + low
  {
  }

  lemma StickyNothing(w: nat)
    ensures Sticky(w, 0) == w
  {
    assert Pow2(0) == 1;
  }

  lemma SameUnits(exponent: int, bits: int, bias: int, p: nat, e: int, k: nat)
    requires e == Biased(exponent, bits, bias) + k
    ensures exponent - (e - bias - (p - 1)) == p - bits - k
  {
  }

  /** The first p bits of the two words. */
  function TopPlaces(high: int, low: int, p: nat): int
    requires p <= 128
  {
    (high * TWO64 + low) / Pow2(128 - p)
  }

  lemma TopBitOfPlaces(high: int, low: int, p: nat)
    requires Words(high, low) && 2 <= p <= 113
    ensures high < TWO63 <==> Whole(high, low) / Pow2(128 - p) < Pow2(p - 1)
    ensures TopPlaces(high, low, p) == Whole(high, low) / Pow2(128 - p)
  {
    hide Pow2;
    Pow2Words();
    Pow2Add(128 - p, p - 1);
    Pow2Add(63, 64);
    Pow2Add(63, 1);
    PowOne();
    var w, u := Whole(high, low), Pow2(128 - p);
    if high < TWO63 {
      BelowProduct(w, Pow2(p - 1), u);
    } else {
      NotBelowProduct(w, Pow2(p - 1), u);
    }
  }

  lemma NotBelowProduct(x: int, a: int, b: int)
    requires b > 0 && a * b <= x
    ensures a <= x / b
  {
    var q := x / b;
    assert x == b * q + x % b;
    assert (q + 1) * b == b * q + b;
    if q < a { MulMonotone(q + 1, a, b); }
  }

  // ---------- What the result stands for ----------

  /** The number with a biased exponent and a significand; exponent zero has the unit of exponent one. */
  ghost function FiniteValue(e: int, m: int, bias: int, p: int): real {
    Times(m, Two((if e == 0 then 1 else e) - bias - (p - 1)))
  }

  ghost function Times(m: int, unit: real): real {
    (m as real) * unit
  }

  /** The exact value, rounded to a multiple of the unit of its exponent. */
  ghost function Rounded(N: nat, exponent: int, biased: int, bias: int, p: nat, mode: Mode): real {
    var e := if biased <= 0 then 1 else biased;
    Times(RoundReal(mode, InUnits(N, exponent, e, bias, p)), Two(e - bias - (p - 1)))
  }

  /** In units of its own exponent a number has p bits, or fewer below the normal numbers. */
  lemma UnitsHaveBits(N: nat, bits: int, exponent: int, e: int, bias: int, p: nat)
    requires 1 <= bits && Pow2(bits - 1) <= N < Pow2(bits) && p >= 1 && Biased(exponent, bits, bias) <= e
    ensures 0.0 < InUnits(N, exponent, e, bias, p) < Pow2(p) as real
    ensures Biased(exponent, bits, bias) == e ==> Pow2(p - 1) as real <= InUnits(N, exponent, e, bias, p)
  {
    hide Pow2, Two;
    var k, y := exponent - (e - bias - (p - 1)), InUnits(N, exponent, e, bias, p);
    assert y == (N as real) * Two(k);
    BetweenPowers(N, bits, k);
    TwoGrows(k + bits, p);
    WholePower(p);
    WholePower(p - 1);
    assert Two(k + bits) > y >= Two(k + bits - 1) > 0.0;
  }

  lemma WholePower(n: nat)
    ensures Two(n) == Pow2(n) as real
  {
    hide Pow2, Two;
    TwoAdd(0, n);
    TwoZero();
    assert 0 + n == n;
  }

  /** So rounding gives at most 2^p of them, and at least 2^(p - 1) for normal numbers. */
  lemma RoundedRange(mode: Mode, y: real, limit: int)
    requires 0.0 < y
    ensures 0 <= RoundReal(mode, y)
    ensures y < limit as real ==> RoundReal(mode, y) <= limit
    ensures limit as real <= y ==> limit <= RoundReal(mode, y)
  {
  }

  /** Twice as many units of half the size. */
  lemma HalfOfUnits(e: int, bias: int, p: nat)
    requires p >= 1
    ensures Times(Pow2(p - 1), Two(e + 1 - bias - (p - 1))) == Times(Pow2(p), Two(e - bias - (p - 1))) == Two(e + 1 - bias)
  {
    hide Pow2, Two;
    TwoAdd(e + 1 - bias - (p - 1), p - 1);
    TwoAdd(e - bias - (p - 1), p);
    RCommute(Pow2(p - 1) as real, Two(e + 1 - bias - (p - 1)));
    RCommute(Pow2(p) as real, Two(e - bias - (p - 1)));
  }

  /**
    A result for the value v: finite and standing for v, with all p bits of its
    significand unless its exponent is zero, or too large exactly if v reaches
    the power of two above the largest number.
   */
  ghost predicate IsPacked(r: Converted, v: real, bias: int, p: nat, largest: int)
    requires p >= 1
  {
    && (r == TooLarge <==> v >= Two(largest + 1 - bias))
    && (r != TooLarge ==>
          && r.Finite? && FiniteValue(r.exponent, r.significand, bias, p) == v
          && 0 <= r.exponent <= largest && 0 <= r.significand < Pow2(p)
          && (r.exponent >= 1 <==> r.significand >= Pow2(p - 1)))
  }

  lemma PackedIs(m: int, e: int, bias: int, p: nat, largest: int)
    requires 0 <= m <= Pow2(p) && 1 <= e <= largest && p >= 1 && (e > 1 ==> m >= Pow2(p - 1))
    ensures IsPacked(Packed(m, e, p, largest), Times(m, Two(e - bias - (p - 1))), bias, p, largest)
  {
    hide Two, Pow2, Times;
    HalfOfUnits(e, bias, p);
    PowerHalves(p);
    ReachesLimit(m, e, bias, p, largest);
  }

  /** The result stands for the rounded value, in every mode and through every carry. */
  lemma CorrectIsRounded(N: nat, bits: int, exponent: int, bias: int, p: nat, mode: Mode, largest: int)
    requires 1 <= bits && Pow2(bits - 1) <= N < Pow2(bits) && p >= 2 && largest >= 1
    requires Biased(exponent, bits, bias) <= largest
    ensures var biased := Biased(exponent, bits, bias);
      IsPacked(Correct(N, exponent, biased, bias, p, mode, largest), Rounded(N, exponent, biased, bias, p, mode),
               bias, p, largest)
  {
    hide Two, Pow2, RoundReal, InUnits, Packed, IsPacked, Times;
    var biased := Biased(exponent, bits, bias);
    var e := if biased <= 0 then 1 else biased;
    var y := InUnits(N, exponent, e, bias, p);
    var m := RoundReal(mode, y);
    UnitsHaveBits(N, bits, exponent, e, bias, p);
    RoundedRange(mode, y, Pow2(p));
    RoundedRange(mode, y, Pow2(p - 1));
    PackedIs(m, e, bias, p, largest);
  }

  /** What the modes mean. */
  lemma ModesMean(mode: Mode, y: real)
    ensures var m := RoundReal(mode, y) as real;
      match mode
      case Nearest => m - 0.5 <= y < m + 0.5
      case Upward => m - 1.0 < y <= m
      case Truncating => m <= y < m + 1.0
  {
  }

  lemma Distance(y: real, m: real, u: real, v: real, w: real, d: real)
    requires u > 0.0 && v == y * u && w == m * u
    ensures y <= m + d <==> v <= w + d * u
    ensures y < m + d <==> v < w + d * u
    ensures m - d <= y <==> w - d * u <= v
    ensures m - d < y <==> w - d * u < v
  {
    RDistribute(m, d, u);
    RMonotone(y, m + d, u);
    RMonotone(m - d, y, u);
  }

  /** The same for y units of size u. */
  lemma UnitsRounded(mode: Mode, y: real, u: real, v: real)
    requires u > 0.0 && v == y * u
    ensures var w := Times(RoundReal(mode, y), u);
      match mode
      case Nearest => w - 0.5 * u <= v < w + 0.5 * u
      case Upward => w - u < v <= w
      case Truncating => w <= v < w + u
  {
    hide RoundReal;
    ModesMean(mode, y);
    var m, w := RoundReal(mode, y) as real, Times(RoundReal(mode, y), u);
    Distance(y, m, u, v, w, 0.0);
    Distance(y, m, u, v, w, 0.5);
    Distance(y, m, u, v, w, 1.0);
  }

  /** So the rounded value is the multiple of the unit nearest to the exact one, or next above, or next below. */
  lemma RoundedIs(N: nat, exponent: int, biased: int, bias: int, p: nat, mode: Mode)
    ensures var u := Two((if biased <= 0 then 1 else biased) - bias - (p - 1));
      var v, w := (N as real) * Two(exponent), Rounded(N, exponent, biased, bias, p, mode);
      match mode
      case Nearest => w - 0.5 * u <= v < w + 0.5 * u
      case Upward => w - u < v <= w
      case Truncating => w <= v < w + u
  {
    hide Two, RoundReal, Times;
    var q := (if biased <= 0 then 1 else biased) - bias - (p - 1);
    var y := InUnits(N, exponent, if biased <= 0 then 1 else biased, bias, p);
    TwoSum(exponent - q, q);
    assert exponent - q + q == exponent;
    RAssoc(N as real, Two(exponent - q), Two(q));
    UnitsRounded(mode, y, Two(q), (N as real) * Two(exponent));
  }

  /**
    All of the conversion: too small exactly below the smallest subnormal, too
    large from the power of two above the largest number on, and otherwise the
    rounded value.
   */
  lemma GivenIs(N: nat, exponent: int, bits: int, bias: int, p: nat, mode: Mode, largest: int)
    requires 1 <= bits && Pow2(bits - 1) <= N < Pow2(bits) && p >= 2 && largest >= 1
    ensures var v, r := (N as real) * Two(exponent), Given(N, exponent, bits, bias, p, mode, largest);
      && (r == TooSmall <==> v < Two(1 - bias - (p - 1)))
      && (v >= Two(largest + 1 - bias) ==> r == TooLarge)
      && (Two(1 - bias - (p - 1)) <= v < Two(largest + 1 - bias) ==>
            IsPacked(r, Rounded(N, exponent, Biased(exponent, bits, bias), bias, p, mode), bias, p, largest))
  {
    hide Two, Pow2, Correct, Rounded;
    var biased := Biased(exponent, bits, bias);
    BetweenPowers(N, bits, exponent);
    if biased > largest {
      TwoGrows(largest + 1 - bias, exponent + bits - 1);
      TwoGrows(1 - bias - (p - 1), exponent + bits - 1);
    } else {
      TwoGrows(exponent + bits, largest + 1 - bias);
      CorrectIsRounded(N, bits, exponent, bias, p, mode, largest);
      if biased <= 1 - p {
        TwoGrows(exponent + bits, 1 - bias - (p - 1));
      } else {
        TwoGrows(1 - bias - (p - 1), exponent + bits - 1);
      }
    }
  }

  lemma PowerHalves(p: nat)
    requires p >= 1
    ensures Pow2(p) == 2 * Pow2(p - 1) && Pow2(p - 1) >= 1
  {
  }

  lemma ReachesLimit(m: int, e: int, bias: int, p: nat, largest: int)
    requires 0 <= m <= Pow2(p) && e <= largest && p >= 1
    ensures Times(m, Two(e - bias - (p - 1))) >= Two(largest + 1 - bias) <==> m == Pow2(p) && e == largest
  {
    hide Two, Pow2;
    HalfOfUnits(e, bias, p);
    var t := Two(e - bias - (p - 1));
    InOrder(m, Pow2(p), t, (m as real) * t, Two(e + 1 - bias));
    if e < largest {
      TwoGrows(e + 2 - bias, largest + 1 - bias);
      TwoStep(e + 1 - bias);
    }
  }

  // ---------- Below the smallest subnormal ----------

  /**
    What rounding would give where the conversion gives up: one unit when
    rounding up, or to nearest from half a unit on, and nothing otherwise.
   */
  lemma BelowSubnormal(N: nat, bits: int, exponent: int, bias: int, p: nat, mode: Mode)
    requires 1 <= bits && Pow2(bits - 1) <= N < Pow2(bits) && p >= 2
    requires Biased(exponent, bits, bias) <= 1 - p
    ensures RoundReal(mode, InUnits(N, exponent, 1, bias, p))
         == if mode == Upward || (mode == Nearest && Biased(exponent, bits, bias) == 1 - p) then 1 else 0
  {
    hide Pow2, Two;
    var biased := Biased(exponent, bits, bias);
    var j: nat := 1 - p - biased;
    var y, t := InUnits(N, exponent, 1, bias, p), Two(-bits - j);
    assert exponent - (1 - bias - (p - 1)) == -bits - j;
    TwoAdd(-bits - j, bits - 1);
    TwoAdd(-bits - j, bits);
    RCommute(t, Pow2(bits - 1) as real);
    RCommute(t, Pow2(bits) as real);
    assert -bits - j + (bits - 1) == -1 - j && -bits - j + bits == 0 - j;
    InOrder(Pow2(bits - 1), N, t, Two(-1 - j), y);
    InOrder(N, Pow2(bits), t, y, Two(0 - j));
    SmallTwo(j);
  }

  /** So giving up with zero is right exactly when truncating, and to nearest below half a unit. */
  lemma ZeroIsRight(N: nat, bits: int, exponent: int, bias: int, p: nat, mode: Mode, largest: int)
    requires 1 <= bits && Pow2(bits - 1) <= N < Pow2(bits) && p >= 2 && largest >= 1
    requires Biased(exponent, bits, bias) <= 1 - p
    ensures Correct(N, exponent, Biased(exponent, bits, bias), bias, p, mode, largest) == Finite(0, 0)
       <==> mode == Truncating || (mode == Nearest && Biased(exponent, bits, bias) < 1 - p)
  {
    hide Two, RoundReal, InUnits;
    BelowSubnormal(N, bits, exponent, bias, p, mode);
    Pow2AtLeast(p - 1);
    Pow2AtLeast(p);
  }

  /** Three quarters of the smallest single become zero, where to nearest they are that single. */
  method GivesUpTooEarly() returns (r: Converted)
    ensures r == TooSmall && Correct(3, -151, Biased(-151, 2, 127), 127, 24, Nearest, 254) == Finite(0, 1)
  {
    hide Pow2, Window, Exact, Correct;
    var encoder := new Encoder();
    encoder.PushXdigit(3);
    r := GetBin(encoder, -151, Nearest, 8, 24);
    TwoBits(encoder);
    ThreeQuarters();
  }

  lemma ThreeQuarters()
    ensures Pow2(7) == 128 && Pow2(8) == 256
    ensures Correct(3, -151, Biased(-151, 2, 127), 127, 24, Nearest, 254) == Finite(0, 1)
  {
    assert Pow2(7) == 128 && Pow2(8) == 256 && Pow2(2) == 4 && Pow2(1) == 2;
    hide Two, RoundReal, InUnits;
    BelowSubnormal(3, 2, -151, 127, 24, Nearest);
    Pow2AtLeast(23);
    Pow2AtLeast(24);
  }

  lemma TwoBits(encoder: Encoder)
    requires encoder.Valid() && encoder.value == 3
    ensures encoder.bits == 2
  {
    if encoder.bits > 2 { Pow2Monotone(2, encoder.bits - 1); }
    assert Pow2(2) == 4;
  }

  lemma SmallTwo(j: nat)
    ensures 0.0 < Two(-1 - j) && Two(0 - j) <= 1.0
    ensures j == 0 ==> Two(-1 - j) == 0.5
    ensures j > 0 ==> Two(0 - j) <= 0.5
  {
    hide Two, Pow2;
    TwoZero();
    TwoStep(-1);
    TwoAdd(0 - j, j);
    Pow2AtLeast(j);
    AtMostOne(Two(0 - j), Pow2(j));
  }

  lemma Pow2AtLeast(j: nat)
    ensures Pow2(j) >= 1 && (j > 0 ==> Pow2(j) >= 2)
  {
  }

  lemma AtMostOne(t: real, p: nat)
    requires t > 0.0 && p >= 1 && t * (p as real) == 1.0
    ensures t <= 1.0 && (p >= 2 ==> t <= 0.5)
  {
    ScaleOrder(1, p, t);
    ScaleOrder(2, p, t);
    RCommute(t, p as real);
  }

  // ---------- Above the largest number ----------

  /** The largest finite number of a format. */
  ghost function LargestFinite(bias: int, p: nat, largest: int): real {
    ((Pow2(p) - 1) as real) * Two(largest - bias - (p - 1))
  }

  lemma {:induction false} TwoGrows(m: int, n: int)
    requires m <= n
    ensures Two(m) <= Two(n)
    decreases n - m
  {
    if m < n {
      TwoGrows(m, n - 1);
      TwoStep(n - 1);
    }
  }

  /** A number of so many bits lies between two powers of two. */
  lemma BetweenPowers(N: nat, bits: int, exponent: int)
    requires 1 <= bits && Pow2(bits - 1) <= N < Pow2(bits)
    ensures Two(exponent + bits - 1) <= (N as real) * Two(exponent) < Two(exponent + bits)
  {
    hide Pow2, Two;
    var t := Two(exponent);
    TwoAdd(exponent, bits - 1);
    TwoAdd(exponent, bits);
    RCommute(t, Pow2(bits - 1) as real);
    RCommute(t, Pow2(bits) as real);
    InOrder(Pow2(bits - 1), N, t, Two(exponent + bits - 1), (N as real) * t);
    InOrder(N, Pow2(bits), t, (N as real) * t, Two(exponent + bits));
  }

  /** The largest finite number is below the power of two that follows. */
  lemma LargestIsBelow(bias: int, p: nat, largest: int)
    ensures LargestFinite(bias, p, largest) < Two(largest + 1 - bias)
  {
    hide Pow2, Two;
    var t := Two(largest - bias - (p - 1));
    TwoAdd(largest - bias - (p - 1), p);
    RCommute(t, Pow2(p) as real);
    InOrder(Pow2(p) - 1, Pow2(p), t, LargestFinite(bias, p, largest), Two(largest + 1 - bias));
  }

  /**
    Truncating gives infinity exactly from the power of two above the largest
    finite number on, although that number is then the truncation.
   */
  lemma TruncatesToInfinity(N: nat, exponent: int, bits: int, bias: int, p: nat, largest: int)
    requires 1 <= bits && Pow2(bits - 1) <= N < Pow2(bits) && p >= 2 && largest >= 1
    ensures Given(N, exponent, bits, bias, p, Truncating, largest) == TooLarge
       <==> (N as real) * Two(exponent) >= Two(largest + 1 - bias)
    ensures LargestFinite(bias, p, largest) < Two(largest + 1 - bias)
  {
    hide Pow2, Two, RoundReal, InUnits, LargestFinite;
    LargestIsBelow(bias, p, largest);
    BetweenPowers(N, bits, exponent);
    var biased := Biased(exponent, bits, bias);
    if biased > largest {
      TwoGrows(largest + 1 - bias, exponent + bits - 1);
    } else {
      TwoGrows(exponent + bits, largest + 1 - bias);
      if biased > 1 - p { TruncationFits(N, exponent, bits, bias, p, if biased <= 0 then 1 else biased); }
    }
  }

  /** Truncating never needs one more bit. */
  lemma TruncationFits(N: nat, exponent: int, bits: int, bias: int, p: nat, e: int)
    requires 1 <= bits && Pow2(bits - 1) <= N < Pow2(bits) && p >= 1 && Biased(exponent, bits, bias) <= e
    ensures RoundReal(Truncating, InUnits(N, exponent, e, bias, p)) < Pow2(p)
  {
    hide Pow2, Two;
    var k := exponent - (e - bias - (p - 1));
    BetweenPowers(N, bits, k);
    TwoGrows(k + bits, p);
    TwoAdd(0, p);
    TwoZero();
  }

  /** 2^128, truncated to a single, is infinite. */
  method InfiniteSingle() returns (r: Converted)
    ensures r == TooLarge && LargestFinite(127, 24, 254) < Two(128)
  {
    hide Pow2, Window, Exact, Correct;
    var encoder := new Encoder();
    encoder.PushXdigit(1);
    OneBit(encoder);
    ThreeQuarters();
    r := GetBin(encoder, 128, Truncating, 8, 24);
    LargestIsBelow(127, 24, 254);
  }

  lemma OneBit(encoder: Encoder)
    requires encoder.Valid() && encoder.value == 1
    ensures encoder.bits == 1
  {
    assert Pow2(1) == 2;
  }

  // ---------- Ties ----------

  /** Nearest as IEEE 754 has it: ties go to the even neighbour. */
  ghost function HalfEven(y: real): int {
    var n := y.Floor;
    if y - n as real < 0.5 || (y - n as real == 0.5 && n % 2 == 0) then n else n + 1
  }

  /** The two disagree exactly when the value lies halfway above an even number of units. */
  lemma NearestIsHalfEven(y: real)
    ensures RoundReal(Nearest, y) == HalfEven(y) <==> !(y - y.Floor as real == 0.5 && y.Floor % 2 == 0)
  {
  }

  /** So 2^24 + 1 becomes the single 2^24 + 2 and not 2^24. */
  lemma TieGoesUp()
    ensures var y := InUnits(0x100_0001, 0, 151, 127, 24);
      && y == 8388608.5 && HalfEven(y) == 8388608
      && Correct(0x100_0001, 0, Biased(0, 25, 127), 127, 24, Nearest, 254) == Finite(151, 8388609)
  {
    hide Two, Pow2;
    TwoZero();
    TwoStep(-1);
    TwentyFourBits();
    assert InUnits(0x100_0001, 0, 151, 127, 24) == 8388608.5;
  }

  lemma TwentyFourBits()
    ensures Pow2(24) == 0x100_0000 && Pow2(23) == 0x80_0000
  {
    assert Pow2(12) == 4096 && Pow2(11) == 2048;
    hide Pow2;
    Pow2Add(12, 12);
    Pow2Add(12, 11);
  }
}
