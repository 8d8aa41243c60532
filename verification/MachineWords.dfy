/**
  Shifts of unsigned machine words, written as quotients and products by
  powers of two, and the 128-bit number that fixed-point printing uses.
 */
module MachineWords {
  import opened Positional
  import opened DigitLoops

  const TWO128: int := 0x1_0000_0000_0000_0000_0000_0000_0000_0000

  lemma Pow2Words()
    ensures Pow2(32) == TWO32 && Pow2(64) == TWO64 && Pow2(128) == TWO128
  {
    hide Pow2;
    Pow2Small();
    Pow2Add(32, 32);
    Pow2Add(64, 64);
  }

  lemma MulBelow(a: int, b: int, c: int)
    requires a < b && c > 0
    ensures a * c + c <= b * c
  {
    MulMonotone(a + 1, b, c);
  }

  /** A shift to the right by k in a word split at bit 64. */
  lemma ShiftRightParts(high: int, low: int, k: nat)
    requires 0 <= high < TWO64 && 0 <= low < TWO64 && 0 < k < 64
    ensures var p, q := Pow2(k), Pow2(64 - k);
      && (high * q) % TWO64 == (high % p) * q
      && 0 <= low / p + (high % p) * q < TWO64 && 0 <= high / p < TWO64
      && (high / p) * TWO64 + (low / p + (high % p) * q) == (high * TWO64 + low) / p
  {
    hide Pow2;
    var p, q := Pow2(k), Pow2(64 - k);
    Pow2Add(k, 64 - k);
    Pow2Words();
    ShiftRightBy(high, low, p, q);
  }

  lemma ShiftRightBy(high: int, low: int, p: int, q: int)
    requires 0 <= high < TWO64 && 0 <= low < TWO64 && p > 0 && q > 0 && p * q == TWO64
    ensures (high * q) % TWO64 == (high % p) * q
    ensures 0 <= low / p + (high % p) * q < TWO64 && 0 <= high / p < TWO64
    ensures (high / p) * TWO64 + (low / p + (high % p) * q) == (high * TWO64 + low) / p
  {
    var hq, hr, lq, lr := high / p, high % p, low / p, low % p;
    HalfShift(high, q, p);
    HalfShift(low, q, p);
    MulMonotone(1, p, q);
    Recombine(p, q, hq, hr, lq);
    QuotientIs(high * TWO64 + low, p, hq * TWO64 + hr * q + lq, lr);
  }

  /** One word, shifted left: what leaves it at the top and what stays. */
  lemma HalfShift(x: int, p: int, q: int)
    requires 0 <= x < TWO64 && p > 0 && q > 0 && q * p == TWO64
    ensures x == q * (x / q) + x % q && 0 <= x % q < q && 0 <= x / q < p
    ensures x * p == TWO64 * (x / q) + (x % q) * p
    ensures (x * p) % TWO64 == (x % q) * p && 0 <= (x % q) * p <= TWO64 - p
  {
    var a, r := x / q, x % q;
    assert x == q * a + r;
    SplitTimes(q, p, a, r);
    MulBelow(r, q, p);
    ProductNat(r, p);
    Below(a, r, q, p);
    QuotientIs(x * p, TWO64, a, r * p);
    assert a >= 0;
  }

  lemma SplitTimes(p: int, q: int, x: int, y: int)
    ensures (p * x + y) * q == (p * q) * x + y * q
  {
  }

  lemma Below(lq: int, lr: int, p: int, q: int)
    requires p > 0 && q > 0 && 0 <= lr && p * lq + lr < p * q
    ensures lq < q
  {
    if lq >= q { MulMonotone(q, lq, p); }
  }

  lemma Recombine(p: int, q: int, hq: int, hr: int, lq: int)
    ensures (p * hq + hr) * (p * q) + p * lq == p * (hq * (p * q) + hr * q + lq)
  {
    var t := p * q;
    assert (p * hq + hr) * t == p * (hq * t) + hr * t;
    assert hr * t == p * (hr * q);
    assert p * (hq * t + hr * q + lq) == p * (hq * t) + p * (hr * q) + p * lq;
  }

  /** A shift to the left by k in a word split at bit 64. */
  lemma ShiftLeftParts(high: int, low: int, k: nat)
    requires 0 <= high < TWO64 && 0 <= low < TWO64 && 0 < k < 64
    ensures var p, q := Pow2(k), Pow2(64 - k);
      && (high * p) % TWO64 + low / q < TWO64
      && ((high * p) % TWO64 + low / q) * TWO64 + (low * p) % TWO64 == ((high * TWO64 + low) * p) % TWO128
  {
    hide Pow2;
    var p, q := Pow2(k), Pow2(64 - k);
    Pow2Add(k, 64 - k);
    Pow2Words();
    ShiftLeftBy(high, low, p, q);
  }

  lemma ShiftLeftBy(high: int, low: int, p: int, q: int)
    requires 0 <= high < TWO64 && 0 <= low < TWO64 && p > 0 && q > 0 && p * q == TWO64
    ensures (high * p) % TWO64 + low / q < TWO64
    ensures ((high * p) % TWO64 + low / q) * TWO64 + (low * p) % TWO64 == ((high * TWO64 + low) * p) % TWO128
  {
    var hq, hr, lq, lr := high / q, high % q, low / q, low % q;
    HalfShift(high, p, q);
    HalfShift(low, p, q);
    Regroup(high, low, p);
    AcrossWords(high * p, low * p, hq, hr * p, lq, lr * p);
  }

  lemma AcrossWords(x: int, y: int, xq: int, xr: int, yq: int, yr: int)
    requires x == TWO64 * xq + xr && y == TWO64 * yq + yr && 0 <= xr + yq < TWO64 && 0 <= yr < TWO64
    ensures (x * TWO64 + y) % TWO128 == (xr + yq) * TWO64 + yr
  {
    QuotientIs(x * TWO64 + y, TWO128, xq, (xr + yq) * TWO64 + yr);
  }

  lemma Regroup(high: int, low: int, p: int)
    ensures (high * TWO64 + low) * p == (high * p) * TWO64 + low * p
  {
    assert (high * TWO64) * p == (high * p) * TWO64;
  }

  /** An unsigned 128-bit number in two halves. */
  class UInt128 {
    var high: int
    var low: int

    ghost predicate Valid()
      reads this
    {
      0 <= high < TWO64 && 0 <= low < TWO64
    }

    ghost function Value(): (r: int)
      requires Valid()
      reads this
      ensures 0 <= r < TWO128
    {
      high * TWO64 + low
    }

    constructor (high: int, low: int)
      requires 0 <= high < TWO64 && 0 <= low < TWO64
      ensures Valid() && Value() == high * TWO64 + low
    {
      this.high, this.low := high, low;
    }

    /** Four products of 32-bit parts, each with the carry of the one below. */
    method Multiply(multiplicand: int)
      requires Valid() && 0 <= multiplicand < TWO32 && Value() * multiplicand < TWO128
      modifies this
      ensures Valid() && Value() == old(Value()) * multiplicand
    {
      MultiplyInParts(high, low, multiplicand);
      high, low := AddParts((low % TWO32) * multiplicand, (low / TWO32) * multiplicand,
                            (high % TWO32) * multiplicand, (high / TWO32) * multiplicand);
    }

    /** A shift to the right, or to the left when the amount is negative. */
    method Shift(amount: int)
      requires Valid() && -64 <= amount <= 64
      modifies this
      ensures Valid()
      ensures amount >= 0 ==> Value() == old(Value()) / Pow2(amount)
      ensures amount <= 0 ==> Value() == (old(Value()) * Pow2(-amount)) % TWO128
    {
      hide Pow2;
      Pow2Words();
      if amount == 0 {
        assert Pow2(0) == 1 by { PowZeroIsOne(); }
      } else if amount == -64 {
        ByWholeWord(high, low);
        high := low;
        low := 0;
      } else if amount == 64 {
        ByWholeWord(high, low);
        low := high;
        high := 0;
      } else if amount <= 0 {
        ShiftLeftBits(-amount);
      } else {
        ShiftRightBits(amount);
      }
    }

    method ShiftLeftBits(amount: nat)
      requires Valid() && 0 < amount < 64
      modifies this
      ensures Valid() && Value() == (old(Value()) * Pow2(amount)) % TWO128
    {
      hide Pow2;
      ShiftLeftParts(high, low, amount);
      high := (high * Pow2(amount)) % TWO64;
      high := high + low / Pow2(64 - amount);
      low := (low * Pow2(amount)) % TWO64;
    }

    method ShiftRightBits(amount: nat)
      requires Valid() && 0 < amount < 64
      modifies this
      ensures Valid() && Value() == old(Value()) / Pow2(amount)
    {
      hide Pow2;
      ShiftRightParts(high, low, amount);
      var right, left := low / Pow2(amount), (high * Pow2(64 - amount)) % TWO64;
      low := right + left;
      high := high / Pow2(amount);
    }

    /** Splits off everything from bit `power` up. */
    method DivModPowerOf2(power: nat) returns (result: int)
      requires Valid() && 0 < power < 128 && Value() < TWO31 * Pow2(power)
      modifies this
      ensures Valid() && old(Value()) == result * Pow2(power) + Value() && 0 <= Value() < Pow2(power)
      ensures 0 <= result < TWO31
    {
      hide Pow2;
      ghost var value := Value();
      BelowProduct(value, TWO31, Pow2(power));
      if power >= 64 {
        HighQuotient(high, low, power);
        result := high / Pow2(power - 64);
        high := high - result * Pow2(power - 64);
      } else {
        LowQuotient(high, low, power);
        var partLow := low / Pow2(power);
        var partHigh := (high * Pow2(64 - power)) % TWO64;
        result := partLow + partHigh;
        high := 0;
        low := low - partLow * Pow2(power);
      }
    }

    predicate IsZero()
      requires Valid()
      reads this
      ensures IsZero() <==> Value() == 0
    {
      high == 0 && low == 0
    }

    method BitAt(position: nat) returns (bit: int)
      requires Valid() && position < 128
      ensures bit == (Value() / Pow2(position)) % 2
    {
      hide Pow2;
      if position >= 64 {
        HighQuotient(high, low, position);
        bit := (high / Pow2(position - 64)) % 2;
      } else {
        LowBit(high, low, position);
        bit := (low / Pow2(position)) % 2;
      }
    }
  }

  lemma PowZeroIsOne()
    ensures Pow2(0) == 1
  {
  }

  lemma ByWholeWord(high: int, low: int)
    requires 0 <= high < TWO64 && 0 <= low < TWO64
    ensures (high * TWO64 + low) / TWO64 == high
    ensures ((high * TWO64 + low) * TWO64) % TWO128 == low * TWO64
  {
    QuotientIs(high * TWO64 + low, TWO64, high, low);
    QuotientIs((high * TWO64 + low) * TWO64, TWO128, high, low * TWO64);
  }

  lemma PartTimes(x: int, m: int)
    requires 0 <= x < TWO32 && 0 <= m < TWO32
    ensures 0 <= x * m <= 0xFFFF_FFFE_0000_0001
  {
    MulMonotone(x, 0xFFFF_FFFF, m);
    MulMonotone(m, 0xFFFF_FFFF, 0xFFFF_FFFF);
  }

  ghost predicate Part(x: int) {
    0 <= x <= 0xFFFF_FFFE_0000_0001
  }

  ghost function InPlace(x0: int, x1: int, x2: int, x3: int): int {
    x3 * (TWO32 * TWO64) + x2 * TWO64 + x1 * TWO32 + x0
  }

  lemma MultiplyInParts(high: int, low: int, m: int)
    requires 0 <= high < TWO64 && 0 <= low < TWO64 && 0 <= m < TWO32
    ensures var x0, x1, x2, x3 := (low % TWO32) * m, (low / TWO32) * m, (high % TWO32) * m, (high / TWO32) * m;
      && Part(x0) && Part(x1) && Part(x2) && Part(x3)
      && InPlace(x0, x1, x2, x3) == (high * TWO64 + low) * m
  {
    var l0, l1, h0, h1 := low % TWO32, low / TWO32, high % TWO32, high / TWO32;
    PartTimes(l0, m);
    PartTimes(l1, m);
    PartTimes(h0, m);
    PartTimes(h1, m);
    InParts(h1, h0, l1, l0, m, high, low);
  }

  /** Adds four 64-bit products, each 32 bits above the one before, in a 64-bit accumulator. */
  method AddParts(x0: int, x1: int, x2: int, x3: int) returns (high: int, low: int)
    requires Part(x0) && Part(x1) && Part(x2) && Part(x3) && InPlace(x0, x1, x2, x3) < TWO128
    ensures 0 <= high < TWO64 && 0 <= low < TWO64 && high * TWO64 + low == InPlace(x0, x1, x2, x3)
  {
    var accumulator := x0;
    var part := accumulator % TWO32;
    accumulator := accumulator / TWO32;
    accumulator := accumulator + x1;
    assert accumulator < TWO64;
    WrapLeft(accumulator);
    low := (accumulator * TWO32) % TWO64 + part;
    accumulator := accumulator / TWO32;
    accumulator := accumulator + x2;
    assert accumulator < TWO64;
    part := accumulator % TWO32;
    accumulator := accumulator / TWO32;
    accumulator := accumulator + x3;
    assert accumulator < TWO32;
    WrapLeft(accumulator);
    high := (accumulator * TWO32) % TWO64 + part;
  }

  lemma WrapLeft(x: int)
    ensures (x * TWO32) % TWO64 == (x % TWO32) * TWO32
  {
    QuotientIs(x * TWO32, TWO64, x / TWO32, (x % TWO32) * TWO32);
  }

  lemma InParts(h1: int, h0: int, l1: int, l0: int, m: int, high: int, low: int)
    requires high == h1 * TWO32 + h0 && low == l1 * TWO32 + l0
    ensures (high * TWO64 + low) * m
         == (h1 * m) * (TWO32 * TWO64) + (h0 * m) * TWO64 + (l1 * m) * TWO32 + l0 * m
  {
  }

  lemma BelowProduct(x: int, a: int, b: int)
    requires 0 <= x < a * b && b > 0
    ensures 0 <= x / b < a && x == (x / b) * b + x % b && 0 <= x % b < b
  {
    var q := x / b;
    assert x == q * b + x % b;
    if q >= a { MulMonotone(a, q, b); }
    if q < 0 { MulMonotone(q, -1, b); }
  }

  /** From bit 64 up the quotient only looks at the high half. */
  lemma HighQuotient(high: int, low: int, power: nat)
    requires 0 <= high < TWO64 && 0 <= low < TWO64 && 64 <= power < 128
    ensures var p := Pow2(power - 64); var q := high / p;
      && (high * TWO64 + low) / Pow2(power) == q
      && (high * TWO64 + low) % Pow2(power) == (high - q * p) * TWO64 + low
      && 0 <= high - q * p <= high && 0 <= q
  {
    hide Pow2;
    Pow2Words();
    Pow2Add(power - 64, 64);
    var p := Pow2(power - 64);
    var q, r := high / p, high % p;
    assert high == p * q + r;
    SplitTimes(p, TWO64, q, r);
    QuotientIs(high * TWO64 + low, p * TWO64, q, r * TWO64 + low);
  }

  lemma LowQuotient(high: int, low: int, power: nat)
    requires 0 <= high < TWO64 && 0 <= low < TWO64 && 0 < power < 64
    requires high * TWO64 + low < TWO31 * Pow2(power)
    ensures var p, q := Pow2(power), Pow2(64 - power);
      && (high * q) % TWO64 == high * q
      && (high * TWO64 + low) / p == low / p + high * q
      && (high * TWO64 + low) % p == low - (low / p) * p
      && 0 <= low - (low / p) * p <= low
  {
    hide Pow2;
    var p, q := Pow2(power), Pow2(64 - power);
    Pow2Words();
    Pow2Add(power, 64 - power);
    LowQuotientOf(high, low, p, q);
    BelowProduct(high * TWO64 + low, TWO31, p);
  }

  lemma LowQuotientOf(high: int, low: int, p: int, q: int)
    requires 0 <= high && 0 <= low && p > 0 && q > 0 && p * q == TWO64
    ensures (high * TWO64 + low) / p == low / p + high * q && (high * TWO64 + low) % p == low - (low / p) * p
    ensures 0 <= low - (low / p) * p <= low && 0 <= high * q && 0 <= low / p
  {
    var l, r := low / p, low % p;
    assert low == p * l + r;
    PullFactor(high, p, q);
    QuotientIs(high * TWO64 + low, p, high * q + l, r);
    ProductNat(high, q);
    if l < 0 { MulMonotone(l, -1, p); }
    ProductNat(l, p);
  }

  lemma PullFactor(high: int, p: int, q: int)
    ensures high * (p * q) == p * (high * q)
  {
  }

  lemma LowBit(high: int, low: int, position: nat)
    requires 0 <= low < TWO64 && position < 64
    ensures ((high * TWO64 + low) / Pow2(position)) % 2 == (low / Pow2(position)) % 2
  {
    hide Pow2;
    Pow2Words();
    Pow2Add(position, 64 - position);
    Pow2Add(1, 63 - position);
    assert Pow2(1) == 2 by { PowOne(); }
    LowBitOf(high, low, Pow2(position), Pow2(63 - position));
  }

  lemma LowBitOf(high: int, low: int, p: int, q: int)
    requires 0 <= low && p > 0 && p * (2 * q) == TWO64
    ensures ((high * TWO64 + low) / p) % 2 == (low / p) % 2
  {
    var l, r := low / p, low % p;
    assert low == p * l + r;
    Pull(high, p, q);
    QuotientIs(high * TWO64 + low, p, 2 * (high * q) + l, r);
    QuotientIs(2 * (high * q) + l, 2, high * q + l / 2, l % 2);
  }

  lemma Pull(high: int, p: int, q: int)
    ensures high * (p * (2 * q)) == p * (2 * (high * q))
  {
    var x := high * q;
    assert high * (p * (2 * q)) == (p * 2) * x;
  }

  lemma PowOne()
    ensures Pow2(1) == 2
  {
  }
}
