/** Powers of a natural number, and how many bits they need. */
module Powers {
  import opened Positional

  ghost function Pow(b: nat, n: nat): nat {
    if n == 0 then 1 else b * Pow(b, n - 1)
  }

  lemma {:induction false} PowAdd(b: nat, m: nat, n: nat)
    ensures Pow(b, m + n) == Pow(b, m) * Pow(b, n)
  {
    if m > 0 {
      PowAdd(b, m - 1, n);
      ProductOfThree(b, Pow(b, m - 1), Pow(b, n));
    }
  }

  lemma {:induction false} PowProduct(b: nat, c: nat, n: nat)
    ensures Pow(b * c, n) == Pow(b, n) * Pow(c, n)
  {
    if n > 0 {
      PowProduct(b, c, n - 1);
      Interleave(b, c, Pow(b, n - 1), Pow(c, n - 1));
    }
  }

  lemma Interleave(b: int, c: int, x: int, y: int)
    ensures (b * c) * (x * y) == (b * x) * (c * y)
  {
    ProductOfThree(b * c, x, y);
    ProductOfThree(b, c, x);
    ProductOfThree(b, x, c);
    ProductOfThree(b * x, c, y);
  }

  lemma {:induction false} PowOfPow2(s: nat, n: nat)
    ensures s * n >= 0 && Pow2(s * n) == Pow(Pow2(s), n)
  {
    if n > 0 {
      PowOfPow2(s, n - 1);
      assert s * n == s + s * (n - 1);
      Pow2Add(s, s * (n - 1));
    }
  }

  lemma {:induction false} PowMonotone(b: nat, c: nat, n: nat)
    requires 1 <= b <= c
    ensures 1 <= Pow(b, n) <= Pow(c, n)
    ensures b < c && n > 0 ==> Pow(b, n) < Pow(c, n)
  {
    if n > 0 {
      PowMonotone(b, c, n - 1);
      var x, y := Pow(b, n - 1), Pow(c, n - 1);
      MulMonotone(x, y, b);
      MulMonotone(b, c, y);
      MulMonotone(1, x, b);
      if b < c { MulMonotone(b + 1, c, y); }
    }
  }

  lemma {:induction false} Pow2Monotone(m: nat, n: nat)
    requires m <= n
    ensures Pow2(m) <= Pow2(n)
    ensures m < n ==> Pow2(m) < Pow2(n)
    decreases n
  {
    if m < n { Pow2Monotone(m, n - 1); }
  }

  /** A number below 2^k has a power below 2^(kn). */
  lemma PowBits(b: nat, k: nat, n: nat)
    requires 1 <= b < Pow2(k) && 1 <= n
    ensures 0 <= k * n && 1 <= Pow(b, n) < Pow2(k * n)
  {
    PowMonotone(b, Pow2(k), n);
    PowOfPow2(k, n);
  }

  lemma {:induction false} ScalePow2(n: nat)
    ensures Scale(1, n) == Pow2(28 * n)
  {
    Pow2Scale(1, n, 0);
  }

  /** The bits of power above the lowest t. */
  ghost function Prefix(power: nat, t: nat): nat {
    AtMost(power, Pow2(t));
    power / Pow2(t)
  }

  lemma PrefixAll(power: nat)
    ensures Prefix(power, 0) == power
  {
  }

  /** The next bit of the power, from the top. */
  lemma NextBit(power: nat, t: nat)
    requires t >= 1 && Prefix(power, t) >= 1
    ensures power / Pow2(t - 1) == Prefix(power, t - 1)
    ensures Prefix(power, t - 1) == 2 * Prefix(power, t) + Prefix(power, t - 1) % 2
    ensures 1 <= Prefix(power, t) && Prefix(power, t - 1) <= power
    ensures Pow2(t - 1) / 2 == if t == 1 then 0 else Pow2(t - 2)
  {
    HalveQuotient(power, Pow2(t - 1));
    AtMost(power, Pow2(t - 1));
  }

  lemma HalveQuotient(x: nat, m: nat)
    requires m > 0
    ensures x / (2 * m) == (x / m) / 2
  {
    var q, r := x / m, x % m;
    assert x == q * m + r;
    var h, b := q / 2, q % 2;
    assert x == h * (2 * m) + (b * m + r);
    assert 0 <= b * m + r < 2 * m by { MulMonotone(b, 1, m); }
    QuotientIs(x, 2 * m, h, b * m + r);
  }

  /** A power that is still to be squared has at most half the digits there is room for. */
  lemma RoomForSquare(base: nat, bitSize: nat, power: nat, n: nat, s: seq<int>)
    requires 1 <= base < Pow2(bitSize) && bitSize * power / 28 + 2 <= 128
    requires 1 <= n && 2 * n <= power && Trimmed(s) && |s| > 0 && V(s) == Pow(base, n)
    ensures 2 * |s| <= 128
  {
    hide V, Scale, Pow, Pow2;
    PowBits(base, bitSize, n);
    VTop(s);
    ScaleMonotone(1, s[|s| - 1], |s| - 1);
    DigitsOfPower(|s|, bitSize * n, V(s));
    HalfOfBits(bitSize, n, power, |s|);
  }

  lemma HalfOfBits(bitSize: nat, n: nat, power: nat, digits: nat)
    requires 28 * (digits - 1) < bitSize * n && 2 * n <= power && bitSize * power / 28 + 2 <= 128
    ensures 2 * digits <= 128
  {
    MulMonotone(2 * n, power, bitSize);
    assert (2 * n) * bitSize == 2 * (bitSize * n);
  }

  lemma PowerFits(base: nat, bitSize: nat, power: nat, m: nat)
    requires 1 <= base < Pow2(bitSize) && bitSize * power / 28 + 2 <= 128 && 1 <= m <= power
    ensures 1 <= Pow(base, m) < Scale(1, 127)
  {
    hide Pow, Pow2, Scale;
    PowBits(base, bitSize, m);
    MulMonotone(m, power, bitSize);
    assert bitSize * m <= bitSize * power < 28 * 127;
    Pow2Monotone(bitSize * m, 28 * 127);
    ScalePow2(127);
  }

  /** A number of |s| digits below 2^bits. */
  lemma DigitsOfPower(n: nat, bits: nat, v: int)
    requires 0 < n && Scale(1, n - 1) <= v < Pow2(bits)
    ensures 28 * (n - 1) < bits
  {
    ScalePow2(n - 1);
    if bits <= 28 * (n - 1) {
      Pow2Monotone(bits, 28 * (n - 1));
      assert false;
    }
  }

  // ---------- The 64-bit part of exponentiation ----------

  /** The number of times 2 divides b. */
  ghost function Twos(b: nat): nat
    requires b > 0
  {
    if b % 2 == 0 then 1 + Twos(b / 2) else 0
  }

  ghost function OddPart(b: nat): (o: nat)
    requires b > 0
    ensures o % 2 == 1
  {
    if b % 2 == 0 then OddPart(b / 2) else b
  }

  /** The number of bits of b. */
  ghost function BitLength(b: nat): nat {
    if b == 0 then 0 else 1 + BitLength(b / 2)
  }

  lemma {:induction false} OddTimesTwos(b: nat)
    requires b > 0
    ensures 1 <= OddPart(b) <= b && OddPart(b) * Pow2(Twos(b)) == b
  {
    if b % 2 == 0 {
      OddTimesTwos(b / 2);
      var x, y := OddPart(b / 2), Pow2(Twos(b / 2));
      assert x * (2 * y) == 2 * (x * y);
    }
  }

  lemma {:induction false} BitLengthBound(b: nat, n: nat)
    requires b < Pow2(n)
    ensures b < Pow2(BitLength(b)) && BitLength(b) <= n
  {
    if b > 0 { BitLengthBound(b / 2, n - 1); }
  }

  method StripTwos(base0: nat) returns (base: nat, shifts: nat)
    requires base0 > 0
    ensures base == OddPart(base0) && shifts == Twos(base0)
  {
    base, shifts := base0, 0;
    while base % 2 == 0
      invariant base > 0 && OddPart(base) == OddPart(base0) && shifts + Twos(base) == Twos(base0)
      decreases base
    {
      base, shifts := base / 2, shifts + 1;
    }
  }

  method CountBits(base: nat) returns (bitSize: nat)
    ensures bitSize == BitLength(base)
  {
    bitSize := 0;
    var tmp := base;
    while tmp != 0
      invariant bitSize + BitLength(tmp) == BitLength(base)
    {
      tmp, bitSize := tmp / 2, bitSize + 1;
    }
  }

  /** Finds the bit below the top bit of power; there is none when power is 1. */
  method SecondBit(power: nat) returns (mask: nat, ghost t: nat)
    requires power >= 1
    ensures mask == if t == 0 then 0 else Pow2(t - 1)
    ensures Prefix(power, t) == 1
  {
    mask := 1;
    ghost var m := 0;
    while power >= mask
      invariant mask == Pow2(m) && (m == 0 || Pow2(m - 1) <= power)
      decreases power + 1 - mask
    {
      mask := mask * 2;
      m := m + 1;
    }
    t := m - 1;
    QuotientIs(power, Pow2(t), 1, power - Pow2(t));
    mask := mask / 4;
  }

  /**
    Left-to-right exponentiation while the value fits in 32 bits. When the
    product with the base might not fit in 64 bits it is left for later.
   */
  method PowerIn64Bits(base: nat, bitSize: nat, power: nat, mask0: nat, ghost t0: nat)
      returns (value: nat, delayed: bool, mask: nat, ghost t: nat)
    requires 1 <= base < Pow2(bitSize) && bitSize <= 16 && base < 0x10000
    requires mask0 == (if t0 == 0 then 0 else Pow2(t0 - 1)) && Prefix(power, t0) == 1
    ensures 1 <= value < 0x1_0000_0000_0000_0000
    ensures mask == (if t == 0 then 0 else Pow2(t - 1)) && 1 <= Prefix(power, t) <= power
    ensures (if delayed then base * value else value) == Pow(base, Prefix(power, t))
  {
    value, delayed, mask, t := base, false, mask0, t0;
    assert Pow(base, 1) == base * Pow(base, 0);
    AtMost(power, Pow2(t0));
    hide Pow, Prefix;
    while mask != 0 && value <= 0xFFFF_FFFF
      invariant mask == if t == 0 then 0 else Pow2(t - 1)
      invariant 1 <= Prefix(power, t) <= power
      invariant 1 <= value < 0x1_0000_0000_0000_0000
      invariant delayed ==> value > 0xFFFF_FFFF
      invariant (if delayed then base * value else value) == Pow(base, Prefix(power, t))
      decreases t
    {
      NextBit(power, t);
      var bit := (power / mask) % 2 != 0;
      value, delayed := PowerStep64(base, bitSize, value, bit, Prefix(power, t));
      mask := mask / 2;
      t := t - 1;
    }
  }

  method PowerStep64(base: nat, bitSize: nat, value: nat, bit: bool, ghost n: nat) returns (r: nat, delayed: bool)
    requires 1 <= base < Pow2(bitSize) && bitSize <= 16
    requires 1 <= value <= 0xFFFF_FFFF && value == Pow(base, n)
    ensures 1 <= r < 0x1_0000_0000_0000_0000
    ensures delayed ==> r > 0xFFFF_FFFF
    ensures (if delayed then base * r else r) == Pow(base, 2 * n + if bit then 1 else 0)
  {
    PowAdd(base, n, n);
    assert Pow(base, 2 * n + 1) == base * Pow(base, 2 * n);
    BitsLimit(bitSize);
    SquareOfWord(value);
    hide Pow, Pow2;
    r, delayed := value * value, false;
    if bit {
      if r < Pow2(64 - bitSize) {
        SmallProduct(r, base, Pow2(64 - bitSize), Pow2(bitSize));
        Commute(r, base);
        r := r * base;
      } else {
        delayed := true;
      }
    }
  }

  lemma SquareOfWord(v: nat)
    requires 1 <= v <= 0xFFFF_FFFF
    ensures 1 <= v * v < 0x1_0000_0000_0000_0000
  {
    MulMonotone(1, v, v);
    MulMonotone(v, 0xFFFF_FFFF, v);
  }

  lemma BitsLimit(bitSize: nat)
    requires bitSize <= 16
    ensures Pow2(64 - bitSize) * Pow2(bitSize) == 0x1_0000_0000_0000_0000
    ensures Pow2(64 - bitSize) > 0xFFFF_FFFF
  {
    Pow2Small();
    hide Pow2;
    Pow2Add(64 - bitSize, bitSize);
    Pow2Add(32, 32);
    Pow2Monotone(32, 64 - bitSize);
  }

  lemma SmallProduct(x: nat, y: nat, a: nat, b: nat)
    requires 1 <= x < a && 1 <= y < b
    ensures 1 <= x * y < a * b
  {
    MulMonotone(1, x, y);
    MulMonotone(x + 1, a, y);
    MulMonotone(y, b, a);
  }

  lemma Pow2Sixteen()
    ensures Pow2(16) == 0x10000
  {
    assert Pow2(8) == 256;
    Pow2Add(8, 8);
  }

  lemma AtMost(x: nat, m: nat)
    requires m > 0
    ensures 0 <= x / m <= x
  {
    var q := x / m;
    assert x == q * m + x % m;
    if q < 0 { MulMonotone(q, -1, m); } else { MulMonotone(1, m, q); }
  }

  lemma RoomToShift(base: nat, bitSize: nat, power: nat, s: seq<int>)
    requires 1 <= base < Pow2(bitSize) && bitSize * power / 28 + 2 <= 128 && 1 <= power
    requires Trimmed(s) && V(s) == Pow(base, power)
    ensures |s| < 128
  {
    hide V, Scale, Pow, Pow2;
    PowerFits(base, bitSize, power, power);
    if |s| > 0 {
      VTop(s);
      ScaleMonotone(1, s[|s| - 1], |s| - 1);
      if |s| >= 128 {
        ScaleGrows(127, |s| - 1);
        assert false;
      }
    }
  }

  lemma PowerOfBase(base0: nat, power: nat)
    requires base0 > 0
    ensures 0 <= Twos(base0) * power
    ensures Pow2(Twos(base0) * power) * Pow(OddPart(base0), power) == Pow(base0, power)
  {
    OddTimesTwos(base0);
    hide Pow, Pow2;
    var k, odd := Twos(base0), OddPart(base0);
    PowOfPow2(k, power);
    PowProduct(odd, Pow2(k), power);
    Commute(Pow2(k * power), Pow(odd, power));
  }

  lemma Commute(x: int, y: int)
    ensures x * y == y * x
  {
  }
}
