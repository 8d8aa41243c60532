/**
  Reading a hexadecimal significand of any length through a 128-bit window
  whose last bits only remember whether anything followed, and rounding it to a
  floating-point format.
 */
module Float16 {
  import opened Positional
  import opened DigitLoops
  import opened MachineWords

  // ---------- Bitwise or ----------

  function BitOr(a: nat, b: nat, width: nat): (r: nat) {
    if width == 0 then 0
    else 2 * BitOr(a / 2, b / 2, width - 1) + (if a % 2 == 1 || b % 2 == 1 then 1 else 0)
  }

  lemma {:induction false} OrBound(a: nat, b: nat, width: nat)
    ensures BitOr(a, b, width) < Pow2(width)
  {
    if width > 0 { OrBound(a / 2, b / 2, width - 1); }
  }

  /** Something is set exactly when something was set in either. */
  lemma {:induction false} OrZero(a: nat, b: nat, width: nat)
    requires a < Pow2(width) && b < Pow2(width)
    ensures BitOr(a, b, width) == 0 <==> a == 0 && b == 0
  {
    if width > 0 { OrZero(a / 2, b / 2, width - 1); }
  }

  /** Bits that do not overlap are added. */
  lemma {:induction false} OrDisjoint(a: nat, b: nat, k: nat, width: nat)
    requires k <= width && a < Pow2(width) && a % Pow2(k) == 0 && b < Pow2(k)
    ensures BitOr(a, b, width) == a + b
  {
    if width == 0 {
    } else if k == 0 {
      OrDisjoint(a / 2, 0, 0, width - 1);
    } else {
      HalfMultiple(a, Pow2(k - 1));
      OrDisjoint(a / 2, b / 2, k - 1, width - 1);
    }
  }

  lemma HalfMultiple(a: nat, p: nat)
    requires p > 0 && a % (2 * p) == 0
    ensures a % 2 == 0 && (a / 2) % p == 0
  {
    var q := a / (2 * p);
    assert a == (2 * p) * q;
    assert a == 2 * (p * q);
    QuotientIs(a / 2, p, q, 0);
  }

  // ---------- The window ----------

  /** The first 124 bits of N, or all of them: a numerator and a denominator, one of which is a power of two. */
  ghost function Num(N: nat, bits: int): nat {
    if bits <= 124 then N * Pow2(124 - bits) else N
  }

  ghost function Den(bits: int): (r: nat)
    ensures r > 0
  {
    if bits <= 124 then 1 else Pow2(bits - 124)
  }

  /**
    The window holds the first 124 bits of N; its last four bits are zero exactly
    when nothing follows those.
   */
  ghost predicate Window(N: nat, bits: int, w: int) {
    && 1 <= bits && Pow2(bits - 1) <= N < Pow2(bits) && 0 <= w < TWO128
    && w / 16 == Num(N, bits) / Den(bits)
    && (w % 16 == 0 <==> Num(N, bits) % Den(bits) == 0)
  }

  /** Up to 124 bits nothing is lost. */
  ghost predicate Exact(N: nat, bits: int, w: int) {
    1 <= bits <= 127 && Pow2(bits - 1) <= N < Pow2(bits) && w == N * Pow2(128 - bits)
  }

  lemma ExactFits(N: nat, bits: int, w: int)
    requires Exact(N, bits, w)
    ensures TWO63 * TWO64 <= w < TWO128
  {
    hide Pow2;
    Pow2Words();
    Pow2Add(bits - 1, 128 - bits);
    Pow2Add(bits, 128 - bits);
    MulMonotone(Pow2(bits - 1), N, Pow2(128 - bits));
    MulBelow(N, Pow2(bits), Pow2(128 - bits));
    Pow2Add(127, 1);
    PowOne();
  }

  lemma ExactIsWindow(N: nat, bits: int, w: int)
    requires Exact(N, bits, w)
    ensures Window(N, bits, w)
  {
    hide Pow2;
    ExactFits(N, bits, w);
    assert Pow2(4) == 16 by { Pow2Small(); }
    if bits <= 124 {
      Pow2Add(124 - bits, 4);
      ProductOfThree(N, Pow2(124 - bits), 16);
      QuotientIs(w, 16, N * Pow2(124 - bits), 0);
    } else {
      Pow2Add(bits - 124, 128 - bits);
      var d, p := Pow2(bits - 124), Pow2(128 - bits);
      var q, r := N / d, N % d;
      assert N == d * q + r;
      SplitTimes(d, p, q, r);
      MulBelow(r, d, p);
      ProductNat(r, p);
      QuotientIs(w, 16, q, r * p);
      if r > 0 { MulMonotone(1, r, p); }
    }
  }

  /** A digit stored behind the bits already there. */
  lemma ExactPush(N: nat, bits: int, w: int, x: nat)
    requires Exact(N, bits, w) && bits < 124 && x < 16
    ensures Exact(16 * N + x, bits + 4, w + x * Pow2(124 - bits))
  {
    hide Pow2;
    assert Pow2(4) == 16 by { Pow2Small(); }
    Pow2Add(bits - 1, 4);
    Pow2Add(bits, 4);
    Pow2Add(124 - bits, 4);
    ProductOfThree(N, Pow2(124 - bits), 16);
    var p := Pow2(124 - bits);
    assert (16 * N + x) * p == (N * p) * 16 + x * p;
  }

  /** A digit that only leaves a mark. */
  lemma StickyPush(N: nat, bits: int, w: int, x: nat, w': int)
    requires Window(N, bits, w) && bits >= 124 && x < 16 && w' / 16 == w / 16 && 0 <= w' < TWO128
    requires w' % 16 == 0 <==> w % 16 == 0 && x == 0
    ensures Window(16 * N + x, bits + 4, w')
  {
    hide Pow2;
    assert Pow2(4) == 16 && Pow2(0) == 1 by { Pow2Small(); PowZeroIsOne(); }
    Pow2Add(bits - 1, 4);
    Pow2Add(bits, 4);
    Pow2Add(bits - 124, 4);
    var d := Pow2(bits - 124);
    assert bits == 124 ==> Num(N, bits) == N;
    var q, r := N / d, N % d;
    assert N == d * q + r;
    assert 16 * N + x == (d * 16) * q + (16 * r + x);
    QuotientIs(16 * N + x, d * 16, q, 16 * r + x);
  }

  // ---------- Pushing digits ----------

  lemma OrNothing(a: nat, width: nat)
    requires a < Pow2(width)
    ensures BitOr(a, 0, width) == a
  {
    OrDisjoint(a, 0, 0, width);
  }

  lemma OrHalves(a: nat, b: nat, width: nat)
    requires width > 0
    ensures BitOr(a, b, width) / 2 == BitOr(a / 2, b / 2, width - 1)
    ensures BitOr(a, b, width) % 2 == 0 <==> a % 2 == 0 && b % 2 == 0
  {
  }

  /** Or-ing a digit into the last four bits leaves the others alone. */
  lemma OrNibble(a: nat, x: nat, width: nat)
    requires width >= 4 && a < Pow2(width) && x < 16
    ensures BitOr(a, x, width) / 16 == a / 16
    ensures BitOr(a, x, width) % 16 == 0 <==> a % 16 == 0 && x == 0
  {
    hide Pow2, BitOr;
    OrHalves(a, x, width);
    OrHalves(a / 2, x / 2, width - 1);
    OrHalves(a / 4, x / 4, width - 2);
    OrHalves(a / 8, x / 8, width - 3);
    Sixteenths(a);
    Sixteenths(x);
    Sixteenths(BitOr(a, x, width));
    Pow2Add(width - 4, 4);
    assert Pow2(4) == 16 by { Pow2Small(); }
    assert x / 16 == 0;
    OrNothing(a / 16, width - 4);
  }

  lemma Sixteenths(a: nat)
    ensures a / 2 / 2 == a / 4 && a / 4 / 2 == a / 8 && a / 8 / 2 == a / 16
    ensures a % 16 == 0 <==> a % 2 == 0 && (a / 2) % 2 == 0 && (a / 4) % 2 == 0 && (a / 8) % 2 == 0
  {
  }

  class Encoder {
    var high: int
    var low: int
    var bits: int
    ghost var value: nat

    ghost predicate Valid()
      reads this
    {
      && 0 <= high < TWO64 && 0 <= low < TWO64
      && (value == 0 ==> high == 0 && low == 0 && bits == 0)
      && (value > 0 ==> && Window(value, bits, high * TWO64 + low) && TWO63 <= high
                        && (bits <= 127 ==> Exact(value, bits, high * TWO64 + low)))
    }

    constructor ()
      ensures Valid() && value == 0
    {
      high, low, bits, value := 0, 0, 0, 0;
    }

    /** Appends a hexadecimal digit to the significand. */
    method PushXdigit(x: nat)
      requires Valid() && x < 16
      modifies this
      ensures Valid() && value == 16 * old(value) + x
    {
      hide Pow2, Window, Exact, BitOr;
      if bits == 0 {
        BitsPositive(this);
        if x == 0 {
          return;
        }
        PushFirst(x);
      } else if bits >= 124 {
        StickyFits(high, low, x);
        StickyPush(value, bits, high * TWO64 + low, x, high * TWO64 + BitOr(low, x, 64));
        low := BitOr(low, x, 64);
        bits := bits + 4;
        value := 16 * value + x;
      } else {
        BitsPositive(this);
        PushMiddle(x);
      }
    }

    /** The first digit that counts is shifted until its top bit is at the top. */
    method PushFirst(x: nat)
      requires Valid() && value == 0 && 0 < x < 16
      modifies this
      ensures Valid() && value == x
    {
      hide Pow2, Window, Exact, BitOr;
      assert x * Pow2(60) < Pow2(64) && Pow2(60) * 16 == Pow2(64) && Pow2(64) == TWO64 by { TopNibble(x); }
      OrNothing(x * Pow2(60), 64);
      OrSymmetric(x * Pow2(60), 64);
      high := BitOr(high, x * Pow2(60), 64);
      ghost var s := 0;
      while high < TWO63
        invariant 0 <= s <= 3 && bits == -s && low == 0 && value == 0 && high == x * Pow2(60 + s) < TWO64
        decreases 3 - s
      {
        Doubling(x, s);
        high := high * 2;
        bits := bits - 1;
        s := s + 1;
      }
      bits := bits + 4;
      value := x;
      FirstIsExact(x, s, high);
      ExactIsWindow(x, bits, high * TWO64);
    }

    /** A digit in the middle, possibly across the two words. */
    method PushMiddle(x: nat)
      requires Valid() && 0 < value && 0 < bits < 124 && x < 16
      modifies this
      ensures Valid() && value == 16 * old(value) + x
    {
      hide Pow2, Window, Exact, BitOr;
      ghost var w := high * TWO64 + low;
      ghost var y := x * Pow2(124 - bits);
      ExactPush(value, bits, w, x);
      ExactFits(16 * value + x, bits + 4, w + y);
      ExactIsWindow(16 * value + x, bits + 4, w + y);
      if bits < 64 {
        UpperWord(value, bits, high, low, x);
        high := BitOr(high, (x * Pow2(60)) / Pow2(bits), 64);
        if bits > 60 {
          low := (x * Pow2(124 - bits)) % TWO64;
        }
      } else {
        LowerWord(value, bits, high, low, x);
        low := BitOr(low, (x * Pow2(60)) / Pow2(bits - 64), 64);
      }
      bits := bits + 4;
      value := 16 * value + x;
      assert high * TWO64 + low == w + y;
    }
  }

  lemma BitsPositive(encoder: Encoder)
    requires encoder.Valid()
    ensures encoder.value > 0 <==> encoder.bits != 0
    ensures encoder.value > 0 ==> encoder.bits >= 1
  {
  }

  lemma OrSymmetric(b: nat, width: nat)
    requires b < Pow2(width)
    ensures BitOr(0, b, width) == b
  {
    assert 0 % Pow2(width) == 0;
    OrDisjoint(0, b, width, width);
  }

  lemma TopNibble(x: nat)
    requires 0 < x < 16
    ensures x * Pow2(60) < Pow2(64) && Pow2(60) * 16 == Pow2(64) && Pow2(64) == TWO64
  {
    hide Pow2;
    Pow2Words();
    Pow2Add(60, 4);
    Pow2Small();
    MulBelow(x, 16, Pow2(60));
    assert 16 * Pow2(60) == Pow2(60) * 16;
  }

  lemma Doubling(x: nat, s: nat)
    requires 0 < x < 16 && s <= 3 && x * Pow2(60 + s) < TWO63
    ensures s < 3 && x * Pow2(60 + s + 1) == 2 * (x * Pow2(60 + s))
  {
    hide Pow2;
    Pow2Add(60 + s, 1);
    PowOne();
    ProductOfThree(x, Pow2(60 + s), 2);
    if s == 3 {
      Pow2Words();
      Pow2Add(63, 1);
      MulMonotone(1, x, Pow2(63));
    }
  }

  lemma FirstIsExact(x: nat, s: nat, high: int)
    requires 0 < x < 16 && s <= 3 && high == x * Pow2(60 + s) && TWO63 <= high < TWO64
    ensures Exact(x, 4 - s, high * TWO64)
  {
    hide Pow2;
    Pow2Words();
    Pow2Add(3 - s, 60 + s);
    Pow2Add(4 - s, 60 + s);
    Pow2Add(63, 1);
    PowOne();
    Pow2Add(60 + s, 64);
    ProductOfThree(x, Pow2(60 + s), TWO64);
    if x < Pow2(3 - s) { MulBelow(x, Pow2(3 - s), Pow2(60 + s)); }
    if x >= Pow2(4 - s) { MulMonotone(Pow2(4 - s), x, Pow2(60 + s)); }
  }

  /** The mark goes into the last four bits of the lower word. */
  lemma StickyFits(high: int, low: int, x: nat)
    requires 0 <= high < TWO64 && 0 <= low < TWO64 && x < 16
    ensures var low' := BitOr(low, x, 64); var w, w' := high * TWO64 + low, high * TWO64 + low';
      && 0 <= low' < TWO64 && w' / 16 == w / 16 && (w' % 16 == 0 <==> w % 16 == 0 && x == 0)
  {
    hide Pow2, BitOr;
    Pow2Words();
    OrBound(low, x, 64);
    OrNibble(low, x, 64);
    NibbleOfWhole(high, low);
    NibbleOfWhole(high, BitOr(low, x, 64));
  }

  lemma NibbleOfWhole(high: int, low: int)
    ensures (high * TWO64 + low) / 16 == high * 0x1000_0000_0000_0000 + low / 16
    ensures (high * TWO64 + low) % 16 == low % 16
  {
    QuotientIs(high * TWO64 + low, 16, high * 0x1000_0000_0000_0000 + low / 16, low % 16);
  }

  /** In the upper word the digit goes behind the bits there; what does not fit starts the lower word. */
  lemma UpperWord(N: nat, bits: int, high: int, low: int, x: nat)
    requires Exact(N, bits, high * TWO64 + low) && 0 <= high < TWO64 && 0 <= low < TWO64 && 0 < bits < 64 && x < 16
    ensures var y, add := x * Pow2(124 - bits), (x * Pow2(60)) / Pow2(bits);
      && low == 0 && add >= 0 && BitOr(high, add, 64) == high + add && add == y / TWO64 && 0 <= y
      && (bits <= 60 ==> y % TWO64 == 0)
  {
    hide Pow2, BitOr;
    Pow2Words();
    Pow2Add(64 - bits, 64);
    ProductOfThree(N, Pow2(64 - bits), TWO64);
    QuotientIs(high * TWO64 + low, TWO64, high, low);
    QuotientIs(high * TWO64 + low, TWO64, N * Pow2(64 - bits), 0);
    QuotientIs(high, Pow2(64 - bits), N, 0);
    Spread(x, bits);
    OrDisjoint(high, (x * Pow2(60)) / Pow2(bits), 64 - bits, 64);
  }

  lemma Spread(x: nat, bits: int)
    requires 0 < bits < 64 && x < 16
    ensures var y, add := x * Pow2(124 - bits), (x * Pow2(60)) / Pow2(bits);
      add == y / TWO64 && 0 <= add < Pow2(64 - bits) && 0 <= y && (bits <= 60 ==> y % TWO64 == 0)
  {
    hide Pow2;
    Pow2Words();
    Pow2Add(124 - bits, bits);
    Pow2Add(60, 64);
    Pow2Add(64 - bits, bits);
    Pow2Add(60, 4);
    assert Pow2(4) == 16 by { Pow2Small(); }
    var z, y := x * Pow2(60), x * Pow2(124 - bits);
    ProductNat(x, Pow2(124 - bits));
    ProductNat(x, Pow2(60));
    ProductOfThree(x, Pow2(124 - bits), Pow2(bits));
    ProductOfThree(x, Pow2(60), TWO64);
    assert y * Pow2(bits) == z * TWO64;
    SameQuotient(y, TWO64, z, Pow2(bits));
    MulBelow(x, 16, Pow2(60));
    BelowProduct(z, Pow2(64 - bits), Pow2(bits));
    if bits <= 60 {
      Pow2Add(60 - bits, 64);
      ProductOfThree(x, Pow2(60 - bits), TWO64);
      QuotientIs(y, TWO64, x * Pow2(60 - bits), 0);
    }
  }

  /** Equal ratios have equal quotients. */
  lemma SameQuotient(y: nat, a: nat, z: nat, b: nat)
    requires a > 0 && b > 0 && y * b == z * a
    ensures y / a == z / b
  {
    var q, r := y / a, y % a;
    assert y == a * q + r;
    SplitTimes(a, b, q, r);
    assert z * a == (b * q) * a + r * b by { assert (a * b) * q == (b * q) * a; }
    var s := z - b * q;
    assert s * a == r * b by { assert (z - b * q) * a == z * a - (b * q) * a; }
    MulBelow(r, a, b);
    if s >= b { MulMonotone(b, s, a); }
    if s < 0 { MulBelow(s, 0, a); ProductNat(r, b); }
    QuotientIs(z, b, q, s);
  }

  lemma LowerWord(N: nat, bits: int, high: int, low: int, x: nat)
    requires Exact(N, bits, high * TWO64 + low) && 0 <= high < TWO64 && 0 <= low < TWO64 && 64 <= bits < 124 && x < 16
    ensures var add := (x * Pow2(60)) / Pow2(bits - 64);
      add == x * Pow2(124 - bits) && add >= 0 && BitOr(low, add, 64) == low + add < TWO64
  {
    hide Pow2, BitOr;
    Pow2Words();
    var p := Pow2(128 - bits);
    Pow2Add(128 - bits, bits - 64);
    ProductOfThree(high, p, Pow2(bits - 64));
    LowMultiple(high * TWO64 + low, low, N, high * Pow2(bits - 64), p);
    Pow2Add(124 - bits, bits - 64);
    ProductOfThree(x, Pow2(124 - bits), Pow2(bits - 64));
    ProductNat(x, Pow2(124 - bits));
    QuotientIs(x * Pow2(60), Pow2(bits - 64), x * Pow2(124 - bits), 0);
    Pow2Add(124 - bits, 4);
    assert Pow2(4) == 16 by { Pow2Small(); }
    MulBelow(x, 16, Pow2(124 - bits));
    OrDisjoint(low, x * Pow2(124 - bits), 128 - bits, 64);
    OrBound(low, x * Pow2(124 - bits), 64);
  }

  lemma LowMultiple(w: int, low: int, n: int, h: int, p: int)
    requires p > 0 && w == n * p && w - low == h * p
    ensures low % p == 0
  {
    assert low == p * (n - h);
    QuotientIs(low, p, n - h, 0);
  }
}
