/**
  The estimate of the decimal exponent of a number from its binary exponent:
  never too high, and at most one too low.
 */
module PowerEstimate {
  import opened Positional
  import opened Decimal
  import opened RealPowers
  import opened MachineWords
  import opened CachedPowers

  // ---------- Powers of two and ten compared ----------

  ghost function Power(x: real, n: nat): real {
    if n == 0 then 1.0 else x * Power(x, n - 1)
  }

  lemma {:induction false} PowerMonotone(x: real, y: real, n: nat)
    requires 0.0 < x <= y
    ensures 0.0 < Power(x, n) <= Power(y, n)
  {
    if n > 0 {
      PowerMonotone(x, y, n - 1);
      ProductMonotone(x, y, Power(x, n - 1), Power(y, n - 1));
    }
  }

  lemma ProductMonotone(x: real, y: real, a: real, b: real)
    requires 0.0 < x <= y && 0.0 < a <= b
    ensures 0.0 < x * a <= y * b
    ensures x < y ==> x * a < y * b
  {
    RMonotone(x, y, a);
    RMonotone(a, b, y);
    RCommute(a, y);
    RCommute(b, y);
    RSign(x, a);
  }

  lemma {:induction false} PowerStrict(x: real, y: real, n: nat)
    requires 0.0 < x < y && n >= 1
    ensures Power(x, n) < Power(y, n)
  {
    PowerMonotone(x, y, n - 1);
    ProductMonotone(x, y, Power(x, n - 1), Power(y, n - 1));
  }

  lemma {:induction false} PowerOfTen(a: int, n: nat)
    ensures Power(Ten(a), n) == Ten(a * n)
  {
    hide Ten;
    if n == 0 {
      TenIsTen();
    } else {
      PowerOfTen(a, n - 1);
      assert a * n == a + a * (n - 1);
      TenSum(a, a * (n - 1));
    }
  }

  lemma {:induction false} PowerOfTwo(a: int, n: nat)
    ensures Power(Two(a), n) == Two(a * n)
  {
    hide Two;
    if n == 0 {
      TwoZero();
    } else {
      PowerOfTwo(a, n - 1);
      assert a * n == a + a * (n - 1);
      TwoSum(a, a * (n - 1));
    }
  }

  /** 10^p <= 2^q bounds the powers of ten whose exponents are in no greater proportion. */
  lemma TenBelowTwo(p: nat, q: nat, a: int, n: nat)
    requires q >= 1 && Ten(p) <= Two(q) && a * q <= p * n
    ensures Ten(a) <= Two(n)
  {
    hide Ten, Two;
    PowerOfTen(a, q);
    PowerOfTwo(n, q);
    TenMonotone(a * q, p * n);
    PowerOfTen(p, n);
    PowerMonotone(Ten(p), Two(q), n);
    PowerOfTwo(q, n);
    assert q * n == n * q;
    if Ten(a) > Two(n) { PowerStrict(Two(n), Ten(a), q); }
  }

  /** And 2^q <= 10^p bounds the powers of two. */
  lemma TwoBelowTen(p: nat, q: nat, n: nat, b: int)
    requires q >= 1 && Two(q) <= Ten(p) && p * n <= b * q
    ensures Two(n) <= Ten(b)
  {
    hide Ten, Two;
    PowerOfTen(b, q);
    PowerOfTwo(n, q);
    TenMonotone(p * n, b * q);
    PowerOfTen(p, n);
    PowerMonotone(Two(q), Ten(p), n);
    PowerOfTwo(q, n);
    assert q * n == n * q;
    if Two(n) > Ten(b) { PowerStrict(Ten(b), Two(n), q); }
  }

  lemma Reciprocals(a: int, n: int)
    ensures Ten(a) <= Two(n) <==> Two(-n) <= Ten(-a)
  {
    hide Ten, Two;
    var x, y, x', y' := Ten(a), Two(n), Ten(-a), Two(-n);
    TenInverse(a);
    TwoSum(n, -n);
    TwoZero();
    // x <= y  <=>  x * x' <= y * x'  <=>  y' <= (y * x') * y' = x'
    RMonotone(x, y, x');
    RMonotone(1.0, y * x', y');
    RAssoc(y', y, x');
    RCommute(y', y);
    RCommute(y', y * x');
  }

  // ---------- Two close proportions ----------

  /** Three factors of 10^643 against 2^2136: 643/2136 is just below the logarithm of two. */
  lemma CloseBelow()
    ensures Ten(643) <= Two(2136)
  {
    hide Two, Ten, Pow2, Pow10;
    EntryIsPower(86);
    EntryIsPower(81);
    EntryValues();
    TenSum(340, 303);
    TenAdd(300, 3);
    TwoSum(1066, 933);
    TwoAdd(1999, 137);
    SmallValues();
    var x, y, u, v := Ten(340), Ten(300), Two(1066), Two(933);
    ProductMonotone(x, 12648080533535911532.0 * u, 1000.0 * y, 1000.0 * (13772540099066387758.0 * v));
    Gather(12648080533535911532.0, u, 1000.0 * 13772540099066387758.0, v);
    RCommute(y, 1000.0);
    RMonotone(12648080533535911532.0 * (1000.0 * 13772540099066387758.0), Pow2(137) as real, u * v);
    RCommute(u * v, Pow2(137) as real);
  }

  /** And 146/485 is just above it. */
  lemma CloseAbove()
    ensures Two(485) <= Ten(146)
  {
    hide Two, Ten, Pow2, Pow10;
    EntryIsPower(61);
    EntryValues();
    TenAdd(140, 6);
    TwoAdd(402, 83);
    SmallValues();
    var x, u := Ten(140), Two(402);
    RMonotone(9681479787123295681.0 * u, x, 1_000_000.0);
    RCommute(9681479787123295681.0 * u, 1_000_000.0);
    RAssoc(1_000_000.0, 9681479787123295681.0, u);
    RMonotone(Pow2(83) as real, 1_000_000.0 * 9681479787123295681.0, u);
    RCommute(u, Pow2(83) as real);
  }

  lemma Gather(a: real, u: real, b: real, v: real)
    ensures (a * u) * (b * v) == (a * b) * (u * v)
  {
    RAssoc(a, u, b * v);
    RSwap(u, b, v);
    RAssoc(a, b, u * v);
  }

  lemma EntryValues()
    ensures Entry(86) == Cached(12648080533535911531, 1066, 340)
    ensures Entry(81) == Cached(13772540099066387757, 933, 300)
    ensures Entry(61) == Cached(9681479787123295682, 402, 140)
  {
  }

  lemma SmallValues()
    ensures Pow10(3) == 1000 && Pow10(6) == 1_000_000
    ensures Pow2(83) == 0x8_0000_0000_0000_0000_0000 && Pow2(137) == 0x200_0000_0000_0000_0000_0000_0000_0000_0000
  {
    Pow2Words();
    Pow2Add(64, 19);
    Pow2Add(64, 64);
    Pow2Add(128, 9);
    SmallTwos();
    Pow10Add(3, 3);
  }

  lemma SmallTwos()
    ensures Pow2(9) == 512 && Pow2(19) == 0x8_0000
  {
    Pow2Add(9, 10);
  }

  // ---------- The estimate ----------

  /** Shifts the significand until it is a normal double's. */
  method NormalizedExponent(significand: nat, exponent: int) returns (normalized: int)
    requires 0 < significand < 0x20_0000_0000_0000
    ensures normalized <= exponent
    ensures 0x10_0000_0000_0000 <= significand * Pow2(exponent - normalized) < 0x20_0000_0000_0000
  {
    var f: nat := significand;
    normalized := exponent;
    while f < 0x10_0000_0000_0000
      invariant normalized <= exponent && f == significand * Pow2(exponent - normalized)
      invariant 0 < f < 0x20_0000_0000_0000
      decreases 0x20_0000_0000_0000 - f
    {
      ProductOfThree(2, significand, Pow2(exponent - normalized));
      f := 2 * f;
      normalized := normalized - 1;
      assert f == significand * Pow2(exponent - normalized);
    }
  }

  /** n times the logarithm of two less 10^-10, as it comes out in floating point. */
  predicate NearEstimate(x: real, n: int) {
    -0.00000000001 <= x - ((n as real) * 0.30102999566398114 - 0.0000000001) <= 0.00000000001
  }

  /**
    The exponent of the power of ten above 2^(exponent + 52), or one less, for
    every rounding of the product.
   */
  method EstimatePower(exponent: int) returns (power: int)
    requires -1126 <= exponent <= 971
    ensures Ten(power - 1) <= Two(exponent + 52) && Two(exponent + 53) <= Ten(power + 1)
    ensures -400 <= power <= 400 && (exponent >= 0 ==> power >= 0)
  {
    hide Ten, Two;
    var n := exponent + 52;
    assert NearEstimate((n as real) * 0.30102999566398114 - 0.0000000001, n);
    var estimate: real :| NearEstimate(estimate, n);
    power := Ceiling(estimate);
    Proportions(n, estimate, power);
    NotTooHigh(power - 1, n);
    NotTooLow(n + 1, power + 1);
  }

  lemma Proportions(n: int, estimate: real, power: int)
    requires -1074 <= n <= 1023 && NearEstimate(estimate, n) && power == Ceiling(estimate)
    ensures if n >= 0 then 2136 * (power - 1) <= 643 * n else 485 * (power - 1) <= 146 * n
    ensures if n + 1 >= 0 then 146 * (n + 1) <= 485 * (power + 1) else 643 * (n + 1) <= 2136 * (power + 1)
    ensures -400 <= power <= 400 && (n >= 52 ==> power >= 0)
  {
  }

  lemma NotTooHigh(a: int, n: int)
    requires if n >= 0 then 2136 * a <= 643 * n else 485 * a <= 146 * n
    ensures Ten(a) <= Two(n)
  {
    hide Ten, Two;
    if n >= 0 {
      CloseBelow();
      TenBelowTwo(643, 2136, a, n);
    } else {
      CloseAbove();
      TwoBelowTen(146, 485, -n, -a);
      Reciprocals(a, n);
    }
  }

  lemma NotTooLow(n: int, b: int)
    requires if n >= 0 then 146 * n <= 485 * b else 643 * n <= 2136 * b
    ensures Two(n) <= Ten(b)
  {
    hide Ten, Two;
    if n >= 0 {
      CloseAbove();
      TwoBelowTen(146, 485, n, b);
    } else {
      CloseBelow();
      TenBelowTwo(643, 2136, -b, -n);
      Reciprocals(-b, -n);
    }
  }
}
