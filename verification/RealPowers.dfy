/**
  Powers of two and ten with any integer exponent, and what it means for a
  decimal to be the shortest and closest one in an interval around a number.
 */
module RealPowers {
  import opened Positional
  import opened Decimal

  ghost function Ten(x: int): (r: real)
    ensures r > 0.0
    decreases if x < 0 then -x else x
  {
    if x == 0 then 1.0 else if x > 0 then 10.0 * Ten(x - 1) else Ten(x + 1) / 10.0
  }

  ghost function Two(x: int): (r: real)
    ensures r > 0.0
    decreases if x < 0 then -x else x
  {
    if x == 0 then 1.0 else if x > 0 then 2.0 * Two(x - 1) else Two(x + 1) / 2.0
  }

  lemma TwoZero()
    ensures Two(0) == 1.0
  {
  }

  lemma TenStep(x: int)
    ensures Ten(x + 1) == 10.0 * Ten(x)
  {
  }

  lemma TwoStep(x: int)
    ensures Two(x + 1) == 2.0 * Two(x)
  {
  }

  lemma {:induction false} TenAdd(x: int, n: nat)
    ensures Ten(x + n) == Ten(x) * (Pow10(n) as real)
  {
    if n > 0 {
      TenAdd(x, n - 1);
      TenStep(x + n - 1);
      var p := Pow10(n - 1) as real;
      assert Pow10(n) as real == 10.0 * p;
      assert 10.0 * (Ten(x) * p) == Ten(x) * (10.0 * p);
    }
  }

  lemma {:induction false} TwoAdd(x: int, n: nat)
    ensures Two(x + n) == Two(x) * (Pow2(n) as real)
  {
    if n > 0 {
      TwoAdd(x, n - 1);
      TwoStep(x + n - 1);
      var p := Pow2(n - 1) as real;
      assert Pow2(n) as real == 2.0 * p;
      assert 2.0 * (Two(x) * p) == Two(x) * (2.0 * p);
    }
  }

  // ---------- Products of reals ----------

  lemma RAssoc(a: real, b: real, c: real)
    ensures a * (b * c) == (a * b) * c
  {
  }

  lemma RCommute(a: real, b: real)
    ensures a * b == b * a
  {
  }

  lemma RDistribute(a: real, b: real, c: real)
    ensures (a + b) * c == a * c + b * c
    ensures (a - b) * c == a * c - b * c
  {
  }

  lemma RMonotone(a: real, b: real, c: real)
    requires c > 0.0
    ensures a <= b <==> a * c <= b * c
    ensures a < b <==> a * c < b * c
  {
    RDistribute(b, a, c);
    RSign(b - a, c);
    RSign(a - b, c);
    RDistribute(a, b, c);
  }

  lemma RSign(a: real, c: real)
    requires c > 0.0
    ensures a > 0.0 ==> a * c > 0.0
    ensures a == 0.0 ==> a * c == 0.0
  {
  }

  lemma RSignNat(a: real, c: real)
    requires a >= 0.0 && c > 0.0
    ensures a * c >= 0.0
  {
  }

  lemma RCancel(a: real, b: real, c: real)
    requires c > 0.0 && a * c == b * c
    ensures a == b
  {
    RMonotone(a, b, c);
    RMonotone(b, a, c);
  }

  lemma IntProduct(a: int, b: int)
    ensures (a * b) as real == (a as real) * (b as real)
  {
  }

  lemma RSwap(a: real, b: real, c: real)
    ensures a * (b * c) == b * (a * c)
  {
    RAssoc(a, b, c);
    RAssoc(b, a, c);
    RCommute(a, b);
  }

  // ---------- Sums of exponents ----------

  lemma TenIsTen()
    ensures Pow10(1) == 10 && Ten(0) == 1.0
  {
  }

  lemma TenInverse(n: int)
    ensures Ten(n) * Ten(-n) == 1.0
  {
    if n >= 0 {
      TenAdd(-n, n);
      TenAdd(0, n);
    } else {
      TenAdd(n, -n);
      TenAdd(0, -n);
    }
  }

  lemma {:induction false} TenSum(m: int, n: int)
    ensures Ten(m + n) == Ten(m) * Ten(n)
    decreases if n < 0 then -n else n
  {
    hide Ten;
    TenIsTen();
    if n > 0 {
      TenSum(m, n - 1);
      TenStep(m + n - 1);
      TenStep(n - 1);
      RSwap(10.0, Ten(m), Ten(n - 1));
    } else if n < 0 {
      TenSum(m, n + 1);
      TenStep(m + n);
      TenStep(n);
      RSwap(10.0, Ten(m), Ten(n));
      RCommute(Ten(m + n), 10.0);
      RCommute(Ten(m) * Ten(n), 10.0);
      RCancel(Ten(m + n), Ten(m) * Ten(n), 10.0);
    }
  }

  lemma {:induction false} TwoSum(m: int, n: int)
    ensures Two(m + n) == Two(m) * Two(n)
    decreases if n < 0 then -n else n
  {
    hide Two;
    TwoZero();
    if n > 0 {
      TwoSum(m, n - 1);
      TwoStep(m + n - 1);
      TwoStep(n - 1);
      RSwap(2.0, Two(m), Two(n - 1));
    } else if n < 0 {
      TwoSum(m, n + 1);
      TwoStep(m + n);
      TwoStep(n);
      RSwap(2.0, Two(m), Two(n));
      RCommute(Two(m + n), 2.0);
      RCommute(Two(m) * Two(n), 2.0);
      RCancel(Two(m + n), Two(m) * Two(n), 2.0);
    }
  }

  lemma {:induction false} TenMonotone(m: int, n: int)
    requires m <= n
    ensures Ten(m) <= Ten(n)
    decreases n - m
  {
    if m < n { TenMonotone(m, n - 1); TenStep(n - 1); }
  }

  // ---------- Intervals and decimals ----------

  ghost predicate Between(lo: real, hi: real, closed: bool, y: real) {
    if closed then lo <= y <= hi else lo < y < hi
  }

  ghost function Abs(x: real): real {
    if x < 0.0 then -x else x
  }

  /** The decimal with digits w and exponent x. */
  ghost function Decimal10(w: int, x: int): real {
    (w as real) * Ten(x)
  }

  /** No multiple of a larger power of ten lies in the interval. */
  ghost predicate NothingCoarser(lo: real, hi: real, closed: bool, x: int) {
    forall u: int, y: int :: u >= 1 && y > x ==> !Between(lo, hi, closed, Decimal10(u, y))
  }

  /** Among the decimals with exponent x in the interval none is closer to v. */
  ghost predicate NoneCloser(v: real, lo: real, hi: real, closed: bool, w: int, x: int) {
    forall u: int :: Between(lo, hi, closed, Decimal10(u, x)) ==> Abs(Decimal10(w, x) - v) <= Abs(Decimal10(u, x) - v)
  }

  /** If another decimal with exponent x in the interval is as close to v, this one is even. */
  ghost predicate EvenIfTied(v: real, lo: real, hi: real, closed: bool, w: int, x: int) {
    forall u: int | u != w && Between(lo, hi, closed, Decimal10(u, x)) ::
      Abs(Decimal10(u, x) - v) == Abs(Decimal10(w, x) - v) ==> w % 2 == 0
  }

  /** The shortest decimal in the interval around v, of those the closest, and of two closest the even one. */
  ghost predicate IsShortest(v: real, lo: real, hi: real, closed: bool, w: int, x: int) {
    && Between(lo, hi, closed, Decimal10(w, x))
    && NothingCoarser(lo, hi, closed, x)
    && NoneCloser(v, lo, hi, closed, w, x)
    && EvenIfTied(v, lo, hi, closed, w, x)
  }

  /** Scaling by c turns the integers of a digit generator into numbers. */
  lemma InsideIsBetween(n: int, d: int, below: int, above: int, closed: bool, x: int,
                        c: real, lo: real, hi: real, y: real)
    requires c > 0.0
    requires lo == (n as real) * c - (below as real) * c
    requires hi == (n as real) * c + (above as real) * c
    requires y == ((x * d) as real) * c
    ensures Inside(n, d, below, above, closed, x) <==> Between(lo, hi, closed, y)
  {
    ScaleOrder(n - below, x * d, c);
    ScaleOrder(x * d, n + above, c);
    RDistribute(n as real, below as real, c);
    RDistribute(n as real, above as real, c);
  }

  lemma ScaleOrder(a: int, b: int, c: real)
    requires c > 0.0
    ensures a <= b <==> (a as real) * c <= (b as real) * c
    ensures a < b <==> (a as real) * c < (b as real) * c
  {
    RMonotone(a as real, b as real, c);
  }

  lemma PositiveDigits(w: int, x: int)
    requires Decimal10(w, x) > 0.0
    ensures w >= 1
  {
    if w <= 0 { ScaleOrder(w, 0, Ten(x)); }
  }

  lemma InOrder(a: int, b: int, c: real, x: real, y: real)
    requires c > 0.0 && x == (a as real) * c && y == (b as real) * c
    ensures a <= b <==> x <= y
    ensures a < b <==> x < y
  {
    ScaleOrder(a, b, c);
  }

  lemma DistanceIsAbs(x: int, n: int, c: real, y: real, v: real)
    requires c > 0.0 && y == (x as real) * c && v == (n as real) * c
    ensures (Distance(x, n) as real) * c == Abs(y - v)
  {
    ScaleOrder(x, n, c);
    RDistribute(x as real, n as real, c);
    RDistribute(n as real, x as real, c);
  }
}
