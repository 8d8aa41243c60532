/**
  Two shortest decimals at the same distance: the even one is chosen, which
  makes the result unique, and is not always the one farther from zero. Which
  numbers get the one nearer to zero is read off significand and exponent.
 */
module Ties {
  import opened Positional
  import opened Powers
  import opened Decimal
  import opened RealPowers
  import opened Rounding
  import opened Doubles

  /** There is only one shortest decimal with these rules, so both paths find the same. */
  lemma ShortestIsUnique(v: real, lo: real, hi: real, closed: bool, w: int, x: int, w': int, x': int)
    requires 0.0 < lo && IsShortest(v, lo, hi, closed, w, x) && IsShortest(v, lo, hi, closed, w', x')
    ensures w == w' && x == x'
  {
    hide Ten, Decimal10;
    PositiveDigits(w, x);
    PositiveDigits(w', x');
    assert x == x';
    if w < w' {
      NotBothEven(v, lo, hi, closed, w, w', x);
    } else if w' < w {
      NotBothEven(v, lo, hi, closed, w', w, x);
    }
  }

  /** Between two even ones there would be a closer one. */
  lemma NotBothEven(v: real, lo: real, hi: real, closed: bool, w: int, w': int, x: int)
    requires IsShortest(v, lo, hi, closed, w, x) && IsShortest(v, lo, hi, closed, w', x)
    ensures w >= w'
  {
    hide Ten, Decimal10, NothingCoarser;
    assert w < w' ==> w % 2 == 0 && w' % 2 == 0;
    if w < w' { Middle(lo, hi, closed, w, w', x); }
  }

  lemma Middle(lo: real, hi: real, closed: bool, w: int, w': int, x: int)
    requires w + 1 < w' && Between(lo, hi, closed, Decimal10(w, x)) && Between(lo, hi, closed, Decimal10(w', x))
    ensures Between(lo, hi, closed, Decimal10(w + 1, x)) && Decimal10(w, x) < Decimal10(w + 1, x) < Decimal10(w', x)
  {
    hide Ten, Decimal10;
    Ordered(w, w + 1, x);
    Ordered(w + 1, w', x);
  }

  lemma Ordered(a: int, b: int, x: int)
    ensures a < b <==> Decimal10(a, x) < Decimal10(b, x)
  {
    hide Ten;
    ScaleOrder(a, b, Ten(x));
  }

  /** The rule of the documentation: of two decimals as close as each other the larger one. */
  ghost predicate FartherFromZero(v: real, lo: real, hi: real, closed: bool, w: int, x: int) {
    forall u: int | Between(lo, hi, closed, Decimal10(u, x)) ::
      Abs(Decimal10(u, x) - v) == Abs(Decimal10(w, x) - v) ==> u <= w
  }

  /** v is halfway to the next larger decimal, which is in the interval too. */
  ghost predicate HalfwayUp(v: real, lo: real, hi: real, closed: bool, w: int, x: int) {
    Between(lo, hi, closed, Decimal10(w + 1, x)) && Decimal10(w, x) + Decimal10(w + 1, x) == 2.0 * v
  }

  /** Only then is there a larger decimal as close. */
  lemma LargerTie(v: real, lo: real, hi: real, closed: bool, w: int, x: int)
    requires IsShortest(v, lo, hi, closed, w, x)
    ensures FartherFromZero(v, lo, hi, closed, w, x) <==> !HalfwayUp(v, lo, hi, closed, w, x)
    ensures HalfwayUp(v, lo, hi, closed, w, x) ==> w % 2 == 0
  {
    hide Ten, Decimal10, NothingCoarser;
    Ordered(w, w + 1, x);
    forall u: int | Between(lo, hi, closed, Decimal10(u, x)) && u > w
      ensures Abs(Decimal10(u, x) - v) == Abs(Decimal10(w, x) - v) ==> HalfwayUp(v, lo, hi, closed, w, x)
    {
      Ordered(w, u, x);
      Ordered(w + 1, u, x);
    }
  }

  // ---------- The numbers concerned ----------

  /** How many decimals after the point put s * 2^e halfway between two of them. */
  ghost function Places(s: int, e: int): int
    requires s >= 1
  {
    -1 - e - Twos(s)
  }

  /** What 5^k must exceed for half a unit in place k to be within both boundaries. */
  ghost function Gauge(s: int, closer: bool): int
    requires s >= 1
  {
    Pow2(1 + Twos(s) + if closer then 1 else 0)
  }

  /**
    s * 2^e is printed nearer to zero than the documentation says: the decimal
    below is even, both neighbours are in the interval and no multiple of ten is.
   */
  ghost predicate NearerToZero(s: int, e: int, closer: bool)
    requires s >= 1
  {
    var k, d := Places(s, e), Gauge(s, closer);
    OddPart(s) % 4 == 1 && k >= 1 && d < Five(k) < 5 * d
  }

  /** The decimal below, in the last place. */
  ghost function Below(s: int, e: int): int
    requires s >= 1 && Places(s, e) >= 1
  {
    (OddPart(s) * Five(Places(s, e)) - 1) / 2
  }

  lemma TenAsTwo(k: int)
    requires k >= 0
    ensures Ten(-k) * (Five(k) as real) == Two(-k)
  {
    hide Ten, Two;
    TenAdd(-k, k);
    TwoAdd(-k, k);
    TenIsTen();
    TwoZero();
    TenIsFiveTimesTwo(k);
    IntProduct(Five(k), Pow2(k));
    RAssoc(Ten(-k), Five(k) as real, Pow2(k) as real);
    RCancel(Ten(-k) * (Five(k) as real), Two(-k), Pow2(k) as real);
  }

  /** An odd multiple of a power of two determines both. */
  lemma OddTimesTwo(p: int, x: int, q: int, m: int)
    requires p % 2 == 1 && q % 2 == 1 && x <= m && (p as real) * Two(x) == (q as real) * Two(m)
    ensures p == q && x == m
  {
    hide Two;
    var n := m - x;
    TwoAdd(x, n);
    IntProduct(q, Pow2(n));
    RCommute(Two(x), Pow2(n) as real);
    RAssoc(q as real, Pow2(n) as real, Two(x));
    RCancel(p as real, (q * Pow2(n)) as real, Two(x));
    PowZero();
    OddParts(p, q, 0, n);
  }

  lemma TenInTwos(p: int, x: int)
    requires x >= 0
    ensures (p as real) * Ten(x) == ((p * Five(x)) as real) * Two(x)
  {
    hide Ten, Two, Five;
    var f := Five(x);
    TenAdd(0, x);
    TwoAdd(0, x);
    TenIsTen();
    TwoZero();
    TenIsFiveTimesTwo(x);
    IntProduct(f, Pow2(x));
    IntProduct(p, f);
    RAssoc(p as real, f as real, Two(x));
  }

  lemma MoveFactor(o: int, f: int, two: real)
    ensures ((o as real) * two) * (f as real) == ((o * f) as real) * two
  {
    IntProduct(o, f);
    RAssoc(o as real, two, f as real);
    RCommute(two, f as real);
    RAssoc(o as real, f as real, two);
  }

  /** An odd number of halves of 10^x that equals an odd multiple of 2^m. */
  lemma OddTimesTen(p: int, x: int, o: int, m: int)
    requires p % 2 == 1 && o % 2 == 1 && (p as real) * Ten(x) == (o as real) * Two(m)
    ensures x == m
    ensures x < 0 ==> p == o * Five(-x)
  {
    hide Ten, Two, Five;
    if x >= 0 {
      TenInTwos(p, x);
      OddProduct(p, Five(x));
      TwoOddTimesTwo(p * Five(x), x, o, m);
    } else {
      var f := Five(-x);
      TenAsTwo(-x);
      RAssoc(p as real, Ten(x), f as real);
      MoveFactor(o, f, Two(m));
      OddProduct(o, f);
      TwoOddTimesTwo(p, x, o * f, m);
    }
  }

  lemma TwoOddTimesTwo(p: int, x: int, q: int, m: int)
    requires p % 2 == 1 && q % 2 == 1 && (p as real) * Two(x) == (q as real) * Two(m)
    ensures p == q && x == m
  {
    hide Two;
    if x <= m { OddTimesTwo(p, x, q, m); } else { OddTimesTwo(q, m, p, x); }
  }

  lemma OddProduct(p: int, q: int)
    requires p % 2 == 1 && q % 2 == 1
    ensures (p * q) % 2 == 1
  {
    var a := p / 2;
    FactorOut(q, 2, a, 1);
    OddSum(p * q, q * a, q);
  }

  // ---------- Measured in a common unit ----------

  /** Four times the power of two in s: half a unit in the last place is this much. */
  ghost function Half(s: int): int
    requires s >= 1
  {
    4 * Pow2(Twos(s))
  }

  ghost function Reach(f: int, closer: bool): int {
    if closer then f else 2 * f
  }

  /** The number, its boundaries and the last place as multiples of c. */
  ghost predicate OnScale(s: int, e: int, closer: bool, c: real)
    requires s >= 1 && Places(s, e) >= 1
  {
    var k := Places(s, e);
    var f, n := Five(k), (Half(s) * (OddPart(s) * Five(k))) as real;
    && c > 0.0 && Number(s, e) == n * c && Ten(-k) == ((2 * Half(s)) as real) * c
    && UpperBoundary(s, e) == n * c + ((2 * f) as real) * c
    && LowerBoundary(s, e, closer) == n * c - (Reach(f, closer) as real) * c
  }

  lemma Measured(s: int, e: int, closer: bool) returns (c: real)
    requires s >= 1 && Places(s, e) >= 1
    ensures OnScale(s, e, closer, c)
  {
    hide Ten, Two, Five, Twos, OddPart, Pow2;
    var k := Places(s, e);
    var f, a, two := Five(k), Pow2(Twos(s)), Two(e);
    c := Part(two, 4 * f);
    OddTimesTwos(s);
    NumberOnScale(s, OddPart(s), a, f, c, two);
    TenAsTwo(k);
    TwoAdd(e, 1 + Twos(s));
    Pow2Double(Twos(s));
    TenOnScale(Ten(-k), f, a, c, two);
  }

  lemma Part(x: real, n: int) returns (c: real)
    requires x > 0.0 && n > 0
    ensures c > 0.0 && c * (n as real) == x
  {
    var q := n as real;
    c := x / q;
    assert c * q == x;
    if c <= 0.0 { RMonotone(c, 0.0, q); }
  }

  lemma NumberOnScale(s: int, o: int, a: int, f: int, c: real, two: real)
    requires s == o * a && c * ((4 * f) as real) == two
    ensures (s as real) * two == (((4 * a) * (o * f)) as real) * c
    ensures two / 2.0 == ((2 * f) as real) * c && two / 4.0 == (f as real) * c
  {
    assert (4 * a) * (o * f) == s * (4 * f);
    IntProduct(s, 4 * f);
    RCommute(c, (4 * f) as real);
    RAssoc(s as real, (4 * f) as real, c);
  }

  lemma TenOnScale(ten: real, f: int, a: int, c: real, two: real)
    requires f >= 1 && ten * (f as real) == two * ((2 * a) as real) && c * ((4 * f) as real) == two
    ensures ten == ((2 * (4 * a)) as real) * c
  {
    var g, b := f as real, a as real;
    assert (4 * f) as real == 4.0 * g && (2 * a) as real == 2.0 * b && (2 * (4 * a)) as real == 8.0 * b;
    RAssoc(c, 4.0, g);
    RSwap(c * 4.0, g, 2.0 * b);
    RCommute(g, c * 4.0);
    RAssoc(g, c * 4.0, 2.0 * b);
    RCommute(g, (c * 4.0) * (2.0 * b));
    RCancel(ten, (c * 4.0) * (2.0 * b), g);
    assert (c * 4.0) * (2.0 * b) == (8.0 * b) * c;
  }

  lemma OnTheScale(s: int, e: int, closer: bool, closed: bool, c: real, u: int)
    requires s >= 1 && Places(s, e) >= 1 && OnScale(s, e, closer, c)
    ensures var k, b := Places(s, e), Half(s);
      Between(LowerBoundary(s, e, closer), UpperBoundary(s, e), closed, Decimal10(u, -k)) <==>
      Inside(b * (OddPart(s) * Five(k)), 2 * b, Reach(Five(k), closer), 2 * Five(k), closed, u)
  {
    hide Ten, Two, Five, Twos, OddPart, Half, Reach, Number, UpperBoundary, LowerBoundary;
    var k, b := Places(s, e), Half(s);
    var f := Five(k);
    RAssoc(u as real, (2 * b) as real, c);
    IntProduct(u, 2 * b);
    InsideIsBetween(b * (OddPart(s) * f), 2 * b, Reach(f, closer), 2 * f, closed, u, c,
                    LowerBoundary(s, e, closer), UpperBoundary(s, e), Decimal10(u, -k));
  }

  // ---------- On integers ----------

  /** Half a unit is never exactly the distance to a boundary, nor is five times it. */
  lemma NeverExact(s: int, f: int, closer: bool)
    requires s >= 1 && f % 2 == 1
    ensures Half(s) != Reach(f, closer) && 5 * Half(s) != Reach(f, closer)
  {
  }

  lemma GaugeIsHalf(s: int, f: int, closer: bool)
    requires s >= 1
    ensures Gauge(s, closer) < f < 5 * Gauge(s, closer) <==> Half(s) < Reach(f, closer) < 5 * Half(s)
  {
    Pow2Double(Twos(s));
    Pow2Double(1 + Twos(s));
  }

  /** m units in the last place and a half from n are (2m + 1) halves from p = 2n + 1. */
  lemma HalvesAway(b: int, p: int, n: int, m: int)
    requires p == 2 * n + 1
    ensures (n - m) * (2 * b) == b * p - (2 * m + 1) * b
  {
    assert (n - m) * (2 * b) == b * (2 * n) - b * (2 * m);
    assert b * p == b * (2 * n) + b;
  }

  lemma BothInside(b: int, p: int, f: int, closer: bool, closed: bool, n: int)
    requires p == 2 * n + 1 && b >= 1 && f >= 1 && b != Reach(f, closer)
    ensures b < Reach(f, closer) <==>
      && Inside(b * p, 2 * b, Reach(f, closer), 2 * f, closed, n)
      && Inside(b * p, 2 * b, Reach(f, closer), 2 * f, closed, n + 1)
  {
    HalvesAway(b, p, n, 0);
    HalvesAway(b, p, n, -1);
  }

  lemma TenBelow(b: int, p: int, f: int, closer: bool, closed: bool, n: int)
    requires p == 2 * n + 1 && b >= 1 && f >= 1 && 5 * b != Reach(f, closer)
    ensures Inside(b * p, 2 * b, Reach(f, closer), 2 * f, closed, n - 2) <==> 5 * b < Reach(f, closer)
  {
    HalvesAway(b, p, n, 2);
  }

  /** If the multiple of ten below is out of reach then so are all of them. */
  lemma NoTens(b: int, p: int, f: int, closer: bool, closed: bool, n: int, u: int)
    requires p == 2 * n + 1 && b >= 1 && f >= 1 && Reach(f, closer) < 5 * b
    requires n % 10 == 2 && u % 10 == 0
    ensures !Inside(b * p, 2 * b, Reach(f, closer), 2 * f, closed, u)
  {
    HalvesAway(b, p, n, 2);
    HalvesAway(b, p, n, -8);
    if u < n {
      MulMonotone(u, n - 2, 2 * b);
    } else {
      MulMonotone(n + 8, u, 2 * b);
    }
  }

  /** The last digit of the decimal below. */
  lemma EndsInTwo(o: int, k: int, n: int)
    requires k >= 1 && 2 * n + 1 == o * Five(k)
    ensures n % 2 == 0 <==> o % 4 == 1
    ensures n % 2 == 0 ==> n % 10 == 2
  {
    hide Five;
    FiveModFour(k);
    FiveStep(k);
    var f, r := Five(k - 1), Five(k) / 4;
    FactorOut(o, 5, f, 0);
    FactorOut(o, 4, r, 1);
    ModuloFive(n, o * f);
    ModuloFour(n, o * r, o);
    LastDigit(n);
  }

  lemma FiveStep(k: int)
    requires k >= 1
    ensures Five(k) == 5 * Five(k - 1)
  {
  }

  lemma LastDigit(n: int)
    requires n % 5 == 2
    ensures n % 2 == 0 ==> n % 10 == 2
  {
  }

  lemma FactorOut(o: int, a: int, b: int, c: int)
    ensures o * (a * b + c) == a * (o * b) + o * c
  {
  }

  lemma ModuloFive(n: int, g: int)
    requires 2 * n + 1 == 5 * g
    ensures n % 5 == 2
  {
    var h := g / 2;
    assert n == 5 * h + 2;
  }

  lemma ModuloFour(n: int, h: int, o: int)
    requires 2 * n + 1 == 4 * h + o
    ensures n % 2 == 0 <==> o % 4 == 1
  {
  }

  // ---------- Exactly these ----------

  lemma HalfwayIsOddPart(s: int, e: int, closer: bool, closed: bool, w: int, x: int)
    requires s >= 1
    requires var v, lo, hi := Number(s, e), LowerBoundary(s, e, closer), UpperBoundary(s, e);
      Between(lo, hi, closed, Decimal10(w, x)) && HalfwayUp(v, lo, hi, closed, w, x)
    ensures x == -Places(s, e) && x < 0 && 2 * w + 1 == OddPart(s) * Five(-x)
  {
    hide Two, Ten, Twos, OddPart, Five, Pow2, LowerBoundary, UpperBoundary;
    var o, a, ten, two := OddPart(s), Twos(s), Ten(x), Two(e);
    OddTimesTwos(s);
    TwoAdd(e, 1 + a);
    Pow2Double(a);
    OddEquation(w, ten, s, o, Pow2(a), two, Two(e + 1 + a), Decimal10(w, x), Decimal10(w + 1, x), Number(s, e));
    OddTimesTen(2 * w + 1, x, o, e + 1 + a);
    if x >= 0 {
      NextDecimal(w, ten, Decimal10(w, x), Decimal10(w + 1, x));
      BoundariesApart(s, e, closer);
      TooWide(x, e);
      Fits(LowerBoundary(s, e, closer), UpperBoundary(s, e), closed, Decimal10(w, x), Decimal10(w + 1, x));
      assert false;
    }
  }

  lemma Fits(lo: real, hi: real, closed: bool, y: real, z: real)
    requires Between(lo, hi, closed, y) && Between(lo, hi, closed, z)
    ensures z - y <= hi - lo
  {
  }

  lemma BoundariesApart(s: int, e: int, closer: bool)
    ensures UpperBoundary(s, e) - LowerBoundary(s, e, closer) <= Two(e)
  {
  }

  lemma NextDecimal(w: int, ten: real, y: real, z: real)
    requires y == (w as real) * ten && z == ((w + 1) as real) * ten
    ensures z == y + ten
  {
    RDistribute(w as real, 1.0, ten);
  }

  lemma OddEquation(w: int, ten: real, s: int, o: int, a: int, two: real, big: real, y: real, z: real, v: real)
    requires s == o * a && big == two * ((2 * a) as real) && v == (s as real) * two
    requires y == (w as real) * ten && z == ((w + 1) as real) * ten && y + z == 2.0 * v
    ensures ((2 * w + 1) as real) * ten == (o as real) * big
  {
    var b := (2 * a) as real;
    RDistribute(w as real, (w + 1) as real, ten);
    IntProduct(o, 2 * a);
    assert (o * (2 * a)) as real == 2.0 * (s as real);
    RCommute(two, b);
    RAssoc(o as real, b, two);
    RAssoc(2.0, s as real, two);
  }

  lemma Pow2Double(n: nat)
    ensures Pow2(1 + n) == 2 * Pow2(n)
  {
  }

  /** Whole places are wider than the interval. */
  lemma TooWide(x: int, e: int)
    requires 0 <= x && e < x
    ensures Two(e) < Ten(x)
  {
    hide Two, Ten;
    TenAdd(0, x);
    TwoAdd(0, x);
    TenIsTen();
    TwoZero();
    TenIsFiveTimesTwo(x);
    MulMonotone(1, Five(x), Pow2(x));
    TwoAdd(e, x - e);
    Pow2Half(x - e);
    RMonotone(1.0, Pow2(x - e) as real, Two(e));
    RCommute(Two(e), Pow2(x - e) as real);
  }

  lemma Pow2Half(n: nat)
    requires n > 0
    ensures Pow2(n) >= 2
  {
  }

  /** The multiple of ten below the decimal below is out of reach. */
  lemma TenOutOfReach(s: int, e: int, closer: bool, closed: bool, w: int, c: real)
    requires s >= 1 && Places(s, e) >= 1 && OnScale(s, e, closer, c)
    requires 2 * w + 1 == OddPart(s) * Five(Places(s, e)) && w % 10 == 2 && w >= 1
    requires NothingCoarser(LowerBoundary(s, e, closer), UpperBoundary(s, e), closed, -Places(s, e))
    ensures Reach(Five(Places(s, e)), closer) < 5 * Half(s)
  {
    hide Two, Ten, Number, LowerBoundary, UpperBoundary, Twos, OddPart, Five, Half, Reach, Inside, Between, OnScale,
      Decimal10;
    var k := Places(s, e);
    var u, f, b := (w - 2) / 10, Five(k), Half(s);
    NeverExact(s, f, closer);
    if w == 2 {
      OnlyFive(OddPart(s), k);
      HalfAtLeast(s, f, closer);
    } else {
      OneCoarser(u, -k);
      assert 10 * u == w - 2;
      OnTheScale(s, e, closer, closed, c, w - 2);
      HalfAtLeast(s, f, closer);
      TenBelow(b, OddPart(s) * f, f, closer, closed, w);
    }
  }

  lemma OneCoarser(u: int, x: int)
    ensures Decimal10(u, x + 1) == Decimal10(10 * u, x)
  {
    hide Ten;
    TenStep(x);
    RAssoc(u as real, 10.0, Ten(x));
  }

  lemma OnlyFive(o: int, k: int)
    requires k >= 1 && o >= 1 && o * Five(k) == 5
    ensures Five(k) == 5
  {
    FiveGrows(1, k);
    MulMonotone(1, o, Five(k));
    assert Five(1) == 5 * Five(0);
  }

  lemma HalfAtLeast(s: int, f: int, closer: bool)
    requires s >= 1
    ensures Half(s) >= 4 && Reach(f, closer) in {f, 2 * f}
  {
  }

  /** If the documented rule is broken then the number is one of those. */
  lemma HalfwayIsNearer(s: int, e: int, closer: bool, w: int, x: int)
    requires s >= 1
    requires var v, lo, hi := Number(s, e), LowerBoundary(s, e, closer), UpperBoundary(s, e);
      IsShortest(v, lo, hi, s % 2 == 0, w, x) && HalfwayUp(v, lo, hi, s % 2 == 0, w, x)
    ensures NearerToZero(s, e, closer)
  {
    hide Two, Ten, Number, LowerBoundary, UpperBoundary, Twos, OddPart, Five, Half, Reach, Gauge, Inside,
      NothingCoarser, NoneCloser, EvenIfTied, Decimal10, OnScale;
    var v, lo, hi := Number(s, e), LowerBoundary(s, e, closer), UpperBoundary(s, e);
    var closed, o, k := s % 2 == 0, OddPart(s), Places(s, e);
    LargerTie(v, lo, hi, closed, w, x);
    HalfwayIsOddPart(s, e, closer, closed, w, x);
    var c := Measured(s, e, closer);
    EndsInTwo(o, k, w);
    PositiveDigits(w, x) by { LowerBoundaryPositive(s, e, closer); }
    NeighboursInside(s, e, closer, closed, w, c);
    TenOutOfReach(s, e, closer, closed, w, c);
    GaugeIsHalf(s, Five(k), closer);
  }

  /** The decimals below and above are in the interval when half a unit is within reach. */
  lemma NeighboursInside(s: int, e: int, closer: bool, closed: bool, w: int, c: real)
    requires s >= 1 && Places(s, e) >= 1 && OnScale(s, e, closer, c)
    requires 2 * w + 1 == OddPart(s) * Five(Places(s, e))
    ensures Half(s) < Reach(Five(Places(s, e)), closer) <==>
      && Between(LowerBoundary(s, e, closer), UpperBoundary(s, e), closed, Decimal10(w, -Places(s, e)))
      && Between(LowerBoundary(s, e, closer), UpperBoundary(s, e), closed, Decimal10(w + 1, -Places(s, e)))
  {
    hide Two, Ten, Number, LowerBoundary, UpperBoundary, Twos, OddPart, Five, Half, Reach, Inside, Between, Decimal10,
      OnScale;
    var o, k := OddPart(s), Places(s, e);
    var f := Five(k);
    OnTheScale(s, e, closer, closed, c, w);
    OnTheScale(s, e, closer, closed, c, w + 1);
    NeverExact(s, f, closer);
    HalfAtLeast(s, f, closer);
    BothInside(Half(s), o * f, f, closer, closed, w);
  }

  lemma BelowIs(s: int, e: int)
    requires s >= 1 && Places(s, e) >= 1
    ensures 2 * Below(s, e) + 1 == OddPart(s) * Five(Places(s, e))
  {
    hide OddPart, Five, Places;
    OddProduct(OddPart(s), Five(Places(s, e)));
    OddHalf(OddPart(s) * Five(Places(s, e)));
  }

  lemma OddHalf(p: int)
    requires p % 2 == 1
    ensures 2 * ((p - 1) / 2) + 1 == p
  {
  }

  /** And for each of those the decimal below is the result, and the one above is as close. */
  lemma NearerIsHalfway(s: int, e: int, closer: bool)
    requires s >= 1 && NearerToZero(s, e, closer)
    ensures var v, lo, hi := Number(s, e), LowerBoundary(s, e, closer), UpperBoundary(s, e);
      && IsShortest(v, lo, hi, s % 2 == 0, Below(s, e), -Places(s, e))
      && HalfwayUp(v, lo, hi, s % 2 == 0, Below(s, e), -Places(s, e))
  {
    hide Two, Ten, Number, LowerBoundary, UpperBoundary, Twos, OddPart, Five, Half, Reach, Gauge, Below, Between,
      NothingCoarser, NoneCloser, Decimal10, OnScale;
    var closed, o, k, n := s % 2 == 0, OddPart(s), Places(s, e), Below(s, e);
    var c := Measured(s, e, closer);
    BelowIs(s, e);
    EndsInTwo(o, k, n);
    GaugeIsHalf(s, Five(k), closer);
    NeighboursInside(s, e, closer, closed, n, c);
    NothingAbove(s, e, closer, closed, n, c);
    NoneNearer(s, e, closer, closed, n, c);
  }

  lemma NothingAbove(s: int, e: int, closer: bool, closed: bool, n: int, c: real)
    requires s >= 1 && Places(s, e) >= 1 && OnScale(s, e, closer, c)
    requires 2 * n + 1 == OddPart(s) * Five(Places(s, e)) && n % 10 == 2
    requires Reach(Five(Places(s, e)), closer) < 5 * Half(s)
    ensures NothingCoarser(LowerBoundary(s, e, closer), UpperBoundary(s, e), closed, -Places(s, e))
  {
    hide Two, Ten, Number, LowerBoundary, UpperBoundary, Twos, OddPart, Half, Reach, Inside, Between, OnScale, Decimal10;
    var k := Places(s, e);
    var f, b := Five(k), Half(s);
    HalfAtLeast(s, f, closer);
    forall u: int, y: int | u >= 1 && y > -k
      ensures !Between(LowerBoundary(s, e, closer), UpperBoundary(s, e), closed, Decimal10(u, y))
    {
      var m := AsTens(u, y, -k);
      OnTheScale(s, e, closer, closed, c, m);
      NoTens(b, OddPart(s) * f, f, closer, closed, n, m);
    }
  }

  /** A coarser decimal is a multiple of ten in the last place. */
  lemma AsTens(u: int, y: int, x: int) returns (m: int)
    requires y > x
    ensures m % 10 == 0 && Decimal10(u, y) == Decimal10(m, x)
  {
    hide Ten, Pow10;
    var j := y - x;
    m := u * Pow10(j);
    TenAdd(x, j);
    IntProduct(u, Pow10(j));
    RCommute(Ten(x), Pow10(j) as real);
    RAssoc(u as real, Pow10(j) as real, Ten(x));
    TenTimes(u, j);
  }

  lemma TenTimes(u: int, j: nat)
    requires j > 0
    ensures (u * Pow10(j)) % 10 == 0
  {
    hide Pow10;
    PlaceAbove(u, j - 1);
  }

  /** The decimals below and above are as close as any. */
  lemma NoneNearer(s: int, e: int, closer: bool, closed: bool, n: int, c: real)
    requires s >= 1 && Places(s, e) >= 1 && OnScale(s, e, closer, c)
    requires 2 * n + 1 == OddPart(s) * Five(Places(s, e))
    ensures NoneCloser(Number(s, e), LowerBoundary(s, e, closer), UpperBoundary(s, e), closed, n, -Places(s, e))
    ensures Decimal10(n, -Places(s, e)) + Decimal10(n + 1, -Places(s, e)) == 2.0 * Number(s, e)
  {
    hide Two, Ten, Number, LowerBoundary, UpperBoundary, Twos, OddPart, Five, Half, Between, Abs;
    var x, lo, hi := -Places(s, e), LowerBoundary(s, e, closer), UpperBoundary(s, e);
    var t, v := Ten(x), Number(s, e);
    HalfTimes(2 * n + 1, Half(s), t, c, v);
    NearestHalf(n, n, t, v, Decimal10(n, x), Decimal10(n + 1, x), Decimal10(n, x));
    forall u: int | Between(lo, hi, closed, Decimal10(u, x))
      ensures Abs(Decimal10(n, x) - v) <= Abs(Decimal10(u, x) - v)
    {
      NearestHalf(n, u, t, v, Decimal10(n, x), Decimal10(n + 1, x), Decimal10(u, x));
    }
  }

  lemma HalfTimes(p: int, b: int, t: real, c: real, v: real)
    requires t == ((2 * b) as real) * c && v == ((b * p) as real) * c
    ensures v == (p as real) * (t / 2.0)
  {
    IntProduct(b, p);
    RCommute(b as real, p as real);
    RAssoc(p as real, b as real, c);
    assert t / 2.0 == (b as real) * c;
  }

  lemma NearestHalf(n: int, u: int, t: real, v: real, p: real, q: real, y: real)
    requires t > 0.0 && v == ((2 * n + 1) as real) * (t / 2.0)
    requires p == (n as real) * t && q == ((n + 1) as real) * t && y == (u as real) * t
    ensures Abs(p - v) <= Abs(y - v) && p + q == 2.0 * v
  {
    hide Abs;
    HalfAbove(n, t, v, p);
    NextDecimal(n, t, p, q);
    InOrder(u, n, t, y, p);
    InOrder(n + 1, u, t, q, y);
    OutsideIsFarther(p, y, t, v);
  }

  lemma HalfAbove(n: int, t: real, v: real, p: real)
    requires v == ((2 * n + 1) as real) * (t / 2.0) && p == (n as real) * t
    ensures v == p + t / 2.0
  {
    var a, h := n as real, t / 2.0;
    RDistribute(2.0 * a, 1.0, h);
    RAssoc(a, 2.0, h);
    RCommute(2.0, a);
  }

  lemma OutsideIsFarther(p: real, y: real, t: real, v: real)
    requires t > 0.0 && v == p + t / 2.0 && (y <= p || p + t <= y)
    ensures Abs(p - v) <= Abs(y - v)
  {
  }

  /**
    The documented rule is kept exactly for the other numbers: a condition on
    significand, exponent and closeness of the lower boundary alone.
   */
  lemma TiesAsDocumented(s: int, e: int, closer: bool, w: int, x: int)
    requires s >= 1
    requires IsShortest(Number(s, e), LowerBoundary(s, e, closer), UpperBoundary(s, e), s % 2 == 0, w, x)
    ensures FartherFromZero(Number(s, e), LowerBoundary(s, e, closer), UpperBoundary(s, e), s % 2 == 0, w, x)
       <==> !NearerToZero(s, e, closer)
  {
    hide IsShortest, HalfwayUp, FartherFromZero, Twos, OddPart, Five, Number, LowerBoundary, UpperBoundary;
    var v, lo, hi := Number(s, e), LowerBoundary(s, e, closer), UpperBoundary(s, e);
    LargerTie(v, lo, hi, s % 2 == 0, w, x);
    if NearerToZero(s, e, closer) {
      NearerIsHalfway(s, e, closer);
      LowerBoundaryPositive(s, e, closer);
      ShortestIsUnique(v, lo, hi, s % 2 == 0, w, x, Below(s, e), -Places(s, e));
    } else if HalfwayUp(v, lo, hi, s % 2 == 0, w, x) {
      HalfwayIsNearer(s, e, closer, w, x);
    }
  }

  /** The double 2^50 + 1/4 is one: halfway between two shortest decimals, and the lower one, being even, is the result. */
  lemma HalfwayDouble()
    ensures var s, e, w := 0x10_0000_0000_0001, -2, 11258999068426242;
      var v, lo, hi := Number(s, e), LowerBoundary(s, e, false), UpperBoundary(s, e);
      && IsShortest(v, lo, hi, s % 2 == 0, w, -1)
      && Between(lo, hi, s % 2 == 0, Decimal10(w + 1, -1)) && !FartherFromZero(v, lo, hi, s % 2 == 0, w, -1)
  {
    hide IsShortest, Between, FartherFromZero, Number, LowerBoundary, UpperBoundary;
    var s, e := 0x10_0000_0000_0001, -2;
    assert Twos(s) == 0 && OddPart(s) == s && Places(s, e) == 1 && Five(1) == 5 * Five(0) && Pow2(1) == 2;
    assert Below(s, e) == 11258999068426242;
    NearerIsHalfway(s, e, false);
    LargerTie(Number(s, e), LowerBoundary(s, e, false), UpperBoundary(s, e), false, Below(s, e), -1);
  }
}
