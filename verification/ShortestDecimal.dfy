/**
  From the integers of the exact digit generator to numbers: what Shortest
  says about a ratio of bignums, said about the number it stands for.
 */
module ShortestDecimal {
  import opened Decimal
  import opened BignumDtoa
  import opened RealPowers

  /** num/den, with its deltas, is the interval [lo, hi] around v, divided by 10^top. */
  ghost predicate Represents(num: int, den: int, below: int, above: int, top: int, v: real, lo: real, hi: real) {
    && den > 0
    && v * (den as real) == (num as real) * Ten(top)
    && (v - lo) * (den as real) == (below as real) * Ten(top)
    && (hi - v) * (den as real) == (above as real) * Ten(top)
  }

  /** The same part of a ratio at a finer place: x * 10^j counts in units of 10^(top - j). */
  lemma FinerPart(part: int, den: int, top: int, j: nat, c: real, y: real)
    requires den > 0 && c * (den as real) == Ten(top - j)
    requires y * (den as real) == (part as real) * Ten(top)
    ensures ((part * Pow10(j)) as real) * c == y
  {
    hide Ten, Pow10;
    var d, t, p, q := den as real, Ten(top - j), Pow10(j) as real, part as real;
    TenAdd(top - j, j);
    IntProduct(part, Pow10(j));
    RAssoc(q * p, c, d);
    RAssoc(q, p, t);
    RCommute(p, t);
    RCancel((q * p) * c, y, d);
  }

  /** The unit at a place, divided by the denominator. */
  ghost function Unit(den: int, x: int): (c: real)
    requires den > 0
    ensures c > 0.0 && c * (den as real) == Ten(x)
  {
    Ten(x) / (den as real)
  }

  lemma InUnits(x: int, den: int, c: real, t: real)
    requires c * (den as real) == t
    ensures ((x * den) as real) * c == (x as real) * t
  {
    IntProduct(x, den);
    RAssoc(x as real, den as real, c);
    RCommute(den as real, c);
  }

  lemma AtPlace(num: int, den: int, below: int, above: int, closed: bool, top: int, v: real, lo: real, hi: real,
                j: nat, x: int)
    requires Represents(num, den, below, above, top, v, lo, hi)
    ensures var p := Pow10(j);
      Inside(num * p, den, below * p, above * p, closed, x) <==> Between(lo, hi, closed, Decimal10(x, top - j))
  {
    hide Ten, Pow10, Unit, Inside, Between;
    var c := Unit(den, top - j);
    FinerPart(num, den, top, j, c, v);
    FinerPart(below, den, top, j, c, v - lo);
    FinerPart(above, den, top, j, c, hi - v);
    InUnits(x, den, c, Ten(top - j));
    InsideIsBetween(num * Pow10(j), den, below * Pow10(j), above * Pow10(j), closed, x,
                    c, lo, hi, Decimal10(x, top - j));
  }

  lemma DistanceAtPlace(num: int, den: int, below: int, above: int, top: int, v: real, lo: real, hi: real, j: nat,
                        w: int, x: int)
    requires Represents(num, den, below, above, top, v, lo, hi)
    ensures Distance(w * den, num * Pow10(j)) <= Distance(x * den, num * Pow10(j))
       <==> Abs(Decimal10(w, top - j) - v) <= Abs(Decimal10(x, top - j) - v)
  {
    hide Ten, Pow10, Unit, Distance, Abs;
    var c, n := Unit(den, top - j), num * Pow10(j);
    FinerPart(num, den, top, j, c, v);
    InUnits(w, den, c, Ten(top - j));
    InUnits(x, den, c, Ten(top - j));
    DistanceIsAbs(w * den, n, c, Decimal10(w, top - j), v);
    DistanceIsAbs(x * den, n, c, Decimal10(x, top - j), v);
    ScaleOrder(Distance(w * den, n), Distance(x * den, n), c);
  }

  lemma ShortestOfNumber(num: int, den: int, below: int, above: int, closed: bool, w: int, k: nat,
                         top: int, v: real, lo: real, hi: real)
    requires Represents(num, den, below, above, top, v, lo, hi)
    requires BelowTen(num, above, den, closed)
    requires Shortest(num, den, below, above, closed, w, k)
    ensures IsShortest(v, lo, hi, closed, w, top + 1 - k)
  {
    var x := top + 1 - k;
    AtPlace(num, den, below, above, closed, top, v, lo, hi, k - 1, w);
    forall u: int | Between(lo, hi, closed, Decimal10(u, x))
      ensures Abs(Decimal10(w, x) - v) <= Abs(Decimal10(u, x) - v)
      ensures u != w && Abs(Decimal10(u, x) - v) == Abs(Decimal10(w, x) - v) ==> w % 2 == 0
    {
      AtPlace(num, den, below, above, closed, top, v, lo, hi, k - 1, u);
      DistanceAtPlace(num, den, below, above, top, v, lo, hi, k - 1, w, u);
      DistanceAtPlace(num, den, below, above, top, v, lo, hi, k - 1, u, w);
    }
    forall u: int, y: int | u >= 1 && y > x
      ensures !Between(lo, hi, closed, Decimal10(u, y))
    {
      if y <= top {
        AtPlace(num, den, below, above, closed, top, v, lo, hi, top - y, u);
        assert NoneInside(num, den, below, above, closed, top - y);
      } else {
        AboveTop(num, den, below, above, top, v, lo, hi, u, y);
      }
    }
  }

  lemma AboveTop(num: int, den: int, below: int, above: int, top: int, v: real, lo: real, hi: real, u: int, y: int)
    requires Represents(num, den, below, above, top, v, lo, hi) && num + above <= 10 * den
    requires u >= 1 && y > top
    ensures hi <= Decimal10(u, y)
    ensures num + above < 10 * den ==> hi < Decimal10(u, y)
  {
    hide Ten, Pow10;
    var d, t := den as real, Ten(top);
    BelowNext(num + above, den, t, hi) by {
      RDistribute(hi, v, d);
      RDistribute(num as real, above as real, t);
    }
    TenStep(top);
    var n: nat := y - top - 1;
    TenAdd(top + 1, n);
    assert Ten(y) == Ten(top + 1) * (Pow10(n) as real);
    TenAtLeast(Ten(top + 1), Pow10(n), u, Ten(y));
  }

  lemma BelowNext(n: int, den: int, t: real, hi: real)
    requires den > 0 && t > 0.0 && hi * (den as real) == (n as real) * t
    ensures n <= 10 * den <==> hi <= 10.0 * t
    ensures n < 10 * den <==> hi < 10.0 * t
  {
    ScaleOrder(n, 10 * den, t);
    RAssoc(10.0, den as real, t);
    RAssoc(10.0, t, den as real);
    RCommute(t, den as real);
    RMonotone(hi, 10.0 * t, den as real);
  }

  lemma TenAtLeast(t: real, p: nat, u: int, q: real)
    requires t > 0.0 && p >= 1 && u >= 1 && q == t * (p as real)
    ensures t <= (u as real) * q
  {
    ScaleOrder(1, p, t);
    RCommute(t, p as real);
    assert t <= q;
    ScaleOrder(1, u, q);
  }
}
