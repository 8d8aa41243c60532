/**
  Rounding half up to a number of decimals, and what a digit string with a
  decimal point must satisfy to denote the rounded number.
 */
module Rounding {
  import opened Decimal
  import opened RealPowers

  /** v in units of 10^-n, rounded half up. */
  ghost function HalfUp(v: real, n: int): int {
    (v * Ten(n) + 0.5).Floor
  }

  /** The number denoted by digits with the decimal point after the first `point` of them. */
  ghost function Denoted(digits: seq<int>, point: int): real {
    Decimal10(Dec(digits), point - |digits|)
  }

  /** The characters 123 with the point after the first, and 1 two places behind the point. */
  lemma PointPlaced()
    ensures Denoted([49, 50, 51], 1) == 1.23 && Denoted([49], -2) == 0.001
  {
    var s := [49, 50, 51];
    assert s[..2][..1][..0] == [] && s[..2][..1] == [49] && s[..2] == [49, 50];
    assert Dec([49]) == 1;
    assert Dec([49, 50]) == 12;
    assert Dec(s) == 123;
    assert Ten(-1) == 0.1 && Ten(-2) == 0.01 && Ten(-3) == 0.001;
  }

  /** The digits denote v rounded half up to n decimals. */
  ghost predicate RoundedTo(v: real, n: int, digits: seq<int>, point: int) {
    IsDecimal(digits) && Denoted(digits, point) == Decimal10(HalfUp(v, n), -n)
  }

  /** Rounding half up picks the multiple at distance at most half a unit, the upper one of two. */
  lemma HalfUpCharacter(v: real, n: int, w: int)
    ensures HalfUp(v, n) == w <==> (w as real) - 0.5 <= v * Ten(n) < (w as real) + 0.5
  {
  }

  /** n/d rounded half up, on integers. */
  ghost predicate RatioHalfUp(n: int, d: int, w: int) {
    2 * (w * d) - d <= 2 * n < 2 * (w * d) + d
  }

  lemma RatioIsHalfUp(n: int, d: int, w: int, v: real, places: int)
    requires d > 0 && RatioHalfUp(n, d, w) && (v * Ten(places)) * (d as real) == n as real
    ensures HalfUp(v, places) == w
  {
    hide Ten;
    var y, d', w' := v * Ten(places), d as real, w as real;
    IntProduct(w, d);
    RDistribute(w', 0.5, d');
    RMonotone(w' - 0.5, y, d');
    RMonotone(y, w' + 0.5, d');
    HalfUpCharacter(v, places, w);
  }

  /** A whole number of units of 10^-i is not changed by rounding to more decimals. */
  lemma ExactStays(v: real, w: int, i: int, n: int)
    requires v * Ten(i) == w as real && i <= n
    ensures Decimal10(HalfUp(v, n), -n) == Decimal10(w, -i)
  {
    hide Ten, Pow10;
    var k: nat := n - i;
    var x := w * Pow10(k);
    TenAdd(i, k);
    RAssoc(v, Ten(i), Pow10(k) as real);
    IntProduct(w, Pow10(k));
    HalfUpCharacter(v, n, x);
    TenAdd(-n, k);
    RCommute(Pow10(k) as real, Ten(-n));
    RAssoc(w as real, Pow10(k) as real, Ten(-n));
  }

  // ---------- Digit strings ----------

  lemma {:induction false} DecConcat(s: seq<int>, t: seq<int>)
    ensures Dec(s + t) == Dec(s) * Pow10(|t|) + Dec(t)
  {
    if |t| == 0 {
      assert s + t == s;
    } else {
      var t', c := t[..|t| - 1], t[|t| - 1];
      assert s + t == (s + t') + [c];
      assert t == t' + [c];
      DecConcat(s, t');
      DecAppend(s + t', c);
      DecAppend(t', c);
      var d, p := Dec(s), Pow10(|t'|);
      assert 10 * (d * p) == d * (10 * p);
    }
  }

  lemma {:induction false} DecUpdate(s: seq<int>, i: nat, c: int)
    requires i < |s|
    ensures Dec(s[i := c]) == Dec(s) + (c - s[i]) * Pow10(|s| - 1 - i)
  {
    hide Dec;
    var t, x := s[..|s| - 1], s[|s| - 1];
    assert s == t + [x];
    DecAppend(t, x);
    if i == |s| - 1 {
      assert s[i := c] == t + [c];
      DecAppend(t, c);
    } else {
      assert s[i := c] == t[i := c] + [x];
      DecAppend(t[i := c], x);
      DecUpdate(t, i, c);
      PlaceAbove(c - s[i], |t| - 1 - i);
    }
  }

  lemma PlaceAbove(x: int, n: nat)
    ensures x * Pow10(n + 1) == 10 * (x * Pow10(n))
  {
  }

  lemma {:induction false} DecZeros(s: seq<int>)
    requires forall i :: 0 <= i < |s| ==> s[i] == ZERO
    ensures Dec(s) == 0
  {
    if |s| > 0 { DecZeros(s[..|s| - 1]); }
  }

  /** Digits, of which only the one at place `last` may have reached ten. */
  ghost predicate MayOverflowAt(s: seq<int>, last: int) {
    forall j :: 0 <= j < |s| ==> ZERO <= s[j] <= (if j == last then ZERO + 10 else ZERO + 9)
  }

  /** Moving a ten at place i up by one place leaves the number as it is. */
  lemma CarryKeepsValue(s: seq<int>, i: nat)
    requires 0 < i < |s| && s[i] == ZERO + 10
    ensures Dec(s[i := ZERO][i - 1 := s[i - 1] + 1]) == Dec(s)
  {
    hide Dec, Pow10;
    DecUpdate(s, i, ZERO);
    DecUpdate(s[i := ZERO], i - 1, s[i - 1] + 1);
    PlaceAbove(1, |s| - 1 - i);
  }

  /** A ten in front of zeros is ten times a one in front of them. */
  lemma TopCarry(s: seq<int>)
    requires |s| > 0 && s[0] == ZERO + 10
    requires forall j :: 0 < j < |s| ==> s[j] == ZERO
    ensures Dec(s) == 10 * Dec(s[0 := ZERO + 1])
  {
    hide Dec, Pow10;
    var p := Pow10(|s| - 1);
    var z := s[0 := ZERO];
    DecZeros(z);
    DecUpdate(s, 0, ZERO);
    DecUpdate(s, 0, ZERO + 1);
  }

  /** After a carry the number is as before, or a tenth of it with the point one place further. */
  ghost predicate Carried(before: int, after: int, bump: int) {
    (bump == 0 && after == before) || (bump == 1 && 10 * after == before)
  }

  /** Carries a ten at the last place up through the nines; a carry past the top moves the point. */
  method PropagateCarry(buffer: array<int>, length: nat, point0: int) returns (point: int)
    requires 0 < length <= buffer.Length
    requires MayOverflowAt(buffer[..length], length - 1)
    modifies buffer
    ensures IsDecimal(buffer[..length])
    ensures buffer[length..] == old(buffer[length..])
    ensures Carried(old(Dec(buffer[..length])), Dec(buffer[..length]), point - point0)
    ensures point != point0 ==> buffer[0] == ZERO + 1
  {
    hide Dec;
    ghost var start := buffer[..length];
    point := point0;
    var i := length - 1;
    while i > 0 && buffer[i] == ZERO + 10
      invariant 0 <= i < length
      invariant MayOverflowAt(buffer[..length], i)
      invariant Dec(buffer[..length]) == Dec(start)
      invariant forall j :: i < j < length ==> buffer[j] == ZERO
      invariant buffer[length..] == old(buffer[length..])
    {
      ghost var s := buffer[..length];
      CarryKeepsValue(s, i);
      buffer[i] := ZERO;
      buffer[i - 1] := buffer[i - 1] + 1;
      assert buffer[..length] == s[i := ZERO][i - 1 := s[i - 1] + 1];
      i := i - 1;
    }
    ghost var s := buffer[..length];
    if buffer[0] == ZERO + 10 {
      assert i == 0;
      TopCarry(s);
      buffer[0] := ZERO + 1;
      assert buffer[..length] == s[0 := ZERO + 1];
      point := point + 1;
    }
  }

  lemma CarriedPoint(before: int, after: int, x: int, bump: int)
    requires Carried(before, after, bump)
    ensures Decimal10(after, x + bump) == Decimal10(before, x)
  {
    hide Ten;
    TenStep(x);
    RAssoc(after as real, 10.0, Ten(x));
    RCommute(after as real, 10.0);
  }
}
