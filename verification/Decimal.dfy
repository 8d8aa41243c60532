/**
  Decimal digit buffers and the question a digit generator answers: which
  multiples of a power of ten lie in a given interval, and which is closest.
 */
module Decimal {
  import opened Positional

  /** The code of the character '0'. */
  const ZERO: int := 48

  function Pow10(n: nat): (r: nat)
    ensures r > 0
  {
    if n == 0 then 1 else 10 * Pow10(n - 1)
  }

  ghost predicate IsDecimal(s: seq<int>) {
    forall i :: 0 <= i < |s| ==> ZERO <= s[i] <= ZERO + 9
  }

  /** The number a string of digit characters denotes; a digit may be out of range. */
  ghost function Dec(s: seq<int>): int {
    if |s| == 0 then 0 else 10 * Dec(s[..|s| - 1]) + (s[|s| - 1] - ZERO)
  }

  lemma DecAppend(s: seq<int>, c: int)
    ensures Dec(s + [c]) == 10 * Dec(s) + (c - ZERO)
  {
    assert (s + [c])[..|s|] == s;
  }

  lemma {:induction false} Pow10Add(m: nat, n: nat)
    ensures Pow10(m + n) == Pow10(m) * Pow10(n)
  {
    if m > 0 {
      Pow10Add(m - 1, n);
      var x, y := Pow10(m - 1), Pow10(n);
      assert (10 * x) * y == 10 * (x * y);
    }
  }

  lemma {:induction false} DecBound(s: seq<int>)
    requires IsDecimal(s)
    ensures 0 <= Dec(s) < Pow10(|s|)
  {
    if |s| > 0 { DecBound(s[..|s| - 1]); }
  }

  /** A string without a leading zero, and only such a string, is as large as its length allows. */
  lemma {:induction false} LeadingDigit(s: seq<int>)
    requires IsDecimal(s) && |s| > 0
    ensures s[0] != ZERO <==> Dec(s) >= Pow10(|s| - 1)
  {
    if |s| > 1 { LeadingDigit(s[..|s| - 1]); }
  }

  lemma {:induction false} Pow10Grows(m: nat, n: nat)
    requires m <= n
    ensures Pow10(m) <= Pow10(n)
  {
    if m < n { Pow10Grows(m, n - 1); }
  }

  /** Appends a digit character to a buffer of digits. */
  method StoreDigit(buffer: array<int>, length: nat, digit: nat)
    requires length < buffer.Length && digit <= 9 && IsDecimal(buffer[..length])
    modifies buffer
    ensures IsDecimal(buffer[..length + 1]) && buffer[length] == digit + ZERO
    ensures Dec(buffer[..length + 1]) == 10 * Dec(old(buffer[..length])) + digit
    ensures buffer[..length] == old(buffer[..length])
  {
    hide Dec;
    ghost var s := buffer[..length];
    buffer[length] := digit + ZERO;
    assert buffer[..length + 1] == s + [digit + ZERO];
    DecAppend(s, digit + ZERO);
  }

  // ---------- Multiples inside an interval ----------

  /**
    x * d lies between n - below and n + above; the ends belong to the interval
    when it is closed.
   */
  ghost predicate Inside(n: int, d: int, below: int, above: int, closed: bool, x: int) {
    if closed then n - below <= x * d <= n + above else n - below < x * d < n + above
  }

  ghost function Distance(x: int, y: int): int {
    if x < y then y - x else x - y
  }

  /** Rounding down stays inside the interval. */
  ghost predicate RoomBelow(r: int, below: int, closed: bool) {
    if closed then r <= below else r < below
  }

  /** Rounding up stays inside the interval. */
  ghost predicate RoomAbove(r: int, d: int, above: int, closed: bool) {
    if closed then r + above >= d else r + above > d
  }

  lemma Neighbours(n: int, d: int, w: int, r: int, x: int)
    requires 0 <= r < d && n == w * d + r
    ensures x <= w ==> x * d <= n - r
    ensures x >= w + 1 ==> x * d >= n + (d - r)
    ensures x < w ==> x * d <= n - r - d
    ensures x > w + 1 ==> x * d >= n + (d - r) + d
  {
    if x <= w { MulMonotone(x, w, d); } else { MulMonotone(w + 1, x, d); }
    if x < w { MulMonotone(x + 1, w, d); }
    if x > w + 1 { MulMonotone(w + 2, x, d); }
    assert (w + 1) * d == w * d + d && (w + 2) * d == w * d + 2 * d && (x + 1) * d == x * d + d;
  }

  /** Without room on either side no multiple of d is inside. */
  lemma NoRoom(n: int, d: int, w: int, r: int, below: int, above: int, closed: bool, x: int)
    requires 0 <= r < d && n == w * d + r
    requires !RoomBelow(r, below, closed) && !RoomAbove(r, d, above, closed)
    ensures !Inside(n, d, below, above, closed, x)
  {
    Neighbours(n, d, w, r, x);
  }

  /** The multiple that a generator settles on: inside, none inside is closer, and of two as close the even one. */
  ghost predicate Closest(n: int, d: int, below: int, above: int, closed: bool, w: int) {
    && Inside(n, d, below, above, closed, w)
    && (forall x :: Inside(n, d, below, above, closed, x) ==> Distance(w * d, n) <= Distance(x * d, n))
    && forall x :: x != w && Inside(n, d, below, above, closed, x) && Distance(x * d, n) == Distance(w * d, n) ==> w % 2 == 0
  }

  lemma RoundDown(n: int, d: int, w: int, r: int, below: int, above: int, closed: bool)
    requires 0 <= r < d && n == w * d + r && 0 < above
    requires RoomBelow(r, below, closed)
    requires RoomAbove(r, d, above, closed) ==> 2 * r <= d && (2 * r == d ==> w % 2 == 0)
    ensures Closest(n, d, below, above, closed, w)
  {
    forall x | Inside(n, d, below, above, closed, x)
      ensures Distance(w * d, n) <= Distance(x * d, n)
      ensures x != w && Distance(x * d, n) == Distance(w * d, n) ==> w % 2 == 0
    {
      Neighbours(n, d, w, r, x);
    }
  }

  lemma RoundUp(n: int, d: int, w: int, r: int, below: int, above: int, closed: bool)
    requires 0 <= r < d && n == w * d + r && 0 < below
    requires RoomAbove(r, d, above, closed)
    requires RoomBelow(r, below, closed) ==> 2 * r >= d && (2 * r == d ==> w % 2 == 1)
    ensures Closest(n, d, below, above, closed, w + 1)
  {
    assert (w + 1) * d == w * d + d;
    forall x | Inside(n, d, below, above, closed, x)
      ensures Distance((w + 1) * d, n) <= Distance(x * d, n)
      ensures x != w + 1 && Distance(x * d, n) == Distance((w + 1) * d, n) ==> (w + 1) % 2 == 0
    {
      Neighbours(n, d, w, r, x);
    }
  }
}
