/**
  Writing integers into a digit buffer, rounding the buffer up, and trimming
  zeros: what each step does to the number the buffer denotes.
 */
module DigitFilling {
  import opened Positional
  import opened DigitLoops
  import opened Decimal
  import opened RealPowers
  import opened Rounding

  /** t is s followed by k digits of number. */
  ghost predicate Appended(s: seq<int>, t: seq<int>, number: int, k: nat) {
    |t| == |s| + k && t[..|s|] == s && IsDecimal(t[|s|..]) && Dec(t) == Dec(s) * Pow10(k) + number
  }

  lemma AppendedIs(s: seq<int>, t: seq<int>, number: int, k: nat)
    requires |t| == |s| + k && t[..|s|] == s && IsDecimal(t[|s|..]) && Dec(t[|s|..]) == number
    ensures Appended(s, t, number, k)
  {
    DecConcat(s, t[|s|..]);
    assert t == s + t[|s|..];
  }

  /** Appending twice appends the combined number. */
  lemma AppendedTwice(s: seq<int>, t: seq<int>, u: seq<int>, m: int, k: nat, n: int, l: nat)
    requires Appended(s, t, m, k) && Appended(t, u, n, l)
    ensures Appended(s, u, m * Pow10(l) + n, k + l)
  {
    hide Dec, Pow10;
    Pow10Add(k, l);
    AddDigits(Dec(s), Pow10(k), m, Pow10(l));
    assert u[..|s|] == t[..|s|];
    forall i | 0 <= i < |u[|s|..]|
      ensures ZERO <= u[|s|..][i] <= ZERO + 9
    {
      if i < k {
        assert u[|s|..][i] == t[|s|..][i];
      } else {
        assert u[|s|..][i] == u[|t|..][i - k];
      }
    }
  }

  lemma AddDigits(d: int, p: int, m: int, q: int)
    ensures (d * p + m) * q == d * (p * q) + m * q
  {
  }

  lemma AppendedIsDecimal(s: seq<int>, t: seq<int>, number: int, k: nat)
    requires Appended(s, t, number, k) && IsDecimal(s)
    ensures IsDecimal(t)
  {
    forall i | 0 <= i < |t|
      ensures ZERO <= t[i] <= ZERO + 9
    {
      if i < |s| {
        assert t[i] == s[i];
      } else {
        assert t[i] == t[|s|..][i - |s|];
      }
    }
  }

  lemma StoreInFront(u: seq<int>, v: seq<int>, start: nat, i: nat, end: nat, c: int)
    requires start <= i < end <= |u| && v == u[i := c]
    ensures v[i..end] == [c] + u[i + 1..end] && v[..start] == u[..start]
  {
  }

  lemma SplitSlice(u: seq<int>, start: nat, end: nat)
    requires start <= end <= |u|
    ensures u[..end][start..] == u[start..end] && u[..end][..start] == u[..start]
  {
  }

  /** The last k digits are written; the rest is still to be. */
  ghost predicate Filling(number: int, rest: int, k: nat, digits: seq<int>) {
    |digits| == k && number == rest * Pow10(k) + Dec(digits)
  }

  lemma FillStart(number: int)
    ensures Filling(number, number, 0, [])
  {
    DecEmpty();
  }

  lemma FillStep(number: int, rest: int, k: nat, digits: seq<int>)
    requires Filling(number, rest, k, digits)
    ensures Filling(number, rest / 10, k + 1, [ZERO + rest % 10] + digits)
  {
    hide Dec, Pow10;
    DecPrepend(ZERO + rest % 10, digits);
    TenthOf(rest, k);
  }

  lemma FillEnd(number: int, rest: nat, k: nat, digits: seq<int>)
    requires Filling(number, rest, k, digits) && IsDecimal(digits) && number < Pow10(k)
    ensures number == Dec(digits)
  {
    hide Dec, Pow10;
    DecBound(digits);
    NothingLeft(rest, number, Pow10(k), Dec(digits));
  }

  /** The low digits of a number, a given count of them, written from the last to the first. */
  method FillDigits32FixedLength(number: nat, count: nat, buffer: array<int>, length0: nat) returns (length: nat)
    requires length0 + count <= buffer.Length && number < Pow10(count)
    modifies buffer
    ensures length == length0 + count && Appended(old(buffer[..length0]), buffer[..length], number, count)
  {
    hide Dec, Pow10, Appended, Filling;
    ghost var u := buffer[..];
    ghost var s, end := u[..length0], length0 + count;
    var rest := number;
    var i := count;
    assert u[end..end] == [];
    FillStart(number);
    while i > 0
      invariant 0 <= i <= count && buffer[..] == u && u[..length0] == s
      invariant IsDecimal(u[length0 + i..end]) && Filling(number, rest, count - i, u[length0 + i..end])
    {
      i := i - 1;
      var c := ZERO + rest % 10;
      buffer[length0 + i] := c;
      StoreInFront(u, buffer[..], length0, length0 + i, end, c);
      FillStep(number, rest, count - i - 1, u[length0 + i + 1..end]);
      rest := rest / 10;
      u := buffer[..];
    }
    FillEnd(number, rest, count, u[length0..end]);
    length := length0 + count;
    SplitSlice(u, length0, end);
    AppendedIs(s, u[..end], number, count);
    assert buffer[..length] == u[..end];
  }

  lemma DecEmpty()
    ensures Dec([]) == 0 && Pow10(0) == 1
  {
  }

  lemma DecPrepend(c: int, s: seq<int>)
    ensures Dec([c] + s) == (c - ZERO) * Pow10(|s|) + Dec(s)
  {
    hide Pow10;
    DecConcat([c], s);
    assert Dec([c]) == c - ZERO;
  }

  lemma TenthOf(x: int, n: nat)
    ensures x * Pow10(n) == (x / 10) * Pow10(n + 1) + (x % 10) * Pow10(n)
  {
    hide Pow10;
    PlaceAbove(x / 10, n);
    var q, r := x / 10, x % 10;
    assert x == 10 * q + r;
    AddDigits(q, 10, r, Pow10(n));
    assert q * (10 * Pow10(n)) == 10 * (q * Pow10(n));
  }

  lemma NothingLeft(rest: nat, number: int, p: int, low: int)
    requires number == rest * p + low && number < p && 0 <= low && 0 < p
    ensures rest == 0 && number == low
  {
    if rest > 0 { MulMonotone(1, rest, p); }
  }

  ghost function Mirror(s: seq<int>): seq<int> {
    seq(|s|, k requires 0 <= k < |s| => s[|s| - 1 - k])
  }

  lemma MirrorAppend(s: seq<int>, c: int)
    ensures Mirror(s + [c]) == [c] + Mirror(s)
  {
  }

  /** Reverses a stretch of the buffer in place. */
  method Exchange(buffer: array<int>, from: nat, count: nat)
    requires from + count <= buffer.Length
    modifies buffer
    ensures buffer[..from] == old(buffer[..from])
    ensures buffer[from..from + count] == Mirror(old(buffer[from..from + count]))
  {
    ghost var s := buffer[..];
    var i := from;
    var j := from + count - 1;
    while i < j
      invariant from <= i && i + j == 2 * from + count - 1 && i <= j + 1
      invariant forall k :: 0 <= k < from ==> buffer[k] == s[k]
      invariant forall k, l :: from <= k < i && k + l == 2 * from + count - 1 ==> buffer[k] == s[l] && buffer[l] == s[k]
      invariant forall k :: i <= k <= j ==> buffer[k] == s[k]
    {
      buffer[i], buffer[j] := buffer[j], buffer[i];
      i := i + 1;
      j := j - 1;
    }
    ghost var m := Mirror(s[from..from + count]);
    forall k | 0 <= k < count
      ensures buffer[from..from + count][k] == m[k]
    {
      var l := 2 * from + count - 1 - (from + k);
      assert m[k] == s[l];
      if from + k < i {
        assert buffer[from + k] == s[l];
      } else if from + k > j {
        assert buffer[from + k] == s[l];
      } else {
        assert buffer[from + k] == s[from + k];
      }
    }
    assert old(buffer[from..from + count]) == s[from..from + count];
    assert old(buffer[..from]) == s[..from];
  }

  /** A number without leading zeros: filled in reverse, then exchanged. Zero has no digits. */
  method FillDigits32(number: nat, buffer: array<int>, length0: nat) returns (length: nat)
    requires number < TWO32 && length0 + 10 <= buffer.Length
    modifies buffer
    ensures length0 <= length <= length0 + 10
    ensures Appended(old(buffer[..length0]), buffer[..length], number, length - length0)
  {
    hide Dec, Pow10;
    ghost var s := buffer[..length0];
    var rest := number;
    var count := 0;
    DecEmpty();
    assert Mirror(buffer[length0..length0]) == [];
    while rest != 0
      invariant 0 <= count <= 10 && rest >= 0
      invariant buffer[..length0] == s
      invariant IsDecimal(buffer[length0..length0 + count])
      invariant number == rest * Pow10(count) + Dec(Mirror(buffer[length0..length0 + count]))
      invariant Dec(Mirror(buffer[length0..length0 + count])) >= 0
    {
      TenDigits(rest, number, count);
      ghost var r := buffer[length0..length0 + count];
      var digit := rest % 10;
      TenthOf(rest, count);
      rest := rest / 10;
      buffer[length0 + count] := ZERO + digit;
      count := count + 1;
      assert buffer[length0..length0 + count] == r + [ZERO + digit];
      MirrorAppend(r, ZERO + digit);
      DecPrepend(ZERO + digit, Mirror(r));
      ProductNat(digit, Pow10(count - 1));
    }
    ghost var r := buffer[length0..length0 + count];
    Exchange(buffer, length0, count);
    length := length0 + count;
    assert buffer[..length][length0..] == Mirror(r);
    assert buffer[..length][..length0] == buffer[..length0];
    AppendedIs(s, buffer[..length], number, count);
  }

  /** A 32-bit number with a non-zero rest has fewer than ten digits already written. */
  lemma TenDigits(rest: nat, number: int, count: nat)
    requires rest > 0 && number < TWO32 && rest * Pow10(count) <= number
    ensures count < 10
  {
    hide Pow10;
    if count >= 10 {
      Pow10Grows(10, count);
      assert Pow10(10) == 10_000_000_000 by { SmallPowers(); }
      MulMonotone(1, rest, Pow10(count));
    }
  }

  lemma SmallPowers()
    ensures Pow10(3) == 1000 && Pow10(7) == 10_000_000 && Pow10(10) == 10_000_000_000
    ensures Pow10(14) == 100_000_000_000_000 && Pow10(17) == 100_000_000_000_000_000
  {
    assert Pow10(3) == 1000;
    assert Pow10(7) == 10_000_000;
    hide Pow10;
    Pow10Add(3, 7);
    Pow10Add(7, 7);
    Pow10Add(3, 14);
  }

  /** Seventeen digits in three parts. */
  method FillDigits64FixedLength(number: nat, buffer: array<int>, length0: nat) returns (length: nat)
    requires number < 100_000_000_000_000_000 && length0 + 17 <= buffer.Length
    modifies buffer
    ensures length == length0 + 17 && Appended(old(buffer[..length0]), buffer[..length], number, 17)
  {
    hide Dec, Pow10, Appended;
    SmallPowers();
    var part2 := number % 10_000_000;
    var rest := number / 10_000_000;
    var part1 := rest % 10_000_000;
    var part0 := rest / 10_000_000;
    ghost var s := buffer[..length0];
    length := FillDigits32FixedLength(part0, 3, buffer, length0);
    ghost var t := buffer[..length];
    length := FillDigits32FixedLength(part1, 7, buffer, length);
    ghost var u := buffer[..length];
    length := FillDigits32FixedLength(part2, 7, buffer, length);
    AppendedTwice(s, t, u, part0, 3, part1, 7);
    AppendedTwice(s, u, buffer[..length], part0 * 10_000_000 + part1, 10, part2, 7);
  }

  /** Up to twenty digits in up to three parts, without leading zeros. */
  method FillDigits64(number: nat, buffer: array<int>, length0: nat) returns (length: nat)
    requires number < TWO64 && length0 + 24 <= buffer.Length
    modifies buffer
    ensures length0 <= length <= length0 + 24
    ensures Appended(old(buffer[..length0]), buffer[..length], number, length - length0)
  {
    hide Dec, Pow10, Appended;
    SmallPowers();
    var part2 := number % 10_000_000;
    var rest := number / 10_000_000;
    var part1 := rest % 10_000_000;
    var part0 := rest / 10_000_000;
    ghost var s := buffer[..length0];
    if part0 != 0 {
      length := FillDigits32(part0, buffer, length0);
      ghost var t := buffer[..length];
      ghost var k := length - length0;
      length := FillDigits32FixedLength(part1, 7, buffer, length);
      ghost var u := buffer[..length];
      length := FillDigits32FixedLength(part2, 7, buffer, length);
      AppendedTwice(s, t, u, part0, k, part1, 7);
      AppendedTwice(s, u, buffer[..length], part0 * 10_000_000 + part1, k + 7, part2, 7);
    } else if part1 != 0 {
      length := FillDigits32(part1, buffer, length0);
      ghost var t := buffer[..length];
      ghost var k := length - length0;
      length := FillDigits32FixedLength(part2, 7, buffer, length);
      AppendedTwice(s, t, buffer[..length], part1, k, part2, 7);
    } else {
      length := FillDigits32(part2, buffer, length0);
    }
  }

  // ---------- Rounding up and trimming ----------

  /** Adds one in the last place; an empty buffer stands for zero. */
  method RoundUp(buffer: array<int>, length0: nat, point0: int) returns (length: nat, point: int)
    requires length0 <= buffer.Length && 0 < buffer.Length && IsDecimal(buffer[..length0])
    requires length0 == 0 ==> point0 == 0
    modifies buffer
    ensures length <= buffer.Length && IsDecimal(buffer[..length])
    ensures Denoted(buffer[..length], point) == Decimal10(old(Dec(buffer[..length0])) + 1, point0 - length0)
  {
    hide Dec, Ten;
    if length0 == 0 {
      buffer[0] := ZERO + 1;
      point, length := 1, 1;
      assert buffer[..1] == [ZERO + 1];
      DecOne();
      return;
    }
    ghost var s := buffer[..length0];
    DecUpdate(s, length0 - 1, s[length0 - 1] + 1);
    DecEmpty();
    buffer[length0 - 1] := buffer[length0 - 1] + 1;
    assert buffer[..length0] == s[length0 - 1 := s[length0 - 1] + 1];
    point := PropagateCarry(buffer, length0, point0);
    length := length0;
    CarriedPoint(Dec(s) + 1, Dec(buffer[..length]), point0 - length0, point - point0);
  }

  lemma DecOne()
    ensures Dec([ZERO + 1]) == 1 && Dec([]) == 0
  {
  }

  /** A trailing zero can go. */
  lemma DropLast(s: seq<int>, point: int)
    requires |s| > 0 && s[|s| - 1] == ZERO
    ensures Denoted(s[..|s| - 1], point) == Denoted(s, point)
  {
    var t := s[..|s| - 1];
    assert s == t + [ZERO];
    DecAppend(t, ZERO);
    TenStep(point - |s|);
    hide Ten, Dec;
    RAssoc(Dec(t) as real, 10.0, Ten(point - |s|));
    RCommute(Dec(t) as real, 10.0);
  }

  /** Leading zeros can go if the point moves with the digits. */
  lemma DropFront(s: seq<int>, k: nat, point: int)
    requires k <= |s| && forall i :: 0 <= i < k ==> s[i] == ZERO
    ensures Denoted(s[k..], point - k) == Denoted(s, point)
  {
    hide Ten, Pow10;
    DecZeros(s[..k]);
    DecConcat(s[..k], s[k..]);
    assert s == s[..k] + s[k..];
  }

  ghost predicate NoOuterZeros(s: seq<int>) {
    |s| > 0 ==> s[0] != ZERO && s[|s| - 1] != ZERO
  }

  /** Moves buffer[from..length] to the front. */
  method MoveToFront(buffer: array<int>, from: nat, length: nat)
    requires from <= length <= buffer.Length
    modifies buffer
    ensures buffer[..length - from] == old(buffer[from..length])
  {
    ghost var was := buffer[from..length];
    for i := from to length
      invariant buffer[..i - from] == was[..i - from] && buffer[i..length] == was[i - from..]
    {
      ghost var done := buffer[..i - from];
      assert buffer[i] == buffer[i..length][0] == was[i - from];
      buffer[i - from] := buffer[i];
      assert buffer[..i + 1 - from] == done + [was[i - from]];
      assert buffer[i + 1..length] == was[i - from..][1..];
    }
  }

  method TrimTrailing(buffer: array<int>, length0: nat, ghost point: int) returns (length: nat)
    requires length0 <= buffer.Length && IsDecimal(buffer[..length0])
    ensures length <= length0 && IsDecimal(buffer[..length]) && (length > 0 ==> buffer[length - 1] != ZERO)
    ensures Denoted(buffer[..length], point) == Denoted(buffer[..length0], point)
  {
    hide Dec, Ten, Denoted;
    length := length0;
    while length > 0 && buffer[length - 1] == ZERO
      invariant length <= length0 && IsDecimal(buffer[..length])
      invariant Denoted(buffer[..length], point) == Denoted(buffer[..length0], point)
    {
      DropLast(buffer[..length], point);
      assert buffer[..length][..length - 1] == buffer[..length - 1];
      length := length - 1;
    }
  }

  method CountLeading(buffer: array<int>, length: nat) returns (count: nat)
    requires length <= buffer.Length
    ensures count <= length && (forall i :: 0 <= i < count ==> buffer[i] == ZERO)
    ensures count < length ==> buffer[count] != ZERO
  {
    count := 0;
    while count < length && buffer[count] == ZERO
      invariant 0 <= count <= length
      invariant forall i :: 0 <= i < count ==> buffer[i] == ZERO
    {
      count := count + 1;
    }
  }

  /** Removes trailing zeros, then leading ones together with their places before the point. */
  method TrimZeros(buffer: array<int>, length0: nat, point0: int) returns (length: nat, point: int)
    requires length0 <= buffer.Length && IsDecimal(buffer[..length0])
    modifies buffer
    ensures length <= length0 && IsDecimal(buffer[..length]) && NoOuterZeros(buffer[..length])
    ensures Denoted(buffer[..length], point) == Denoted(old(buffer[..length0]), point0)
  {
    hide Dec, Ten, Denoted;
    point := point0;
    length := TrimTrailing(buffer, length0, point);
    ghost var s := buffer[..length];
    var firstNonZero := CountLeading(buffer, length);
    DropFront(s, firstNonZero, point);
    if firstNonZero != 0 {
      MoveToFront(buffer, firstNonZero, length);
      length := length - firstNonZero;
      point := point - firstNonZero;
    }
    assert buffer[..length] == s[firstNonZero..];
  }

  // ---------- One number, one string ----------

  lemma {:induction false} DecInjective(s: seq<int>, t: seq<int>)
    requires IsDecimal(s) && IsDecimal(t) && |s| == |t| && Dec(s) == Dec(t)
    ensures s == t
  {
    if |s| > 0 {
      var n := |s| - 1;
      DecInjective(s[..n], t[..n]);
      assert s == s[..n] + [s[n]] && t == t[..n] + [t[n]];
    }
  }

  /** Digits without outer zeros and their point are determined by the number they denote. */
  lemma SameDigits(s: seq<int>, p: int, t: seq<int>, q: int)
    requires IsDecimal(s) && IsDecimal(t) && |s| > 0 && |t| > 0 && NoOuterZeros(s) && NoOuterZeros(t)
    requires Denoted(s, p) == Denoted(t, q)
    ensures s == t && p == q
  {
    hide Ten, Pow10, Dec;
    NotFiner(s, p, t, q);
    NotFiner(t, q, s, p);
    RCancel(Dec(s) as real, Dec(t) as real, Ten(p - |s|));
    LeadingDigit(s);
    LeadingDigit(t);
    DecBound(s);
    DecBound(t);
    if |s| < |t| {
      Pow10Grows(|s|, |t| - 1);
    } else if |t| < |s| {
      Pow10Grows(|t|, |s| - 1);
    }
    DecInjective(s, t);
  }

  /** A last digit that is not zero fixes the place. */
  lemma NotFiner(s: seq<int>, p: int, t: seq<int>, q: int)
    requires IsDecimal(s) && |s| > 0 && NoOuterZeros(s) && Denoted(s, p) == Denoted(t, q)
    ensures p - |s| >= q - |t|
  {
    hide Ten, Pow10, Dec;
    var x, y := p - |s|, q - |t|;
    if x < y {
      var k: nat := y - x;
      TenAdd(x, k);
      RCommute(Ten(x), Pow10(k) as real);
      RAssoc(Dec(t) as real, Pow10(k) as real, Ten(x));
      IntProduct(Dec(t), Pow10(k));
      RCancel(Dec(s) as real, (Dec(t) * Pow10(k)) as real, Ten(x));
      PlaceAbove(Dec(t), k - 1);
      LastDigitOf(s);
      assert false;
    }
  }

  lemma LastDigitOf(s: seq<int>)
    requires IsDecimal(s) && |s| > 0 && s[|s| - 1] != ZERO
    ensures Dec(s) % 10 != 0
  {
  }
}
