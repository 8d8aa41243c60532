/**
  Exact digit generation on bignums: the shortest digits that identify a
  number, and a counted number of digits rounded half up.
 */
module BignumDtoa {
  import opened Positional
  import opened DigitLoops
  import opened BignumModel
  import opened Decimal

  /** Two bignums that share no memory. */
  ghost predicate Separate(a: Bignum, b: Bignum) {
    a != b && a.bigits != b.bigits
  }

  /** No decimal with j digits after the first lies in the interval. */
  ghost predicate NoneInside(num: int, den: int, below: int, above: int, closed: bool, j: nat) {
    forall x :: !Inside(num * Pow10(j), den, below * Pow10(j), above * Pow10(j), closed, x)
  }

  /** w, read with k digits, is closest to num/den in the interval, and nothing coarser lies in it. */
  ghost predicate Shortest(num: int, den: int, below: int, above: int, closed: bool, w: int, k: nat) {
    && k >= 1
    && Closest(num * Pow10(k - 1), den, below * Pow10(k - 1), above * Pow10(k - 1), closed, w)
    && forall j :: 0 <= j < k - 1 ==> NoneInside(num, den, below, above, closed, j)
  }

  /** No leading zero, if the interval reaches up to one and does not reach down to zero. */
  lemma NoLeadingZero(num: int, den: int, below: int, above: int, closed: bool, w: int, k: nat)
    requires 0 < den && Shortest(num, den, below, above, closed, w, k)
    requires RoomAbove(num, den, above, closed) && below < num
    ensures w >= Pow10(k - 1)
  {
    hide NoneInside, Pow10;
    FirstPower();
    if k > 1 { OneIsBelow(num, den, below, above, closed); }
    AtLeastPower(num - below, den, Pow10(k - 1), w) by {
      assert (num - below) * Pow10(k - 1) == num * Pow10(k - 1) - below * Pow10(k - 1);
    }
  }

  lemma FirstPower()
    ensures Pow10(0) == 1
  {
  }

  lemma OneIsBelow(num: int, den: int, below: int, above: int, closed: bool)
    requires NoneInside(num, den, below, above, closed, 0) && RoomAbove(num, den, above, closed)
    ensures den <= num - below
  {
    assert !Inside(num * Pow10(0), den, below * Pow10(0), above * Pow10(0), closed, 1);
  }

  lemma AtLeastPower(x: int, den: int, p: int, w: int)
    requires 0 < den && 0 < x && (p == 1 || den <= x) && 0 < p && x * p <= w * den
    ensures p <= w
  {
    if den <= x {
      MulMonotone(den, x, p);
      if w < p { MulMonotone(w + 1, p, den); }
    } else if w <= 0 {
      MulMonotone(w, 0, den);
    }
  }

  /** Room in a bignum for ten times its divisor. */
  ghost predicate Roomy(denominator: Bignum)
    reads denominator, denominator.bigits
    requires denominator.Raw()
  {
    10 * denominator.Value() <= Scale(1, CAPACITY)
  }

  lemma DigitsBelowValue(x: Bignum)
    requires x.Valid()
    ensures 0 <= V(x.Digits()) <= x.Value()
  {
    VBound(x.Digits());
    ScaleAtLeast(V(x.Digits()), x.exponent);
  }

  lemma {:induction false} ScaleAtLeast(v: int, n: nat)
    requires 0 <= v
    ensures v <= Scale(v, n)
  {
    if n > 0 { ScaleAtLeast(v, n - 1); }
  }

  /** One digit of the quotient; the remainder stays in the numerator. */
  method QuotientDigit(numerator: Bignum, denominator: Bignum) returns (digit: nat)
    requires numerator.Valid() && denominator.Valid() && Separate(numerator, denominator)
    requires 0 < denominator.Value() && Roomy(denominator) && numerator.Value() < 10 * denominator.Value()
    modifies numerator, numerator.bigits
    ensures numerator.Valid() && digit <= 9
    ensures old(numerator.Value()) == digit * denominator.Value() + numerator.Value()
    ensures 0 <= numerator.Value() < denominator.Value()
  {
    hide V, Scale;
    ghost var n, d := numerator.Value(), denominator.Value();
    denominator.ValueRange();
    UsedBelow(numerator, CAPACITY);
    numerator.ValueRange();
    digit := numerator.DivideModuloIntBignum(denominator);
    DigitBound(n, d);
  }

  /** One digit of the quotient, and whether rounding here would stay in the interval. */
  method NextDigit(numerator: Bignum, denominator: Bignum, deltaMinus: Bignum, deltaPlus: Bignum, isEven: bool)
      returns (digit: nat, roomMinus: bool, roomPlus: bool)
    requires numerator.Valid() && denominator.Valid() && deltaMinus.Valid() && deltaPlus.Valid()
    requires Separate(numerator, denominator) && Separate(numerator, deltaMinus) && Separate(numerator, deltaPlus)
    requires 0 < denominator.Value() && Roomy(denominator) && numerator.Value() < 10 * denominator.Value()
    modifies numerator, numerator.bigits
    ensures numerator.Valid() && digit <= 9
    ensures old(numerator.Value()) == digit * denominator.Value() + numerator.Value()
    ensures 0 <= numerator.Value() < denominator.Value()
    ensures roomMinus <==> RoomBelow(numerator.Value(), deltaMinus.Value(), isEven)
    ensures roomPlus <==> RoomAbove(numerator.Value(), denominator.Value(), deltaPlus.Value(), isEven)
  {
    hide V, Scale, Bignum.Raw, Bignum.Value;
    digit := QuotientDigit(numerator, denominator);
    var below := Compare(numerator, deltaMinus);
    var above := PlusCompare(numerator, deltaPlus, denominator);
    roomMinus := if isEven then below <= 0 else below < 0;
    roomPlus := if isEven then above >= 0 else above > 0;
  }

  lemma DigitBound(n: int, d: int)
    requires 0 < d && 0 <= n < 10 * d
    ensures 0 <= n / d <= 9 && n == (n / d) * d + n % d && 0 <= n % d < d
  {
    var q := n / d;
    assert n == q * d + n % d;
    if q >= 10 { MulMonotone(10, q, d); }
  }

  // ---------- Shortest digits ----------

  /** The upper end of the interval is below ten, or is ten and does not belong to it. */
  ghost predicate BelowTen(num: int, above: int, den: int, closed: bool) {
    num + above <= 10 * den && (num + above == 10 * den ==> !closed)
  }

  /**
    Where the generator stands before digit number `length`: the digits so far,
    w, account for all of num/den but n, and stopping earlier was impossible.
   */
  ghost predicate Generating(num: int, den: int, below: int, above: int, closed: bool,
                             w: int, n: int, dm: int, dp: int, length: nat)
  {
    && num * Pow10(length) == 10 * w * den + n
    && dm == below * Pow10(length) && dp == above * Pow10(length)
    && 0 <= n && BelowTen(n, dp, den, closed)
    && forall j :: 0 <= j < length ==> NoneInside(num, den, below, above, closed, j)
  }

  /** Neither neighbour of the number is in the interval: one more digit is needed. */
  lemma NoRoomYet(num: int, den: int, below: int, above: int, closed: bool,
                  w: int, n: int, dm: int, dp: int, length: nat, digit: int, r: int)
    requires Generating(num, den, below, above, closed, w, n, dm, dp, length)
    requires n == digit * den + r && 0 <= r < den
    requires !RoomBelow(r, dm, closed) && !RoomAbove(r, den, dp, closed)
    ensures Generating(num, den, below, above, closed, 10 * w + digit, 10 * r, 10 * dm, 10 * dp, length + 1)
  {
    var p := Pow10(length);
    var w' := 10 * w + digit;
    assert num * p == w' * den + r by { DistributeDigits(w, digit, den); }
    TimesTen(num, p);
    TimesTen(below, p);
    TimesTen(above, p);
    assert 10 * (w' * den + r) == 10 * w' * den + 10 * r;
    forall x
      ensures !Inside(num * p, den, below * p, above * p, closed, x)
    {
      NoRoom(num * p, den, w', r, below * p, above * p, closed, x);
    }
    assert NoneInside(num, den, below, above, closed, length);
  }

  lemma DistributeDigits(w: int, digit: int, den: int)
    ensures 10 * w * den + digit * den == (10 * w + digit) * den
  {
  }

  lemma TimesTen(x: int, p: int)
    ensures x * (10 * p) == 10 * (x * p)
  {
  }

  /** The last digit can be raised: it is not a nine, or the generator would have stopped before. */
  lemma NoNineToRaise(num: int, den: int, below: int, above: int, closed: bool,
                      w: int, n: int, dm: int, dp: int, length: nat, digit: int, r: int)
    requires Generating(num, den, below, above, closed, w, n, dm, dp, length)
    requires n == digit * den + r && 0 <= r < den && digit <= 9
    requires RoomAbove(r, den, dp, closed)
    ensures digit <= 8
  {
  }

  /** Stopping here: the digit as it is, or raised by one. */
  lemma Settled(num: int, den: int, below: int, above: int, closed: bool,
                w: int, n: int, dm: int, dp: int, length: nat, digit: int, r: int, up: bool)
    requires Generating(num, den, below, above, closed, w, n, dm, dp, length)
    requires n == digit * den + r && 0 <= r < den && 0 < dm && 0 < dp
    requires !up ==> RoomBelow(r, dm, closed) && (RoomAbove(r, den, dp, closed) ==> 2 * r <= den)
    requires up ==> RoomAbove(r, den, dp, closed) && (RoomBelow(r, dm, closed) ==> 2 * r >= den)
    requires RoomBelow(r, dm, closed) && RoomAbove(r, den, dp, closed) && 2 * r == den ==> (up <==> digit % 2 == 1)
    ensures Shortest(num, den, below, above, closed, 10 * w + digit + (if up then 1 else 0), length + 1)
  {
    hide Closest, NoneInside, Pow10, RoomAbove, RoomBelow;
    var p, b, a := num * Pow10(length), below * Pow10(length), above * Pow10(length);
    WithNextDigit(p, w, n, digit, den, r);
    ClosestAt(p, den, 10 * w + digit, r, b, a, closed, up);
  }

  lemma WithNextDigit(p: int, w: int, n: int, digit: int, den: int, r: int)
    requires p == 10 * w * den + n && n == digit * den + r
    ensures p == (10 * w + digit) * den + r && (10 * w + digit) % 2 == digit % 2
  {
    DistributeDigits(w, digit, den);
  }

  /** Rounding towards the closer end, or towards the even one, gives the closest. */
  lemma ClosestAt(n: int, den: int, w: int, r: int, dm: int, dp: int, closed: bool, up: bool)
    requires n == w * den + r && 0 <= r < den && 0 < dm && 0 < dp
    requires !up ==> RoomBelow(r, dm, closed) && (RoomAbove(r, den, dp, closed) ==> 2 * r <= den)
    requires up ==> RoomAbove(r, den, dp, closed) && (RoomBelow(r, dm, closed) ==> 2 * r >= den)
    requires RoomBelow(r, dm, closed) && RoomAbove(r, den, dp, closed) && 2 * r == den ==> (up <==> w % 2 == 1)
    ensures Closest(n, den, dm, dp, closed, w + (if up then 1 else 0))
  {
    hide Closest, RoomAbove, RoomBelow;
    if up {
      RoundUp(n, den, w, r, dm, dp, closed);
    } else {
      RoundDown(n, den, w, r, dm, dp, closed);
    }
  }

  /** Long enough a buffer: at its last digit the interval is wider than the distance of two decimals. */
  ghost predicate LongEnough(size: nat, den: int, width: int) {
    size >= 1 && width * Pow10(size - 1) > den
  }

  /** The decision taken once rounding is possible: whether to raise the last digit. */
  method RaiseLastDigit(numerator: Bignum, denominator: Bignum, digit: nat, roomMinus: bool, roomPlus: bool)
      returns (up: bool)
    requires numerator.Valid() && denominator.Valid() && (roomMinus || roomPlus)
    ensures var r, d := numerator.Value(), denominator.Value();
      && (!up ==> roomMinus && (roomPlus ==> 2 * r <= d))
      && (up ==> roomPlus && (roomMinus ==> 2 * r >= d))
      && (roomMinus && roomPlus && 2 * r == d ==> (up <==> digit % 2 == 1))
  {
    if roomMinus && roomPlus {
      var compare := PlusCompare(numerator, numerator, denominator);
      if compare < 0 {
        up := false;
      } else if compare > 0 {
        up := true;
      } else {
        up := digit % 2 != 0;
      }
    } else {
      up := !roomMinus;
    }
  }

  method GenerateShortestDigits(numerator: Bignum, denominator: Bignum, deltaMinus: Bignum, deltaPlus0: Bignum,
                                isEven: bool, buffer: array<int>)
      returns (length: nat)
    requires numerator.Valid() && denominator.Valid() && deltaMinus.Valid() && deltaPlus0.Valid()
    requires Separate(numerator, denominator) && Separate(numerator, deltaMinus) && Separate(numerator, deltaPlus0)
    requires Separate(denominator, deltaMinus) && Separate(denominator, deltaPlus0) && Separate(deltaMinus, deltaPlus0)
    requires buffer != numerator.bigits && buffer != denominator.bigits
    requires buffer != deltaMinus.bigits && buffer != deltaPlus0.bigits
    requires Roomy(denominator) && 0 < deltaMinus.Value() && 0 < deltaPlus0.Value()
    requires BelowTen(numerator.Value(), deltaPlus0.Value(), denominator.Value(), isEven)
    requires LongEnough(buffer.Length, denominator.Value(), deltaMinus.Value() + deltaPlus0.Value())
    modifies numerator, numerator.bigits, deltaMinus, deltaMinus.bigits, deltaPlus0, deltaPlus0.bigits, buffer
    ensures 1 <= length <= buffer.Length && IsDecimal(buffer[..length])
    ensures Shortest(old(numerator.Value()), old(denominator.Value()), old(deltaMinus.Value()), old(deltaPlus0.Value()),
                     isEven, Dec(buffer[..length]), length)
  {
    hide V, Scale, Pow10, NoneInside, Shortest, Generating, Bignum.Valid, Bignum.Raw, Bignum.Value;
    ghost var num, den, below, above :=
      numerator.Value(), denominator.Value(), deltaMinus.Value(), deltaPlus0.Value();
    numerator.ValueRange();
    GeneratingStart(num, den, below, above, isEven);
    var equal := Compare(deltaMinus, deltaPlus0);
    var deltaPlus := if equal == 0 then deltaMinus else deltaPlus0;
    length := 0;
    var done := false;
    while !done
      invariant numerator.Valid() && denominator.Valid() && deltaMinus.Valid() && deltaPlus.Valid()
      invariant deltaPlus == deltaMinus || deltaPlus == deltaPlus0
      invariant Roomy(denominator) && denominator.Value() == den
      invariant !done ==> 0 < deltaMinus.Value() && 0 < deltaPlus.Value() && length < buffer.Length
      invariant 0 <= length <= buffer.Length && IsDecimal(buffer[..length])
      invariant !done ==> Generating(num, den, below, above, isEven, Dec(buffer[..length]),
                                     numerator.Value(), deltaMinus.Value(), deltaPlus.Value(), length)
      invariant done ==> 1 <= length && Shortest(num, den, below, above, isEven, Dec(buffer[..length]), length)
      decreases !done, buffer.Length - length
    {
      done := ShortestStep(numerator, denominator, deltaMinus, deltaPlus, isEven, buffer, length, num, below, above);
      length := length + 1;
    }
  }

  /** One turn of the loop: a digit, and either the last decision or ten times everything. */
  method ShortestStep(numerator: Bignum, denominator: Bignum, deltaMinus: Bignum, deltaPlus: Bignum, isEven: bool,
                      buffer: array<int>, length: nat, ghost num: int, ghost below: int, ghost above: int)
      returns (done: bool)
    requires numerator.Valid() && denominator.Valid() && deltaMinus.Valid() && deltaPlus.Valid()
    requires Separate(numerator, denominator) && Separate(numerator, deltaMinus) && Separate(numerator, deltaPlus)
    requires Separate(denominator, deltaMinus) && Separate(denominator, deltaPlus)
    requires deltaMinus == deltaPlus || Separate(deltaMinus, deltaPlus)
    requires buffer != numerator.bigits && buffer != denominator.bigits
    requires buffer != deltaMinus.bigits && buffer != deltaPlus.bigits
    requires Roomy(denominator) && 0 < deltaMinus.Value() && 0 < deltaPlus.Value()
    requires length < buffer.Length && IsDecimal(buffer[..length])
    requires LongEnough(buffer.Length, denominator.Value(), below + above)
    requires Generating(num, denominator.Value(), below, above, isEven, Dec(buffer[..length]),
                        numerator.Value(), deltaMinus.Value(), deltaPlus.Value(), length)
    modifies numerator, numerator.bigits, deltaMinus, deltaMinus.bigits, deltaPlus, deltaPlus.bigits, buffer
    ensures numerator.Valid() && deltaMinus.Valid() && deltaPlus.Valid()
    ensures IsDecimal(buffer[..length + 1])
    ensures done ==> Shortest(num, denominator.Value(), below, above, isEven, Dec(buffer[..length + 1]), length + 1)
    ensures !done ==> 0 < deltaMinus.Value() && 0 < deltaPlus.Value() && length + 1 < buffer.Length
    ensures !done ==> Generating(num, denominator.Value(), below, above, isEven, Dec(buffer[..length + 1]),
                                 numerator.Value(), deltaMinus.Value(), deltaPlus.Value(), length + 1)
  {
    hide V, Scale, Pow10, Dec, NoneInside, Shortest, Generating, Bignum.Valid, Bignum.Raw, Bignum.Value;
    ghost var den, w, n := denominator.Value(), Dec(buffer[..length]), numerator.Value();
    ghost var dm, dp := deltaMinus.Value(), deltaPlus.Value();
    GeneratingBounds(num, den, below, above, isEven, w, n, dm, dp, length);
    var digit, roomMinus, roomPlus := NextDigit(numerator, denominator, deltaMinus, deltaPlus, isEven);
    ghost var r := numerator.Value();
    done := roomMinus || roomPlus;
    if !done {
      NoRoomYet(num, den, below, above, isEven, w, n, dm, dp, length, digit, r);
      RoomInBuffer(buffer.Length, num, den, below, above, isEven, w, n, dm, dp, length, r);
      StoreDigit(buffer, length, digit);
      ScaleUp(numerator, denominator, deltaMinus, deltaPlus);
    } else {
      LastDigit(numerator, denominator, digit, roomMinus, roomPlus, isEven, buffer, length,
                num, below, above, w, n, dm, dp);
    }
  }

  /** Decides on the last digit and stores it. */
  method LastDigit(numerator: Bignum, denominator: Bignum, digit0: nat, roomMinus: bool, roomPlus: bool, isEven: bool,
                   buffer: array<int>, length: nat, ghost num: int, ghost below: int, ghost above: int,
                   ghost w: int, ghost n: int, ghost dm: int, ghost dp: int)
    requires numerator.Valid() && denominator.Valid() && (roomMinus || roomPlus) && digit0 <= 9 && 0 < dm && 0 < dp
    requires buffer != numerator.bigits && buffer != denominator.bigits
    requires length < buffer.Length && IsDecimal(buffer[..length]) && w == Dec(buffer[..length])
    requires n == digit0 * denominator.Value() + numerator.Value()
    requires 0 <= numerator.Value() < denominator.Value()
    requires roomMinus <==> RoomBelow(numerator.Value(), dm, isEven)
    requires roomPlus <==> RoomAbove(numerator.Value(), denominator.Value(), dp, isEven)
    requires Generating(num, denominator.Value(), below, above, isEven, w, n, dm, dp, length)
    modifies buffer
    ensures IsDecimal(buffer[..length + 1])
    ensures Shortest(num, denominator.Value(), below, above, isEven, Dec(buffer[..length + 1]), length + 1)
  {
    hide V, Scale, Pow10, Dec, NoneInside, Shortest, Generating, Bignum.Valid, Bignum.Raw, Bignum.Value;
    ghost var den, r := denominator.Value(), numerator.Value();
    var digit := digit0;
    var up := RaiseLastDigit(numerator, denominator, digit, roomMinus, roomPlus);
    Settled(num, den, below, above, isEven, w, n, dm, dp, length, digit, r, up);
    if up {
      NoNineToRaise(num, den, below, above, isEven, w, n, dm, dp, length, digit, r);
      digit := digit + 1;
    }
    StoreDigit(buffer, length, digit);
  }

  lemma GeneratingBounds(num: int, den: int, below: int, above: int, closed: bool,
                         w: int, n: int, dm: int, dp: int, length: nat)
    requires Generating(num, den, below, above, closed, w, n, dm, dp, length) && 0 < dp
    ensures 0 <= n < 10 * den && 0 < den
  {
  }

  lemma GeneratingStart(num: int, den: int, below: int, above: int, closed: bool)
    requires 0 <= num && BelowTen(num, above, den, closed)
    ensures Generating(num, den, below, above, closed, Dec([]), num, below, above, 0)
  {
  }

  lemma RoomInBuffer(size: nat, num: int, den: int, below: int, above: int, closed: bool,
                     w: int, n: int, dm: int, dp: int, length: nat, r: int)
    requires LongEnough(size, den, below + above) && length < size
    requires Generating(num, den, below, above, closed, w, n, dm, dp, length)
    requires !RoomBelow(r, dm, closed) && !RoomAbove(r, den, dp, closed)
    ensures length + 1 < size
  {
    var p := Pow10(length);
    assert (below + above) * p == below * p + above * p;
  }

  /** Prepares for the next digit: everything but the denominator becomes ten times as large. */
  method ScaleUp(numerator: Bignum, denominator: Bignum, deltaMinus: Bignum, deltaPlus: Bignum)
    requires numerator.Valid() && denominator.Valid() && deltaMinus.Valid() && deltaPlus.Valid()
    requires Separate(numerator, denominator) && Separate(numerator, deltaMinus) && Separate(numerator, deltaPlus)
    requires Separate(denominator, deltaMinus) && Separate(denominator, deltaPlus)
    requires deltaMinus == deltaPlus || Separate(deltaMinus, deltaPlus)
    requires Roomy(denominator) && numerator.Value() < denominator.Value()
    requires deltaMinus.Value() < denominator.Value() && deltaPlus.Value() < denominator.Value()
    modifies numerator, numerator.bigits, deltaMinus, deltaMinus.bigits, deltaPlus, deltaPlus.bigits
    ensures numerator.Valid() && deltaMinus.Valid() && deltaPlus.Valid()
    ensures numerator.Value() == 10 * old(numerator.Value())
    ensures deltaMinus.Value() == 10 * old(deltaMinus.Value())
    ensures deltaPlus.Value() == 10 * old(deltaPlus.Value())
  {
    hide V, Scale, Bignum.Valid, Bignum.Raw, Bignum.Value;
    DigitsBelowValue(numerator);
    DigitsBelowValue(deltaMinus);
    DigitsBelowValue(deltaPlus);
    numerator.Times10();
    deltaMinus.Times10();
    if deltaMinus != deltaPlus {
      deltaPlus.Times10();
    }
  }
}
