/**
  The fixed-capacity bignum: at most 128 digits of 28 bits, updated in place,
  and a count of hidden zero digits below them.
 */
module BignumModel {
  import opened Positional
  import opened DigitLoops
  import opened Powers
  import opened Squaring

  class Bignum {
    const bigits: array<int>
    var used: nat
    var exponent: nat

    /** Digits in range and nothing but zeros above them; leading zeros allowed. */
    ghost predicate Raw()
      reads this, bigits
    {
      && bigits.Length == CAPACITY && used <= CAPACITY
      && (forall i :: 0 <= i < used ==> 0 <= bigits[i] < BASE)
      && (forall i :: used <= i < CAPACITY ==> bigits[i] == 0)
    }

    /** Raw, and clamped: no leading zeros, and zero has no hidden digits. */
    ghost predicate Valid()
      reads this, bigits
      ensures Valid() ==> Raw()
    {
      && Raw()
      && (used == 0 ==> exponent == 0)
      && (used > 0 ==> bigits[used - 1] != 0)
    }

    ghost function Digits(): (s: seq<int>)
      reads this, bigits
      requires Raw()
      ensures IsDigits(s)
    {
      bigits[..used]
    }

    ghost function Value(): int
      reads this, bigits
      requires Raw()
    {
      Scale(V(Digits()), exponent)
    }

    function BigitLength(): nat
      reads this
    {
      used + exponent
    }

    function BigitAt(index: int): int
      reads this, bigits
      requires Raw() && 0 <= index
    {
      if index >= BigitLength() then 0
      else if index < exponent then 0
      else bigits[index - exponent]
    }

    /** The lowest n digits, hidden ones included. */
    ghost function Padded(n: nat): (s: seq<int>)
      reads this, bigits
      requires Raw()
      ensures |s| == n && IsDigits(s)
      ensures forall i :: 0 <= i < n ==> s[i] == BigitAt(i)
    {
      if n == 0 then [] else Padded(n - 1) + [BigitAt(n - 1)]
    }

    lemma PaddedValue(n: nat)
      requires Raw() && BigitLength() <= n
      ensures V(Padded(n)) == Value()
    {
      var hi := Zeros(n - BigitLength());
      assert Padded(n) == Zeros(exponent) + (Digits() + hi);
      VHiddenZeros(exponent, Digits() + hi);
      VLeadingZeros(Digits(), n - BigitLength());
    }

    lemma ValueRange()
      requires Valid()
      ensures 0 <= Value() < Scale(1, BigitLength())
      ensures used > 0 ==> Scale(1, BigitLength() - 1) <= Value()
      ensures used > 0 ==>
        Scale(bigits[used - 1], BigitLength() - 1) <= Value() < Scale(bigits[used - 1] + 1, BigitLength() - 1)
      ensures used == 0 <==> Value() == 0
    {
      VBound(Digits());
      ScaleMonotone(0, V(Digits()), exponent);
      ScaleMonotone(V(Digits()), Scale(1, used), exponent);
      ScaleSum(1, used, exponent);
      if used > 0 {
        var d := bigits[used - 1];
        VTop(Digits());
        ScaleMonotone(Scale(d, used - 1), V(Digits()), exponent);
        ScaleMonotone(V(Digits()), Scale(d + 1, used - 1), exponent);
        ScaleSum(d, used - 1, exponent);
        ScaleSum(d + 1, used - 1, exponent);
        ScaleMonotone(1, d, BigitLength() - 1);
        ScaleGrows(0, BigitLength() - 1);
      }
    }

    constructor ()
      ensures Valid() && fresh(bigits) && Value() == 0
    {
      bigits := new int[CAPACITY](_ => 0);
      used, exponent := 0, 0;
    }

    method Clamp()
      requires Raw()
      modifies this
      ensures Valid() && Value() == old(Value())
      ensures exponent == (if used == 0 then 0 else old(exponent)) && used <= old(used)
    {
      while used > 0 && bigits[used - 1] == 0
        invariant Raw() && exponent == old(exponent) && used <= old(used)
        invariant V(Digits()) == V(old(Digits()))
      {
        assert bigits[..used] == bigits[..used - 1] + Zeros(1);
        VLeadingZeros(bigits[..used - 1], 1);
        used := used - 1;
      }
      if used == 0 {
        ScaleMonotone(0, 0, exponent);
        exponent := 0;
      }
    }

    method Zero()
      requires Raw()
      modifies this, bigits
      ensures Valid() && Value() == 0 && used == 0 && exponent == 0
    {
      for i := 0 to used
        modifies bigits
        invariant forall k :: 0 <= k < i ==> bigits[k] == 0
        invariant forall k :: used <= k < CAPACITY ==> bigits[k] == 0
      {
        bigits[i] := 0;
      }
      used, exponent := 0, 0;
    }

    /** Room to make the hidden digits down to other's explicit. */
    ghost predicate CanAlign(other: Bignum)
      reads this, other
    {
      exponent > other.exponent ==> BigitLength() - other.exponent <= CAPACITY
    }

    method Align(other: Bignum)
      requires Valid() && other != this && CanAlign(other)
      modifies this, bigits
      ensures Valid() && Value() == old(Value())
      ensures exponent <= other.exponent && BigitLength() == old(BigitLength())
    {
      hide V, Scale;
      if exponent > other.exponent {
        var zeros := exponent - other.exponent;
        ghost var s := Digits();
        InsertZeros(bigits, used, zeros);
        used := used + zeros;
        exponent := exponent - zeros;
        assert bigits[used - 1] == s[|s| - 1];
        VHiddenZeros(zeros, s);
        ScaleSum(V(s), zeros, exponent);
      }
    }

    // ---------- Multiplication ----------

    /** Writes a carry out above the digits. */
    method SpillCarry(carry0: nat)
      requires Raw() && used > 0 && V(Digits()) + Scale(carry0, used) < Scale(1, CAPACITY)
      requires carry0 == 0 ==> bigits[used - 1] != 0
      modifies this, bigits
      ensures Valid() && exponent == old(exponent)
      ensures V(Digits()) == V(old(Digits())) + Scale(carry0, old(used))
    {
      hide V, Scale;
      ghost var total := V(Digits()) + Scale(carry0, used);
      var carry: nat := carry0;
      while carry != 0
        invariant Raw() && used > 0 && exponent == old(exponent)
        invariant V(Digits()) + Scale(carry, used) == total
        invariant carry == 0 ==> bigits[used - 1] != 0
        decreases carry
      {
        RoomForCarry(Digits(), carry, total);
        ghost var s := Digits();
        bigits[used] := carry % BASE;
        used := used + 1;
        AppendDigit(s, carry % BASE, carry / BASE);
        assert Digits() == s + [carry % BASE];
        carry := carry / BASE;
      }
      ScaleMonotone(0, 0, used);
    }

    /** The shared end of the multiplications: the columns are done, a carry is left. */
    method FinishProduct(carry: nat, factor: nat, ghost s: seq<int>, ghost w: Pass)
      requires bigits.Length == CAPACITY && 0 < used == |s| <= CAPACITY && Trimmed(s) && 1 <= factor
      requires forall i :: used <= i < CAPACITY ==> bigits[i] == 0
      requires bigits[..used] == w.done && Passing(w, Multiple(s, factor), carry)
      requires factor * V(s) < Scale(1, CAPACITY)
      modifies this, bigits
      ensures Valid() && exponent == old(exponent)
      ensures V(Digits()) == factor * V(s)
    {
      hide V, Scale;
      ProductOf(s, factor, w, carry);
      SpillCarry(carry);
    }

    /** The columns of the product by a 32-bit factor. */
    method ProductDigits(factor: nat) returns (carry: nat, ghost w: Pass)
      requires Valid() && 0 < used && 1 <= factor < TWO32
      modifies bigits
      ensures |w.done| == used && bigits[..used] == w.done && Passing(w, Multiple(old(Digits()), factor), carry)
      ensures forall i :: used <= i < CAPACITY ==> bigits[i] == 0
    {
      hide V, Scale;
      ghost var s, orig := Digits(), bigits[..];
      carry, w := MultiplyColumns(bigits, used, factor, orig, Multiple(s, factor));
      OverlayBottom(orig, w.done);
    }

    method MultiplyByUInt32(factor: nat)
      requires Valid() && factor < TWO32
      requires factor * V(Digits()) < Scale(1, CAPACITY)
      modifies this, bigits
      ensures Valid() && Value() == factor * old(Value()) && exponent <= old(exponent)
    {
      hide V, Scale, Passing;
      if factor == 1 {
        return;
      }
      if factor == 0 {
        Zero();
        return;
      }
      ghost var s, e := Digits(), exponent;
      if used == 0 {
        EmptyValue(s, e);
        return;
      }
      var carry, w := ProductDigits(factor);
      FinishProduct(carry, factor, s, w);
      ScaleTimes(factor, V(s), e);
    }

    /** The columns of the product by a 64-bit factor. */
    method ProductDigits64(factor: nat) returns (carry: nat, ghost w: Pass)
      requires Valid() && 1 <= factor < TWO64
      modifies bigits
      ensures |w.done| == used && bigits[..used] == w.done && Passing(w, Multiple(old(Digits()), factor), carry)
      ensures forall i :: used <= i < CAPACITY ==> bigits[i] == 0
    {
      hide V, Scale;
      ghost var s, orig := Digits(), bigits[..];
      carry, w := MultiplyColumns64(bigits, used, factor, orig, Multiple(s, factor));
      OverlayBottom(orig, w.done);
    }

    method MultiplyByUInt64(factor: nat)
      requires Valid() && factor < TWO64
      requires factor * V(Digits()) < Scale(1, CAPACITY)
      modifies this, bigits
      ensures Valid() && Value() == factor * old(Value()) && exponent <= old(exponent)
    {
      hide V, Scale, Passing;
      if factor == 1 {
        return;
      }
      if factor == 0 {
        Zero();
        return;
      }
      ghost var s, e := Digits(), exponent;
      var carry, w := ProductDigits64(factor);
      if used == 0 {
        assert Digits() == s;
        EmptyValue(s, e);
        return;
      }
      FinishProduct(carry, factor, s, w);
      ScaleTimes(factor, V(s), e);
    }

    method Times10()
      requires Valid() && 10 * V(Digits()) < Scale(1, CAPACITY)
      modifies this, bigits
      ensures Valid() && Value() == 10 * old(Value())
    {
      MultiplyByUInt32(10);
    }

    method BigitsShiftLeft(shift: nat)
      requires Valid() && 0 < used < CAPACITY && shift < 28
      modifies this, bigits
      ensures Valid() && exponent == old(exponent) && V(Digits()) == Pow2(shift) * V(old(Digits()))
    {
      var carry, done := ShiftDigits(shift);
      AppendCarry(carry, done);
    }

    method ShiftDigits(shift: nat) returns (carry: nat, ghost done: seq<int>)
      requires Valid() && 0 < used < CAPACITY && shift < 28
      modifies bigits
      ensures bigits[..used] == done && IsDigits(done) && carry < BASE
      ensures carry == 0 ==> done[|done| - 1] != 0
      ensures forall i :: used <= i < CAPACITY ==> bigits[i] == 0
      ensures V(done) + Scale(carry, |done|) == Pow2(shift) * V(old(Digits()))
    {
      hide V, Scale, Pow2, Passing, Overlay;
      ghost var s, orig, f := Digits(), bigits[..], Pow2(shift);
      ghost var w: Pass;
      carry, w := ShiftColumns(bigits, used, shift, orig, Multiple(s, f));
      OverlayBottom(orig, w.done);
      ProductOf(s, f, w, carry);
      done := w.done;
    }

    method AppendCarry(carry: nat, ghost done: seq<int>)
      requires bigits.Length == CAPACITY && 0 < used == |done| < CAPACITY && carry < BASE
      requires forall i :: used <= i < CAPACITY ==> bigits[i] == 0
      requires bigits[..used] == done && IsDigits(done) && (carry == 0 ==> done[|done| - 1] != 0)
      modifies this, bigits
      ensures Valid() && exponent == old(exponent)
      ensures V(Digits()) == V(done) + Scale(carry, |done|)
    {
      hide V, Scale;
      AppendDigit(done, carry, 0);
      ScaleMonotone(0, 0, used + 1);
      ScaleMonotone(0, 0, used);
      assert forall i :: 0 <= i < used ==> bigits[i] == done[i];
      if carry != 0 {
        bigits[used] := carry;
        used := used + 1;
        assert bigits[..used] == done + [carry];
      }
    }

    method ShiftLeft(shift: nat)
      requires Valid() && used < CAPACITY
      modifies this, bigits
      ensures Valid() && Value() == Pow2(shift) * old(Value())
    {
      if used == 0 {
        EmptyValue(Digits(), exponent);
        return;
      }
      hide V, Scale, Pow2;
      ghost var s, e := Digits(), exponent;
      exponent := exponent + shift / 28;
      BigitsShiftLeft(shift % 28);
      ShiftedValue(V(s), e, shift);
    }

    // ---------- Subtraction ----------

    method SubtractBignum(other: Bignum)
      requires Valid() && other.Valid() && other != this && other.bigits != bigits
      requires CanAlign(other) && other.Value() <= Value()
      modifies this, bigits
      ensures Valid() && Value() == old(Value()) - other.Value()
      ensures exponent <= other.exponent
    {
      Align(other);
      TakeOnce(other);
      Clamp();
    }

    method TakeOnce(other: Bignum)
      requires Valid() && other.Valid() && other.bigits != bigits
      requires exponent <= other.exponent && other.Value() <= Value()
      modifies bigits
      ensures Raw() && Value() == old(Value()) - other.Value()
    {
      hide V, Scale;
      var offset := other.exponent - exponent;
      ghost var s, t, e := Digits(), other.Digits(), exponent;
      AlignedSubtrahend(s, e, t, offset, 1);
      assert s[offset..] == bigits[offset..used];
      SubtractRow(bigits, used, offset, other.bigits, other.used);
      ReplacedDigits(bigits, s, used, offset);
      ReplaceHigh(s, offset, bigits[offset..used], 1 * V(t));
    }

    method SubtractRepeatedly(other: Bignum, times: nat)
      requires Valid() && other.Valid() && other != this && other.bigits != bigits
      requires exponent <= other.exponent && times * other.Value() <= Value()
      modifies this, bigits
      ensures Valid() && Value() == old(Value()) - times * other.Value()
      ensures exponent <= other.exponent
    {
      hide V, Scale, Bignum.Value;
      ghost var before, step := Value(), other.Value();
      other.ValueRange();
      for i := 0 to times
        invariant Valid() && other.Valid() && exponent <= other.exponent && other.Value() == step
        invariant Value() == before - i * step
      {
        OneMore(i, times, step);
        SubtractBignum(other);
      }
    }

    method SubtractTimes(other: Bignum, factor: nat)
      requires Valid() && other.Valid() && other != this && other.bigits != bigits
      requires exponent <= other.exponent && factor < BASE && factor * other.Value() <= Value()
      modifies this, bigits
      ensures Valid() && Value() == old(Value()) - factor * other.Value()
      ensures exponent <= other.exponent
    {
      if factor < 3 {
        SubtractRepeatedly(other, factor);
        return;
      }
      var early := TakeMultiple(other, factor);
      if early {
        return;
      }
      Clamp();
    }

    method TakeMultiple(other: Bignum, factor: nat) returns (early: bool)
      requires Valid() && other.Valid() && other.bigits != bigits
      requires exponent <= other.exponent && 1 <= factor < BASE && factor * other.Value() <= Value()
      modifies bigits
      ensures Raw() && Value() == old(Value()) - factor * other.Value()
      ensures early ==> Valid()
    {
      hide V, Scale;
      var offset := other.exponent - exponent;
      ghost var s, t, e := Digits(), other.Digits(), exponent;
      AlignedSubtrahend(s, e, t, offset, factor);
      assert s[offset..] == bigits[offset..used];
      early := SubtractTimesRow(bigits, used, offset, other.bigits, other.used, factor);
      ghost var m := factor * V(t);
      ReplacedDigits(bigits, s, used, offset);
      ReplaceHigh(s, offset, bigits[offset..used], m);
    }

    // ---------- Division ----------

    /** The top digit brackets the value; place is the place value of that digit. */
    lemma TopBounds() returns (place: int)
      requires Valid() && used > 0
      ensures place == Scale(1, BigitLength() - 1) > 0
      ensures bigits[used - 1] * place <= Value() < (bigits[used - 1] + 1) * place
    {
      place := Scale(1, BigitLength() - 1);
      ValueRange();
      ScaleGrows(0, BigitLength() - 1);
      hide V, Scale;
      ScaleTimes(bigits[used - 1], 1, BigitLength() - 1);
      ScaleTimes(bigits[used - 1] + 1, 1, BigitLength() - 1);
    }

    /**
      While this has more digits than other, takes away as many multiples of
      other as the top digit says. What is left is the remainder that lies
      within other of BASE^n; the lengths agree just when it has n digits.
     */
    method ReduceLength(other: Bignum) returns (result: nat)
      requires Valid() && other.Valid() && other != this && other.bigits != bigits
      requires other.used > 0 && exponent <= other.exponent && other.BigitLength() <= BigitLength()
      requires Value() < 0x10000 * other.Value()
      modifies this, bigits
      ensures Valid() && exponent <= other.exponent && used > 0
      ensures result < 0x10000 && result * other.Value() + Value() == old(Value())
      ensures BigitLength() <= other.BigitLength() && other.Value() > 0
      ensures BigitLength() == other.BigitLength() <==>
        || old(BigitLength()) == other.BigitLength()
        || Scale(1, other.BigitLength() - 1) <=
           RemainderNear(old(Value()), other.Value(), Scale(1, other.BigitLength()))
      ensures old(BigitLength()) > other.BigitLength() ==> Scale(1, other.BigitLength()) - other.Value() <= Value()
    {
      hide V, Scale, Bignum.Value, RemainderNear;
      ghost var divisor, taken := other.Value(), false;
      result := 0;
      ValueRange();
      other.ValueRange();
      while BigitLength() > other.BigitLength()
        invariant Valid() && other.Valid() && exponent <= other.exponent && used > 0 && Value() > 0
        invariant other.Value() == divisor
        invariant 0 <= result < 0x10000 && result * divisor + Value() == old(Value())
        invariant !taken ==> BigitLength() == old(BigitLength())
        invariant taken ==> Scale(1, other.BigitLength()) - divisor <= Value()
        invariant taken ==> old(BigitLength()) > other.BigitLength()
        decreases Value()
      {
        ghost var before := Value();
        var top := TakeTopMultiple(other);
        taken := true;
        QuotientFits(result, top, before, divisor, old(Value()));
        result := (result + top % 0x10000) % 0x10000;
      }
      if taken { LengthOfRemainder(old(Value()), other, result); }
    }

    /** The remainder in the last stretch below BASE^n tells its own length. */
    lemma LengthOfRemainder(whole: int, other: Bignum, result: int)
      requires Valid() && other.Valid() && used > 0 && other.used > 0 && other.Value() > 0
      requires BigitLength() <= other.BigitLength() && result * other.Value() + Value() == whole
      requires Scale(1, other.BigitLength()) - other.Value() <= Value()
      ensures BigitLength() == other.BigitLength() <==>
        Scale(1, other.BigitLength() - 1) <= RemainderNear(whole, other.Value(), Scale(1, other.BigitLength()))
    {
      hide V, Scale, Bignum.Value;
      ValueRange();
      ScaleGrows(BigitLength(), other.BigitLength());
      RemainderNearIs(whole, other.Value(), Scale(1, other.BigitLength()), result, Value());
      if BigitLength() < other.BigitLength() { ScaleGrows(BigitLength(), other.BigitLength() - 1); }
    }

    /** Takes away as many multiples of a shorter number as the top digit says. */
    method TakeTopMultiple(other: Bignum) returns (top: int)
      requires Valid() && other.Valid() && other != this && other.bigits != bigits && used > 0
      requires other.used > 0 && exponent <= other.exponent && other.BigitLength() < BigitLength()
      modifies this, bigits
      ensures Valid() && exponent <= other.exponent && used > 0 && 0 < Value() < old(Value())
      ensures 1 <= top < BASE && old(Value()) == top * other.Value() + Value()
      ensures Scale(1, other.BigitLength()) - other.Value() <= Value()
    {
      hide V, Scale;
      ghost var divisor, before := other.Value(), Value();
      ghost var place := TopBounds();
      top := bigits[used - 1];
      ScaleGrows(other.BigitLength(), BigitLength() - 1);
      other.ValueRange();
      TopMultiple(before, divisor, top, place, Scale(1, other.BigitLength()));
      SubtractTimes(other, top);
      ValueRange();
    }

    /** One digit too short only happens when other's top digit is the largest, and not its only one. */
    lemma ShortRemainder(other: Bignum)
      requires Valid() && other.Valid() && other.used > 0 && BigitLength() < other.BigitLength()
      requires Scale(1, other.BigitLength()) - other.Value() <= Value()
      ensures other.bigits[other.used - 1] == BASE - 1 && other.used >= 2
      ensures Value() < Scale(1, other.BigitLength() - 1)
    {
      var top, lo := other.bigits[other.used - 1], other.BigitLength();
      ValueRange();
      ScaleGrows(BigitLength(), lo - 1);
      ScaleSum(1, lo - 1, 1);
      ScaleOne(Scale(1, lo - 1));
      if other.used == 1 { other.SingleDigitValue(); }
      hide V, Scale;
      var place := other.TopBounds();
      if top < BASE - 1 { MulMonotone(top + 1, BASE - 1, place); }
      if other.used == 1 { MulMonotone(top, BASE - 1, place); }
    }

    lemma SingleDigitValue()
      requires Valid() && used == 1
      ensures Value() == bigits[0] * Scale(1, BigitLength() - 1)
    {
      assert V(Digits()) == bigits[0];
      ScaleTimes(bigits[0], 1, exponent);
    }

    /** Division by a number with a single digit above its hidden ones. */
    method DivideBySingle(other: Bignum) returns (quotient: nat)
      requires Valid() && other.Valid() && other != this && other.bigits != bigits
      requires used > 0 && other.used == 1 && BigitLength() == other.BigitLength()
      requires exponent <= other.exponent
      modifies this, bigits
      ensures Valid() && Value() == old(Value()) - quotient * other.Value()
      ensures 0 <= Value() < other.Value()
    {
      hide V, Scale, Bignum.Value;
      ghost var place := TopBounds();
      other.SingleDigitValue();
      var thisBigit, otherBigit := bigits[used - 1], other.bigits[0];
      quotient := thisBigit / otherBigit;
      TopDigitDivision(Value(), thisBigit, otherBigit, place);
      LowerTopDigit(otherBigit, quotient);
    }

    /** Takes a multiple of a digit off the top digit. */
    method LowerTopDigit(digit: int, count: int)
      requires Valid() && used > 0 && 0 <= bigits[used - 1] - digit * count < BASE
      modifies this, bigits
      ensures Valid() && Value() == old(Value()) - count * (digit * Scale(1, old(BigitLength()) - 1))
    {
      hide V, Scale;
      ghost var s, e, n := Digits(), exponent, used - 1;
      bigits[used - 1] := bigits[used - 1] - digit * count;
      assert bigits[..n] == s[..n];
      ReplaceTop(s, bigits[..used], digit * count, e);
      ScaleTimes(digit * count, 1, n + e);
      Reassociate(digit, count, Scale(1, n + e));
      Clamp();
    }

    /**
      Division by a number of several digits, of the same length as this or one
      digit longer: an estimate from the top digits, corrected by subtraction.
     */
    method DivideByLonger(other: Bignum) returns (quotient: nat)
      requires Valid() && other.Valid() && other != this && other.bigits != bigits
      requires used > 0 && other.used >= 2 && exponent <= other.exponent
      requires BigitLength() <= other.BigitLength()
      requires BigitLength() < other.BigitLength() ==>
        other.bigits[other.used - 1] == BASE - 1 && Value() < Scale(1, other.BigitLength() - 1)
      modifies this, bigits
      ensures Valid() && 0 <= Value() < other.Value()
      ensures Value() == old(Value()) - quotient * other.Value()
    {
      hide V, Scale;
      ghost var divisor, before := other.Value(), Value();
      ghost var place := other.TopBounds();
      ghost var mine := TopBounds();
      ValueRange();
      var thisBigit, otherBigit := bigits[used - 1], other.bigits[other.used - 1];
      quotient := thisBigit / (otherBigit + 1);
      EstimateIsSafe(before, divisor, thisBigit, otherBigit, place, BigitLength() == other.BigitLength());
      var probe := otherBigit * (quotient + 1);
      assert probe < TWO32;
      SubtractTimes(other, quotient);
      if probe > thisBigit {
        ValueRange();
        return;
      }
      var more := SubtractWhileLarger(other);
      DistributeSum(quotient, more, divisor);
      quotient := quotient + more;
    }

    method SubtractWhileLarger(other: Bignum) returns (count: nat)
      requires Valid() && other.Valid() && other != this && other.bigits != bigits
      requires exponent <= other.exponent && other.Value() > 0
      modifies this, bigits
      ensures Valid() && 0 <= Value() < other.Value()
      ensures Value() == old(Value()) - count * other.Value()
    {
      hide V, Scale;
      ghost var divisor, before := other.Value(), Value();
      count := 0;
      var r := Compare(other, this);
      while r <= 0
        invariant Valid() && other.Valid() && exponent <= other.exponent && other.Value() == divisor
        invariant Value() == before - count * divisor
        invariant r == Sign(divisor - Value())
        decreases Value()
      {
        SubtractBignum(other);
        count := count + 1;
        r := Compare(other, this);
      }
      ValueRange();
    }

    method DivideModuloIntBignum(other: Bignum) returns (result: nat)
      requires Valid() && other.Valid() && other != this && other.bigits != bigits
      requires other.used > 0 && CanAlign(other)
      requires Value() < 0x10000 * other.Value()
      modifies this, bigits
      ensures other.Value() > 0
      ensures Valid() && result == old(Value()) / other.Value() && Value() == old(Value()) % other.Value()
    {
      hide V, Scale, Bignum.Value, RemainderNear;
      ghost var divisor, whole := other.Value(), Value();
      ValueRange();
      other.ValueRange();
      if BigitLength() < other.BigitLength() {
        ScaleGrows(BigitLength(), other.BigitLength() - 1);
        QuotientIs(whole, divisor, 0, whole);
        return 0;
      }
      Align(other);
      result := ReduceLength(other);
      if BigitLength() < other.BigitLength() { ShortRemainder(other); }
      ghost var rest := Value();
      var quotient;
      if other.used == 1 {
        quotient := DivideBySingle(other);
      } else {
        quotient := DivideByLonger(other);
      }
      QuotientOfParts(result, quotient, rest, divisor, whole, Value());
      result := (result + quotient % 0x10000) % 0x10000;
    }

    // ---------- Assignment ----------

    method AssignUInt16(value: nat)
      requires Raw() && value < 0x10000
      modifies this, bigits
      ensures Valid() && Value() == value && exponent == 0
    {
      Zero();
      if value == 0 {
        return;
      }
      bigits[0] := value;
      used := 1;
      assert Digits() == [value] && V([value]) == value;
    }

    method AssignUInt64(value: nat)
      requires Raw() && value < TWO64
      modifies this, bigits
      ensures Valid() && Value() == value && exponent == 0
    {
      Zero();
      if value == 0 {
        return;
      }
      var v := value;
      for i := 0 to 3
        invariant forall k :: i <= k < CAPACITY ==> bigits[k] == 0
        invariant IsDigits(bigits[..i]) && V(bigits[..i]) + Scale(v, i) == value && 0 <= v
        invariant i >= 1 ==> v < TWO64 / 0x1000_0000
        invariant i >= 2 ==> v < TWO64 / 0x1000_0000 / 0x1000_0000
        invariant i >= 3 ==> v == 0
        invariant used == 0 && exponent == 0
      {
        ghost var s := bigits[..i];
        bigits[i] := v % BASE;
        AppendDigit(s, v % BASE, v / BASE);
        assert bigits[..i + 1] == s + [v % BASE];
        v := v / BASE;
      }
      ScaleMonotone(0, 0, 3);
      used := 3;
      Clamp();
    }

    method AssignBignum(other: Bignum)
      requires Raw() && other.Valid() && other != this && other.bigits != bigits
      modifies this, bigits
      ensures Valid() && Value() == other.Value() && Digits() == other.Digits() && exponent == other.exponent
    {
      exponent := other.exponent;
      CopyDigits(bigits, used, other.bigits, other.used);
      used := other.used;
      assert Digits() == other.Digits();
    }

    // ---------- Powers ----------

    method Square()
      requires Valid() && 2 * used <= CAPACITY
      modifies this, bigits
      ensures Valid() && Value() == old(Value()) * old(Value())
      ensures exponent == if used == 0 then 0 else 2 * old(exponent)
    {
      hide V, Scale;
      ghost var s, e := Digits(), exponent;
      ghost var above := bigits[2 * used..];
      var w, acc := SquareDigits(bigits, used, s);
      assert forall k :: 2 * used <= k < CAPACITY ==> bigits[k] == above[k - 2 * used];
      PassComplete(w, Columns(s, s), acc);
      ColumnsValue(s, s);
      SquareLeavesNoCarry(s, V(w.done), acc);
      assert acc == 0;
      ScaleMonotone(0, 0, 2 * used);
      used := 2 * used;
      exponent := exponent * 2;
      assert Digits() == w.done;
      ScaleProduct(V(s), V(s), e, e);
      Clamp();
    }

    /** What the last, multi-digit part of AssignPowerUInt16 keeps: this is a power of base. */
    ghost predicate HoldsPower(base: nat, n: nat)
      reads this, bigits
    {
      Valid() && exponent == 0 && used > 0 && V(Digits()) == Pow(base, n)
    }

    /** One bit of the power: square, and multiply in the base when the bit is set. */
    method PowerStep(base: nat, bit: bool, ghost n: nat)
      requires HoldsPower(base, n) && 2 * used <= CAPACITY && 1 <= base < 0x10000
      requires bit ==> Pow(base, 2 * n + 1) < Scale(1, CAPACITY)
      modifies this, bigits
      ensures HoldsPower(base, 2 * n + if bit then 1 else 0)
    {
      hide V, Scale;
      PowAdd(base, n, n);
      PowAdd(base, 1, 2 * n);
      PowMonotone(base, base, 2 * n);
      assert Pow(base, 1) == base * Pow(base, 0) == base;
      PowMonotone(base, base, 2 * n + 1);
      hide Pow;
      PlainValue();
      Square();
      PlainValue();
      if bit {
        MultiplyByUInt32(base);
        PlainValue();
      }
      ValueRange();
    }

    /** Works through the remaining bits of the power. */
    method PowerByDigits(base: nat, bitSize: nat, power: nat, mask0: nat, ghost t0: nat)
      requires 1 <= base < Pow2(bitSize) && base < 0x10000 && bitSize * power / 28 + 2 <= CAPACITY
      requires mask0 == (if t0 == 0 then 0 else Pow2(t0 - 1)) && 1 <= Prefix(power, t0) <= power
      requires HoldsPower(base, Prefix(power, t0))
      modifies this, bigits
      ensures HoldsPower(base, power)
    {
      PrefixAll(power);
      hide V, Scale, Pow, Prefix;
      var mask := mask0;
      ghost var t := t0;
      while mask != 0
        invariant mask == if t == 0 then 0 else Pow2(t - 1)
        invariant 1 <= Prefix(power, t) <= power && HoldsPower(base, Prefix(power, t))
        decreases t
      {
        ghost var n := Prefix(power, t);
        NextBit(power, t);
        RoomForSquare(base, bitSize, power, n, Digits());
        PowerFits(base, bitSize, power, Prefix(power, t - 1));
        ScaleGrows(127, 128);
        PowerStep(base, (power / mask) % 2 != 0, n);
        mask := mask / 2;
        t := t - 1;
      }
    }

    lemma PlainValue()
      requires Raw() && exponent == 0
      ensures Value() == V(Digits())
    {
    }

    /** The final size that AssignPowerUInt16 asks for fits. */
    static ghost predicate PowerFitsIn(base: nat, power: nat)
      requires base > 0
    {
      BitLength(OddPart(base)) * power / 28 + 2 <= CAPACITY
    }

    method AssignPowerUInt16(base0: nat, power: nat)
      requires Raw() && 1 <= base0 < 0x10000 && PowerFitsIn(base0, power)
      modifies this, bigits
      ensures Valid() && Value() == Pow(base0, power)
    {
      if power == 0 {
        AssignUInt16(1);
        return;
      }
      Zero();
      var base, shifts := StripTwos(base0);
      var bitSize := CountBits(base);
      assert 1 <= base < 0x10000 && base < Pow2(bitSize) && bitSize <= 16 by {
        OddTimesTwos(base0);
        Pow2Sixteen();
        BitLengthBound(base, 16);
      }
      OddPower(base, bitSize, power);
      hide V, Scale, Pow, Pow2;
      PlainValue();
      PowerOfBase(base0, power);
      ShiftLeft(shifts * power);
    }

    /** The power of the odd part of the base. */
    method OddPower(base: nat, bitSize: nat, power: nat)
      requires Raw() && 1 <= base < Pow2(bitSize) && base < 0x10000 && bitSize <= 16 && 1 <= power
      requires bitSize * power / 28 + 2 <= CAPACITY
      modifies this, bigits
      ensures HoldsPower(base, power) && used < CAPACITY
    {
      hide V, Scale, Pow, Pow2, Prefix;
      var mask, t := SecondBit(power);
      var value, delayed;
      value, delayed, mask, t := PowerIn64Bits(base, bitSize, power, mask, t);
      LoadPower(base, bitSize, power, value, delayed, Prefix(power, t));
      PowerByDigits(base, bitSize, power, mask, t);
      RoomToShift(base, bitSize, power, Digits());
    }

    /** Stores the 64-bit value and makes up for the product that was left out. */
    method LoadPower(base: nat, ghost bitSize: nat, ghost power: nat, value: nat, delayed: bool, ghost n: nat)
      requires Raw() && 1 <= base < Pow2(bitSize) && base < 0x10000 && 1 <= value < TWO64
      requires bitSize * power / 28 + 2 <= CAPACITY && 1 <= n <= power
      requires (if delayed then base * value else value) == Pow(base, n)
      modifies this, bigits
      ensures HoldsPower(base, n)
    {
      hide V, Scale, Pow, Pow2;
      PowerFits(base, bitSize, power, n);
      ScaleGrows(127, 128);
      AssignUInt64(value);
      PlainValue();
      if delayed {
        MultiplyByUInt32(base);
        PlainValue();
      }
      ValueRange();
    }
  }

  lemma UsedBelow(x: Bignum, m: nat)
    requires x.Valid() && x.Value() < Scale(1, m)
    ensures x.BigitLength() <= m
  {
    x.ValueRange();
    hide V, Scale;
    if x.BigitLength() > m {
      ScaleGrows(m, x.BigitLength() - 1);
      assert false;
    }
  }

  method Compare(a: Bignum, b: Bignum) returns (r: int)
    requires a.Valid() && b.Valid()
    ensures r == Sign(a.Value() - b.Value())
  {
    hide V, Scale, Bignum.Value;
    var la: int, lb: int := a.BigitLength(), b.BigitLength();
    a.ValueRange();
    b.ValueRange();
    if la < lb {
      ScaleGrows(la, lb - 1);
      return -1;
    }
    if la > lb {
      ScaleGrows(lb, la - 1);
      return 1;
    }
    ghost var s, t, z := a.Padded(la), b.Padded(la), Zeros(la);
    DifferenceOfPadded(a, b, la);
    var low := if a.exponent < b.exponent then a.exponent else b.exponent;
    var i := la;
    while i > low
      invariant low <= i <= la
      invariant Excess(s, z, t, i) == 0
    {
      i := i - 1;
      var x, y := a.BigitAt(i), b.BigitAt(i);
      if x < y {
        assert Excess(s, z, t, i) < 0;
        ExcessSign(s, t, i);
        return -1;
      }
      if x > y {
        assert Excess(s, z, t, i) > 0;
        ExcessSign(s, t, i);
        return 1;
      }
    }
    ExcessHidden(s, z, t, i);
    return 0;
  }

  lemma DifferenceOfPadded(a: Bignum, b: Bignum, n: nat)
    requires a.Raw() && b.Raw() && a.BigitLength() <= n && b.BigitLength() <= n
    ensures Excess(a.Padded(n), Zeros(n), b.Padded(n), 0) == a.Value() - b.Value()
  {
    var s, t, z := a.Padded(n), b.Padded(n), Zeros(n);
    a.PaddedValue(n);
    b.PaddedValue(n);
    VZeros(n);
    assert s[0..] == s && t[0..] == t && z[0..] == z;
    ExcessValue(s, z, t, 0);
  }

  method PlusCompare(a: Bignum, b: Bignum, c: Bignum) returns (r: int)
    requires a.Valid() && b.Valid() && c.Valid()
    ensures r == Sign(a.Value() + b.Value() - c.Value())
    decreases a.BigitLength() < b.BigitLength()
  {
    if a.BigitLength() < b.BigitLength() {
      r := PlusCompare(b, a, c);
      return;
    }
    var n: int := c.BigitLength();
    PlusCompareExits(a, b, c);
    if a.BigitLength() + 1 < n {
      return -1;
    }
    if a.BigitLength() > n {
      return 1;
    }
    if a.exponent >= b.BigitLength() && a.BigitLength() < n {
      return -1;
    }
    ExcessOfPadded(a, b, c, n);
    r := PlusCompareDigits(a, b, c, a.Padded(n), b.Padded(n), c.Padded(n));
  }

  method Lowest(x: nat, y: nat, z: nat) returns (r: nat)
    ensures r <= x && r <= y && r <= z
    ensures r == x || r == y || r == z
  {
    r := if x < y then x else y;
    r := if r < z then r else z;
  }

  lemma ExcessOfPadded(a: Bignum, b: Bignum, c: Bignum, n: nat)
    requires a.Raw() && b.Raw() && c.Raw()
    requires a.BigitLength() <= n && b.BigitLength() <= n && c.BigitLength() <= n
    ensures Excess(a.Padded(n), b.Padded(n), c.Padded(n), 0) == a.Value() + b.Value() - c.Value()
  {
    var s, t, u := a.Padded(n), b.Padded(n), c.Padded(n);
    a.PaddedValue(n);
    b.PaddedValue(n);
    c.PaddedValue(n);
    assert s[0..] == s && t[0..] == t && u[0..] == u;
    ExcessValue(s, t, u, 0);
  }

  /** The digits of x, hidden ones included, are those of s. */
  ghost predicate HasDigits(x: Bignum, s: seq<int>)
    reads x, x.bigits
    requires x.Raw()
  {
    IsDigits(s) && forall i :: 0 <= i < |s| ==> s[i] == x.BigitAt(i)
  }

  /** The digit loop of PlusCompare, from the top digit of c down, carrying a borrow. */
  method PlusCompareDigits(a: Bignum, b: Bignum, c: Bignum, ghost s: seq<int>, ghost t: seq<int>, ghost u: seq<int>)
      returns (r: int)
    requires a.Valid() && b.Valid() && c.Valid()
    requires |s| == |t| == |u| == c.BigitLength()
    requires HasDigits(a, s) && HasDigits(b, t) && HasDigits(c, u)
    ensures r == Sign(Excess(s, t, u, 0))
  {
    hide V, Scale, Excess, Bignum.Value;
    NoExcess(s, t, u);
    var n: int := c.BigitLength();
    var borrow := 0;
    ghost var excess := 0;
    var low := Lowest(a.exponent, b.exponent, c.exponent);
    var i := n;
    while i > low
      invariant low <= i <= n
      invariant excess == Excess(s, t, u, i)
      invariant borrow == -0x1000_0000 * excess && -1 <= excess <= 0
    {
      i := i - 1;
      var sum := a.BigitAt(i) + b.BigitAt(i);
      var chunk := c.BigitAt(i);
      excess := sum - chunk - borrow;
      assert excess == Excess(s, t, u, i) by {
        ExcessUnroll(s, t, u, i);
      }
      ExcessDecided(s, t, u, i);
      if sum > chunk + borrow {
        return 1;
      } else {
        borrow := chunk + borrow - sum;
        if borrow > 1 {
          return -1;
        }
        borrow := borrow * 0x1000_0000;
      }
    }
    ExcessHidden(s, t, u, i);
    return if borrow == 0 then 0 else -1;
  }

  /** The three comparisons of digit counts that settle a sum without looking at digits. */
  lemma PlusCompareExits(a: Bignum, b: Bignum, c: Bignum)
    requires a.Valid() && b.Valid() && c.Valid() && b.BigitLength() <= a.BigitLength()
    ensures a.BigitLength() + 1 < c.BigitLength() ==> a.Value() + b.Value() < c.Value()
    ensures a.BigitLength() > c.BigitLength() ==> a.Value() + b.Value() > c.Value()
    ensures a.exponent >= b.BigitLength() && a.BigitLength() < c.BigitLength() ==> a.Value() + b.Value() < c.Value()
  {
    var la, lb, lc := a.BigitLength(), b.BigitLength(), c.BigitLength();
    a.ValueRange();
    b.ValueRange();
    c.ValueRange();
    ScaleGrows(lb, la);
    if la + 1 < lc {
      ScaleGrows(la, lc - 1);
    }
    if la > lc {
      ScaleGrows(lc, la - 1);
    }
    if a.exponent >= lb && la < lc {
      ScaleGrows(lb, a.exponent);
      ScaleGrows(la, lc - 1);
      VBound(a.Digits());
      ScaleAdd(V(a.Digits()), 1, a.exponent);
      ScaleMonotone(V(a.Digits()) + 1, Scale(1, a.used), a.exponent);
      ScaleSum(1, a.used, a.exponent);
    }
  }

  /**
    After the top-digit subtraction the two lengths need not agree: one times
    BASE^2 - 1 taken from BASE^2 leaves a single digit.
   */
  method LengthsCanDiffer() returns (x: Bignum, y: Bignum, result: nat)
    ensures fresh(x) && fresh(y) && x.Valid() && y.Valid()
    ensures y.Value() == BASE * BASE - 1 && result * y.Value() + x.Value() == BASE * BASE
    ensures x.BigitLength() == 1 && y.BigitLength() == 2
  {
    hide V, Bignum.Value;
    x := new Bignum();
    y := new Bignum();
    x.AssignUInt64(BASE * BASE);
    y.AssignUInt64(BASE * BASE - 1);
    LengthFromValue(x, 3);
    LengthFromValue(y, 2);
    result := x.ReduceLength(y);
    assert Scale(1, 1) == BASE && Scale(1, 2) == BASE * BASE;
    x.ValueRange();
  }

  lemma LengthFromValue(x: Bignum, n: nat)
    requires x.Valid() && n > 0 && Scale(1, n - 1) <= x.Value() < Scale(1, n)
    ensures x.BigitLength() == n && x.used > 0
  {
    x.ValueRange();
    ScaleGrows(0, n - 1);
    if x.BigitLength() < n {
      ScaleGrows(x.BigitLength(), n - 1);
    } else if x.BigitLength() > n {
      ScaleGrows(n, x.BigitLength() - 1);
    }
  }
}
