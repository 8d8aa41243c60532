# A verified core of cloudlibc

cloudlibc is the C library of CloudABI. This project models the parts of it
with the most intricate logic in Dafny 4.11 and proves what they are for:

- **Substring search** (`Words`, `TwoWay`): Crochemore and Perrin's two-way
  search behind `memmem()` and `strstr()`, from the critical factorization
  theorem to the leftmost occurrence, and its linear number of comparisons.
- **Printing floating point** (`Positional` to `DoubleToAscii`): the in-place
  bignum, exact shortest, fixed and counted digits, Grisu3 with its table of
  cached powers, the 128-bit fixed path. The end result is about all finite
  64-bit and 32-bit patterns: the shortest digits are the fewest that read back
  as the same number, and the other modes are correctly rounded, whichever path
  produced the digits.
- **Argdata** (`Subfield` to `Iterators`): the wire format and its
  serialisation, UTF-8 validation, timestamps, and the message writer and
  reader over a socket: what every call does, over every interleaving of calls,
  short transfers and failures, down to what becomes of each descriptor.
- **Sorting and comparing** (`Qsort`, `Strverscmp`): `qsort_r()` with its
  three-way partition, and the version order as a strict total order that
  compares integers and fractions by value and other text by character.
- **Hexadecimal floating point** (`Float16`, `Float16Rounding`): a 128-bit
  window with a sticky end rounds like the exact value of any number of digits,
  and what is returned stands for the rounded value.

Objects that the source updates in place are classes with their invariants
(`Bignum`, `UInt128`, `DiyFp`, `Socket`, `Writer`, `Reader`, `SeqIterator`,
`Encoder`); buffers are arrays; every loop of the source is a loop here. Words
of 32 and 64 bits are integers whose bounds are proved at every step, or whose
wrap-around is written out. Numbers that the source only approximates are
reals in the specifications. Where the source computes a logarithm in floating
point (`EstimatePower`, the lookup of cached powers), the model takes any
result within a small error of the exact product.

`dafny verify dfyconfig.toml` checks everything.

## Where the code and its description differ

- Ties in shortest mode. `double-conversion.h:309-310` promises the decimal
  farther from zero; `bignum-dtoa.cc:246-258` takes the even one. The double
  2^50 + 1/4 shows it (`Ties.HalfwayDouble`). `Ties.TiesAsDocumented` says for
  which significands and exponents the promise is broken: the odd part of the
  significand is 1 modulo 4, and the power of five for the last place is within
  bounds set by its power of two. With ties to even the result is unique
  (`Ties.ShortestIsUnique`).
- `fast-dtoa.cc:225-229` says that the power found does not exceed the number;
  with the stated precondition it can (`FastDtoa.BiggestPowerTenCanExceed`).
  `FastDtoa.BiggestPowerTenIs` has the exact condition, which all callers meet.
- `bignum.cc:515` asserts that dividend and divisor end up equally long; the
  dividend can be shorter (`BignumModel.LengthsCanDiffer`), exactly when the
  condition in `BignumModel.Bignum.ReduceLength` on the two numbers fails.
  Quotient and remainder are right all the same
  (`BignumModel.Bignum.DivideModuloIntBignum`).
- `fixed-dtoa.cc:262` shifts by minus one, which C does not define, for odd
  significands with a fraction of at most as many bits as decimals are asked for
  (`FixedDtoa.FastFixedDtoa`), such as (2^52 + 1) / 2 with one decimal
  (`FixedDtoa.ShiftByMinusOne`). Nothing is left of the fraction then; the model
  takes the bit to be zero.
- `twoway.h:114-115` is never reached (`TwoWay.MemoryNeverLengthensShift`).
- In `argdata_get_timestamp.c:89-90` the range check never fires, as the one
  before it has passed (`Timestamp.SecondCheckIdle`). Payloads of more than
  twelve bytes are out of range, also when only their sign is extended
  (`Timestamp.LongZero`); `Timestamp.ReadAsSplit` says exactly when that is
  right.
- A reader that rejected a message for its number of descriptors delivers it on
  the next call, with the descriptors that were accepted
  (`StreamRuns.RejectedThenDelivered`). A message shows the tree that was sent
  exactly if all its descriptors were accepted (`StreamRuns.ShowsIfAccepted`).
- `float16.h:125-132` rounds halfway cases up and not to even
  (`Float16Rounding.NearestIsHalfEven`, `Float16Rounding.TieGoesUp`). Numbers
  below the smallest subnormal become zero in every mode (`float16.h:219-228`),
  also those that round to it (`Float16Rounding.GivesUpTooEarly`);
  `Float16Rounding.ZeroIsRight` says exactly when zero is right. Numbers above
  the largest finite one become infinite also when truncating
  (`Float16Rounding.TruncatesToInfinity`, `Float16Rounding.InfiniteSingle`).
- The error analysis of Grisu3 needs cached powers that are right to half a
  unit; the table is (`CachedPowers.EntryIsPower`).

## Model

| member | source | states |
|---|---|---|
| `Words.CriticalFactorization` | src/common/twoway.h:16-23 | Critical factorization theorem: of the greatest suffixes under an order and its opposite, the shorter one starts at a critical cut: every local period there that stays inside the word is a period of the word |
| `Words.NoInnerSquare` | src/common/twoway.h:16-23 | The start of a greatest suffix repeats nothing that lies wholly before it: every local period there is longer than the prefix |
| `Words.PeriodsAtCriticalCut` | src/common/twoway.h:132-148 | At a critical cut every period of the word is longer than the prefix, and a period no longer than the suffix makes the smallest period of the suffix a period of the whole word |
| `TwoWay.MaximalSuffixIn` | src/common/twoway.h:27-57 | The scan returns the start of the greatest suffix under the given order and the smallest period of that suffix, after at most three comparisons for each letter |
| `TwoWay.MaximalSuffix` | src/common/twoway.h:61-74 | The longer-prefix choice is a critical cut of the needle, with the smallest period of its suffix |
| `TwoWay.Prepare` | src/common/twoway.h:99-136 | The comparison of the prefix with its shift decides exactly whether the period of the suffix is one of the whole needle; all of the preparation makes at most seven comparisons for each letter of the needle |
| `TwoWay.CutTest` | src/common/twoway.h:132-136 | The comparison of bytes is equivalent to periodicity, and stays inside the needle |
| `TwoWay.SuffixMismatch` | src/common/twoway.h:110-116 | After a mismatch in the suffix no occurrence starts at any of the positions skipped |
| `TwoWay.PrefixMismatch` | src/common/twoway.h:126-127 | After a mismatch in the prefix an occurrence can only start at a period of the needle |
| `TwoWay.PeriodShift` | src/common/twoway.h:141-144 | After a shift by the period the remembered prefix of the needle is already matched |
| `TwoWay.CompareSuffix` | src/common/twoway.h:106-109 | Stops at the first mismatch from the start of the comparison on |
| `TwoWay.ComparePrefix` | src/common/twoway.h:118-121 | Stops at the last mismatch before the cut, above what is remembered |
| `TwoWay.AfterPrefix` | src/common/twoway.h:126-153 | The shift after a mismatch in the prefix, longer than the prefix, skips no occurrence, and what it remembers is right |
| `TwoWay.Window` | src/common/twoway.h:105-130 | One window: either an occurrence, or a positive shift over positions none of which is an occurrence, with the memory still right; its comparisons are paid for by how far the window and the start of the comparisons move |
| `TwoWay.MemoryNeverLengthensShift` | src/common/twoway.h:112-115 | The second branch of the shift for a suffix mismatch is never taken: the condition before it always holds |
| `TwoWay.TwoWayMemMem` | src/common/twoway.h:88-158 | Finds the leftmost occurrence of the needle, or none if there is none, with at most 2 n + 7 m comparisons for n letters of haystack and m of needle |
| `TwoWay.CheckSpaceLeft` | src/common/twoway.h:77-85 | True exactly if the text has that many characters before its terminator; the end pointer never passes the terminator, and each character is looked at once |
| `TwoWay.TwoWayStrStr` | src/common/twoway.h:94-158 | The same for a terminated text whose length is found on the way, with at most 3 n + 7 m letters looked at |
| `TwoWay.MemMem` | src/libc/string/memmem.c:12-20 | memmem() returns the leftmost occurrence for every haystack and needle, the empty and the longer needle included, in linear time |
| `BignumModel.Bignum.constructor` | contrib/double-conversion-d8d4e66/double-conversion/bignum.cc:33-38 | A new bignum is zero, clamped, and owns its digits |
| `BignumModel.Bignum.Clamp` | contrib/double-conversion-d8d4e66/double-conversion/bignum.cc:673-681 | Removes leading zeros without changing the value; zero loses its hidden digits |
| `BignumModel.Bignum.Zero` | contrib/double-conversion-d8d4e66/double-conversion/bignum.cc:689-695 | Zero, with every used digit cleared |
| `BignumModel.Bignum.Align` | contrib/double-conversion-d8d4e66/double-conversion/bignum.cc:698-719 | Makes hidden digits explicit without changing the value or the length |
| `BignumModel.Bignum.AssignUInt16` | contrib/double-conversion-d8d4e66/double-conversion/bignum.cc:48-56 | The value assigned |
| `BignumModel.Bignum.AssignUInt64` | contrib/double-conversion-d8d4e66/double-conversion/bignum.cc:59-73 | The value assigned, spread over 28-bit digits |
| `BignumModel.Bignum.AssignBignum` | contrib/double-conversion-d8d4e66/double-conversion/bignum.cc:76-86 | The same value, digits and hidden digits as the other |
| `BignumModel.Bignum.MultiplyByUInt32` | contrib/double-conversion-d8d4e66/double-conversion/bignum.cc:247-270 | The value times the factor, for every 32-bit factor whose product fits the capacity |
| `BignumModel.Bignum.MultiplyByUInt64` | contrib/double-conversion-d8d4e66/double-conversion/bignum.cc:273-297 | The value times the factor, for every 64-bit factor; no intermediate sum exceeds 64 bits |
| `BignumModel.Bignum.Times10` | contrib/double-conversion-d8d4e66/double-conversion/bignum.h:62 | Ten times the value |
| `BignumModel.Bignum.BigitsShiftLeft` | contrib/double-conversion-d8d4e66/double-conversion/bignum.cc:722-735 | The digits times a power of two, the carry out becoming a new digit |
| `BignumModel.Bignum.ShiftLeft` | contrib/double-conversion-d8d4e66/double-conversion/bignum.cc:238-244 | The value times two to the shift |
| `BignumModel.Bignum.SubtractBignum` | contrib/double-conversion-d8d4e66/double-conversion/bignum.cc:211-235 | The difference, clamped; the borrow always dies out inside the number |
| `DigitLoops.SubtractRow` | contrib/double-conversion-d8d4e66/double-conversion/bignum.cc:219-233 | Subtracting digit by digit with a one-bit borrow is subtraction of the numbers, nothing outside the range changes |
| `BignumModel.Bignum.SubtractTimes` | contrib/double-conversion-d8d4e66/double-conversion/bignum.cc:738-763 | The value less factor times the other, for factors below and above three |
| `DigitLoops.SubtractTimesRow` | contrib/double-conversion-d8d4e66/double-conversion/bignum.cc:746-761 | The fused multiply and subtract with a wide borrow is the subtraction of the multiple; returning early leaves the top digit in place |
| `BignumModel.Bignum.Square` | contrib/double-conversion-d8d4e66/double-conversion/bignum.cc:340-409 | The square of the value, in place, with twice the hidden digits |
| `Squaring.SquareDigits` | contrib/double-conversion-d8d4e66/double-conversion/bignum.cc:360-403 | Every column sum is right although the digits it needs are overwritten column by column, and no accumulator exceeds 64 bits |
| `Squaring.ColumnsValue` | contrib/double-conversion-d8d4e66/double-conversion/bignum.cc:345-351 | Summing the column products with their weights is the product of the numbers |
| `BignumModel.Bignum.AssignPowerUInt16` | contrib/double-conversion-d8d4e66/double-conversion/bignum.cc:412-482 | Exactly base to the power, for every base and power whose result fits the capacity, zero and one powers included |
| `Powers.StripTwos` | contrib/double-conversion-d8d4e66/double-conversion/bignum.cc:420-427 | The odd part of the base and the number of twos taken out |
| `Powers.PowerIn64Bits` | contrib/double-conversion-d8d4e66/double-conversion/bignum.cc:446-465 | The first part of the power in one word never overflows: it stops, or postpones a multiplication, before it could |
| `BignumModel.Bignum.PowerByDigits` | contrib/double-conversion-d8d4e66/double-conversion/bignum.cc:471-478 | Square and multiply over the remaining bits gives the whole power |
| `BignumModel.Bignum.DivideModuloIntBignum` | contrib/double-conversion-d8d4e66/double-conversion/bignum.cc:486-549 | Quotient and remainder of the division, for any dividend below 2^16 times the divisor |
| `BignumModel.Bignum.ReduceLength` | contrib/double-conversion-d8d4e66/double-conversion/bignum.cc:501-515 | Subtracting top-digit multiples keeps quotient times divisor plus remainder; the two lengths agree at the end exactly if they did at the start or the remainder of the dividend that lies within the divisor of BASE^n has n digits, n being the length of the divisor |
| `BignumModel.Bignum.ShortRemainder` | contrib/double-conversion-d8d4e66/double-conversion/bignum.cc:515-536 | Where the remainder is shorter than the divisor, the divisor starts with the largest digit and has more than one, which is why the estimate that follows is still right |
| `BignumModel.LengthsCanDiffer` | contrib/double-conversion-d8d4e66/double-conversion/bignum.cc:501-515 | Called on BASE^2 and BASE^2 - 1 the subtraction leaves one digit against two, so the asserted equality of lengths does not always hold |
| `BignumModel.Bignum.DivideBySingle` | contrib/double-conversion-d8d4e66/double-conversion/bignum.cc:520-531 | The single-digit case divides exactly |
| `BignumModel.Bignum.DivideByLonger` | contrib/double-conversion-d8d4e66/double-conversion/bignum.cc:533-548 | The estimate from the top digits is never too large and what it leaves is subtracted: quotient and remainder are exact |
| `BignumModel.Compare` | contrib/double-conversion-d8d4e66/double-conversion/bignum.cc:618-633 | The sign of the difference of the values |
| `BignumModel.PlusCompare` | contrib/double-conversion-d8d4e66/double-conversion/bignum.cc:636-670 | The sign of a + b - c |
| `BignumModel.PlusCompareExits` | contrib/double-conversion-d8d4e66/double-conversion/bignum.cc:640-650 | Each of the early exits on lengths is right |
| `BignumModel.PlusCompareDigits` | contrib/double-conversion-d8d4e66/double-conversion/bignum.cc:652-669 | Comparing from the top with a bounded carry decides the sign; the exit at a carry above one is right |
| `StartValues.StartPositiveExponent` | contrib/double-conversion-d8d4e66/double-conversion/bignum-dtoa.cc:417-446 | numerator/denominator is v/10^power and the deltas are half a unit of v in the same scale |
| `StartValues.StartNegativeExponentPositivePower` | contrib/double-conversion-d8d4e66/double-conversion/bignum-dtoa.cc:450-480 | The same for a negative exponent and a power that is not negative |
| `StartValues.StartNegativeExponentNegativePower` | contrib/double-conversion-d8d4e66/double-conversion/bignum-dtoa.cc:484-527 | The same for a negative exponent and a negative power |
| `BignumShortest.InitialScaledStartValues` | contrib/double-conversion-d8d4e66/double-conversion/bignum-dtoa.cc:568-598 | The same for every exponent, with the lower delta halved when the lower boundary is closer |
| `BignumShortest.InitialScaledRatio` | contrib/double-conversion-d8d4e66/double-conversion/bignum-dtoa.cc:568-598 | Without deltas: the ratio is v/10^power and the deltas are left alone |
| `BignumShortest.PreparedRepresents` | contrib/double-conversion-d8d4e66/double-conversion/bignum-dtoa.cc:530-566 | The four integers stand for v and its two boundaries |
| `BignumShortest.FixupMultiply10` | contrib/double-conversion-d8d4e66/double-conversion/bignum-dtoa.cc:612-639 | Multiplies by ten exactly if the interval does not reach one, and sets the point accordingly |
| `BignumShortest.ScaleInterval` | contrib/double-conversion-d8d4e66/double-conversion/bignum-dtoa.cc:133-147 | For any estimate that is at most one too low: the bignums stand for the number and its boundaries at the place of the first digit, and the upper end reaches one and stays below ten, as the digit generation asks |
| `PowerEstimate.NormalizedExponent` | contrib/double-conversion-d8d4e66/double-conversion/bignum-dtoa.cc:37-44 | The exponent at which the significand has its hidden bit |
| `PowerEstimate.EstimatePower` | contrib/double-conversion-d8d4e66/double-conversion/bignum-dtoa.cc:385-413 | For every double exponent, and however the product was rounded: 10^(k-1) does not exceed the smallest number with that exponent, and 10^(k+1) is not below the largest |
| `PowerEstimate.CloseBelow` | contrib/double-conversion-d8d4e66/double-conversion/bignum-dtoa.cc:390-400 | 10^643 does not exceed 2^2136, which is what keeps the estimate from overshooting |
| `PowerEstimate.CloseAbove` | contrib/double-conversion-d8d4e66/double-conversion/bignum-dtoa.cc:390-400 | 2^485 does not exceed 10^146, the same for numbers below one |
| `PowerEstimate.TenBelowTwo` | contrib/double-conversion-d8d4e66/double-conversion/bignum-dtoa.cc:386-400 | One such inequality bounds every power of ten whose exponents are in no greater proportion |
| `DoubleToAscii.EstimatedPower` | contrib/double-conversion-d8d4e66/double-conversion/bignum-dtoa.cc:111-113 | The estimate is right or one too low for v and for its upper boundary, subnormals included |
| `BignumDtoa.QuotientDigit` | contrib/double-conversion-d8d4e66/double-conversion/bignum-dtoa.cc:197-200 | The next decimal digit and the remainder |
| `BignumDtoa.NextDigit` | contrib/double-conversion-d8d4e66/double-conversion/bignum-dtoa.cc:197-221 | The next digit, and whether rounding down or up here stays in the interval |
| `BignumDtoa.RaiseLastDigit` | contrib/double-conversion-d8d4e66/double-conversion/bignum-dtoa.cc:232-272 | The last digit is rounded to the closer side that stays in the interval, ties to the even digit |
| `BignumDtoa.GenerateShortestDigits` | contrib/double-conversion-d8d4e66/double-conversion/bignum-dtoa.cc:185-274 | Some decimal with these digits lies in the interval, no shorter one does, none with as many digits is closer, and of two as close it is the even one |
| `BignumDtoa.NoLeadingZero` | contrib/double-conversion-d8d4e66/double-conversion/bignum-dtoa.cc:182-184 | If the interval reaches one and not zero, the digits do not start with a zero |
| `BignumShortest.BufferSuffices` | contrib/double-conversion-d8d4e66/double-conversion/double-conversion.h:289-295 | Seventeen digits are always enough |
| `ShortestDecimal.ShortestOfNumber` | contrib/double-conversion-d8d4e66/double-conversion/bignum-dtoa.cc:172-184 | What the generator guarantees about its integers is the shortest and closest decimal between the boundaries of v |
| `BignumShortest.ShortestDigits` | contrib/double-conversion-d8d4e66/double-conversion/bignum-dtoa.cc:89-169 | Exact arithmetic gives the shortest decimal between the boundaries, the closest of those, without leading zero |
| `BignumFixed.GenerateCountedDigits` | contrib/double-conversion-d8d4e66/double-conversion/bignum-dtoa.cc:283-318 | The digits are the ratio rounded half up to that many digits, a carry past the top moving the point; no leading zero if the ratio is at least one |
| `Rounding.PropagateCarry` | contrib/double-conversion-d8d4e66/double-conversion/bignum-dtoa.cc:305-316 | Resolving a ten at the end keeps the value, and moves the point exactly if the carry runs through |
| `BignumFixed.BignumToFixed` | contrib/double-conversion-d8d4e66/double-conversion/bignum-dtoa.cc:326-367 | v rounded half up to the requested decimals, with none, one or all of the digits needed |
| `BignumFixed.TooSmall` | contrib/double-conversion-d8d4e66/double-conversion/bignum-dtoa.cc:332-340 | Below a tenth of the last decimal the rounded number is zero |
| `BignumFixed.OneDigitOrNone` | contrib/double-conversion-d8d4e66/double-conversion/bignum-dtoa.cc:341-358 | At the last place the comparison with five decides between nothing and one unit |
| `BignumFixed.ScaleNumber` | contrib/double-conversion-d8d4e66/double-conversion/bignum-dtoa.cc:133-147 | v as one digit before the point, given an estimate at most one too low |
| `BignumFixed.FixedDigits` | contrib/double-conversion-d8d4e66/double-conversion/bignum-dtoa.cc:89-169 | Fixed mode by exact arithmetic: v rounded half up to the requested decimals |
| `BignumFixed.PrecisionDigits` | contrib/double-conversion-d8d4e66/double-conversion/bignum-dtoa.cc:89-169 | Precision mode by exact arithmetic: v rounded half up to the requested number of digits |
| `Rounding.HalfUpCharacter` | contrib/double-conversion-d8d4e66/double-conversion/bignum-dtoa.cc:277-282 | What rounding half up means: the multiple within half a unit, the upper one of two |
| `Rounding.PointPlaced` | contrib/double-conversion-d8d4e66/double-conversion/double-conversion.h:302 | The digits 123 with point 1 denote 1.23, and 1 with point -2 denotes 0.001 |
| `Doubles.OddIsNotPowerOfTen` | contrib/double-conversion-d8d4e66/double-conversion/bignum-dtoa.cc:612-639 | No double with an odd significand is a power of ten, so the comparison made for odd significands cannot leave a ratio of ten |
| `Doubles.OddBoundaryIsNotPowerOfTen` | contrib/double-conversion-d8d4e66/double-conversion/bignum-dtoa.cc:182-184 | The boundary above an odd significand is never a power of ten, so the comparison made for odd significands cannot leave an upper end of ten |
| `MachineWords.UInt128.Multiply` | contrib/double-conversion-d8d4e66/double-conversion/fixed-dtoa.cc:42-57 | The 128-bit product, from four 32-bit parts |
| `MachineWords.UInt128.Shift` | contrib/double-conversion-d8d4e66/double-conversion/fixed-dtoa.cc:59-78 | Division by a power of two, or multiplication modulo 2^128, for every amount from -64 to 64 |
| `MachineWords.UInt128.DivModPowerOf2` | contrib/double-conversion-d8d4e66/double-conversion/fixed-dtoa.cc:82-95 | Quotient and remainder by a power of two |
| `MachineWords.UInt128.BitAt` | contrib/double-conversion-d8d4e66/double-conversion/fixed-dtoa.cc:101-107 | The bit at that position |
| `DigitFilling.FillDigits32FixedLength` | contrib/double-conversion-d8d4e66/double-conversion/fixed-dtoa.cc:120-127 | Appends exactly the decimal digits of the number, leading zeros included |
| `DigitFilling.FillDigits32` | contrib/double-conversion-d8d4e66/double-conversion/fixed-dtoa.cc:130-150 | Appends the digits of a 32-bit number; reversing them in place puts them in order |
| `DigitFilling.Exchange` | contrib/double-conversion-d8d4e66/double-conversion/fixed-dtoa.cc:139-148 | Exchanging from both ends mirrors the range and leaves the rest |
| `DigitFilling.FillDigits64FixedLength` | contrib/double-conversion-d8d4e66/double-conversion/fixed-dtoa.cc:153-165 | Seventeen digits in three parts |
| `DigitFilling.FillDigits64` | contrib/double-conversion-d8d4e66/double-conversion/fixed-dtoa.cc:168-186 | The digits of a 64-bit number in up to three parts |
| `DigitFilling.RoundUp` | contrib/double-conversion-d8d4e66/double-conversion/fixed-dtoa.cc:189-216 | One unit in the last place is added, an empty buffer and a carry through all digits included |
| `FixedDtoa.SplitDigits64` | contrib/double-conversion-d8d4e66/double-conversion/fixed-dtoa.cc:237-260 | Digits and rest always make up the fraction in one word; the binary point ends at zero exactly if it starts there, or the fraction is odd and has no more bits than digits are asked for |
| `FixedDtoa.SplitDigits128` | contrib/double-conversion-d8d4e66/double-conversion/fixed-dtoa.cc:265-281 | The same in 128 bits |
| `FixedDtoa.FillFractionals` | contrib/double-conversion-d8d4e66/double-conversion/fixed-dtoa.cc:230-286 | The fraction rounded half up into what the buffer holds; the distance of the last shift is -1 exactly for fractions that end at the point, and in range otherwise |
| `DigitFilling.TrimZeros` | contrib/double-conversion-d8d4e66/double-conversion/fixed-dtoa.cc:291-306 | Removes outer zeros without changing the number denoted |
| `DigitFilling.SameDigits` | contrib/double-conversion-d8d4e66/double-conversion/fixed-dtoa.cc:291-306 | Digits without outer zeros, and their point, are determined by the number denoted |
| `FixedDtoa.DivideByTen17` | contrib/double-conversion-d8d4e66/double-conversion/fixed-dtoa.cc:336-361 | Quotient and remainder by 10^17 although the number has more than 64 bits |
| `FixedDtoa.FillLargeInteger` | contrib/double-conversion-d8d4e66/double-conversion/fixed-dtoa.cc:328-364 | All digits of a number above 2^64 |
| `FixedDtoa.FastFixedDtoa` | contrib/double-conversion-d8d4e66/double-conversion/fixed-dtoa.cc:309-402 | Rounded half up to the requested number of decimals and trimmed, for every number it accepts, which are those with an exponent of at most 20 and at most 20 decimals; it shifts by -1 exactly for odd significands with a fraction of at most as many bits as decimals asked for |
| `FixedDtoa.ShiftByMinusOne` | contrib/double-conversion-d8d4e66/double-conversion/fixed-dtoa.cc:261-264 | The double (2^52 + 1) / 2 with one decimal makes it shift by -1 |
| `DiyFpModel.DiyFp.Subtract` | contrib/double-conversion-d8d4e66/double-conversion/diy-fp.h:51-55 | The difference of significands at the same exponent |
| `DiyFpModel.DiyFp.Multiply` | contrib/double-conversion-d8d4e66/double-conversion/diy-fp.cc:34-55 | The upper half of the 128-bit product, rounded half up; no partial sum overflows |
| `DiyFpModel.DiyFp.Normalize` | contrib/double-conversion-d8d4e66/double-conversion/diy-fp.h:77-95 | The same value with the top bit set |
| `DiyFpModel.Minus` | contrib/double-conversion-d8d4e66/double-conversion/diy-fp.h:60-64 | The difference as a new number |
| `DiyFpModel.Times` | contrib/double-conversion-d8d4e66/double-conversion/diy-fp.h:71-75 | The rounded product as a new number |
| `DiyFpModel.ProductError` | contrib/double-conversion-d8d4e66/double-conversion/diy-fp.cc:34-55 | The rounded product is off by at most half a unit |
| `CachedPowers.EntryIsPower` | contrib/double-conversion-d8d4e66/double-conversion/cached-powers.cc:44-132 | Every one of the 87 entries is normalised and right to half a unit in its last place |
| `CachedPowers.WideIsPower` | contrib/double-conversion-d8d4e66/double-conversion/cached-powers.cc:44-132 | With its tail every entry is its power of ten to 120 bits, shown step by step from 10^4 |
| `CachedPowers.GetCachedPowerForBinaryExponentRange` | contrib/double-conversion-d8d4e66/double-conversion/cached-powers.cc:141-158 | The entry looked up is inside the table and its exponent inside the range asked for, however the product with the logarithm was rounded |
| `Grisu.AsNormalizedDiyFp` | contrib/double-conversion-d8d4e66/double-conversion/ieee.h:66-80 | The number with a significand that fills 64 bits |
| `Grisu.NormalizedBoundaries` | contrib/double-conversion-d8d4e66/double-conversion/ieee.h:171-185 | Both boundaries at the exponent of the number |
| `Grisu.ScaledIsNear` | contrib/double-conversion-d8d4e66/double-conversion/fast-dtoa.cc:553-561 | Scaled by a cached power a number is known to within one unit |
| `Grisu.CachedFor` | contrib/double-conversion-d8d4e66/double-conversion/fast-dtoa.cc:538-551 | The cached power brings the exponent into the range of the digit generators |
| `FastDtoa.BiggestPowerTenIs` | contrib/double-conversion-d8d4e66/double-conversion/fast-dtoa.cc:225-256 | The power is at most the number and the number below ten times the power exactly for positive numbers from a tenth of the guessed power up, among them all of at least number_bits - 1 bits; only zero with at most two bits gets the entry zero |
| `FastDtoa.BiggestPowerTenCanExceed` | contrib/double-conversion-d8d4e66/double-conversion/fast-dtoa.cc:225-256 | The power returned for 5 with a claimed width of 32 bits is larger than 5 |
| `FastDtoa.IntegralDigits` | contrib/double-conversion-d8d4e66/double-conversion/fast-dtoa.cc:320-369 | Digits before the binary point; stopping early or handing over, the digits and the rest make up the high end |
| `FastDtoa.FractionalDigits` | contrib/double-conversion-d8d4e66/double-conversion/fast-dtoa.cc:371-395 | Digits after the binary point, the error growing tenfold with each |
| `Weeding.RoundWeed` | contrib/double-conversion-d8d4e66/double-conversion/fast-dtoa.cc:61-166 | Moves to the decimal closest to the number; accepts exactly if some decimal passes the test, and then it is the one in the buffer |
| `Weeding.OnlyCandidate` | contrib/double-conversion-d8d4e66/double-conversion/fast-dtoa.cc:61-166 | Where the loop stops is the only decimal that can pass the test |
| `Weeding.AgreedInParts` | contrib/double-conversion-d8d4e66/double-conversion/fast-dtoa.cc:61-166 | Passing the test in parts of a unit is being certain as a real number: well inside the boundaries, and the neighbours outside or farther, for all values within a unit |
| `Weeding.Concluded` | contrib/double-conversion-d8d4e66/double-conversion/fast-dtoa.cc:61-166 | What the test leaves makes the decimal strictly the shortest and strictly the closest for all numbers within the error |
| `FastDtoa.DigitGen` | contrib/double-conversion-d8d4e66/double-conversion/fast-dtoa.cc:300-396 | Stops at the largest exponent that has a decimal between the widened boundaries, succeeds exactly if one of that exponent is certain, and then the digits are the only shortest and closest decimal between the exact boundaries |
| `FastCounted.RoundWeedCounted` | contrib/double-conversion-d8d4e66/double-conversion/fast-dtoa.cc:181-223 | Accepts exactly if rounding down or rounding up is right for all values within the error, and then rounds that way |
| `FastCounted.PrecisionPlace` | contrib/double-conversion-d8d4e66/double-conversion/fast-dtoa.cc:400-427 | The rounded digits are at the right place also when the number and its approximation lie on different sides of a power of ten |
| `FastCounted.DigitGenCounted` | contrib/double-conversion-d8d4e66/double-conversion/fast-dtoa.cc:428-505 | Cuts the number into digits and a rest; succeeds exactly if there are as many digits as requested and the rounding is certain, and then they are correctly rounded for all values within a unit |
| `Grisu.Grisu3` | contrib/double-conversion-d8d4e66/double-conversion/fast-dtoa.cc:519-583 | If good, strictly the shortest and closest decimal between the exact boundaries of v, without leading zero; it gives up exactly when, at the largest exponent that has a decimal between the scaled boundaries, none is certain |
| `Grisu.Grisu3Counted` | contrib/double-conversion-d8d4e66/double-conversion/fast-dtoa.cc:591-632 | If good, v rounded half up to the requested number of digits; it gives up exactly when the digits of the scaled number end too early or the error leaves the rounding in doubt |
| `Weeding.SameAsExact` | contrib/double-conversion-d8d4e66/double-conversion/double-conversion.cc:390-415 | What the fast path returns as good is what exact arithmetic returns |
| `Ieee.FieldsAreDouble` | contrib/double-conversion-d8d4e66/double-conversion/ieee.h:111-199 | The fields of finite bits that are not zero are those of exactly one double; the lower boundary is closer exactly at a power of two above the smallest |
| `Ieee.BitsHaveFields` | contrib/double-conversion-d8d4e66/double-conversion/ieee.h:111-199 | And every double has such bits |
| `Ieee.SignBit` | contrib/double-conversion-d8d4e66/double-conversion/ieee.h:155-158 | The top bit is the sign and nothing else depends on it; special are exactly the patterns from infinity on |
| `Ieee.NextDouble` | contrib/double-conversion-d8d4e66/double-conversion/ieee.h:111-128 | The patterns below infinity count the doubles upwards from zero: each stands for the one before plus a unit of that, and 0x3FF0000000000000 stands for one |
| `Ieee.SingleSignBit` | contrib/double-conversion-d8d4e66/double-conversion/ieee.h:333-336 | The same for the sign of a single |
| `Ieee.NextSingle` | contrib/double-conversion-d8d4e66/double-conversion/ieee.h:289-306 | The same for the 32-bit patterns, of which 0x3F800000 stands for one |
| `Ieee.SingleBoundary` | contrib/double-conversion-d8d4e66/double-conversion/ieee.h:365-376 | The fields of a single are in range, and its lower boundary is closer exactly at a power of two above the smallest |
| `ReadBack.InsideReadsBack` | contrib/double-conversion-d8d4e66/double-conversion/bignum-dtoa.cc:172-180 | Every real between the boundaries (included for even significands) rounds to the number, ties to even |
| `ReadBack.OutsideReadsOtherwise` | contrib/double-conversion-d8d4e66/double-conversion/bignum-dtoa.cc:172-180 | And no other real does |
| `ReadBack.ReadsAsOne` | contrib/double-conversion-d8d4e66/double-conversion/fast-dtoa.cc:510-513 | A real rounds to one number only |
| `ReadBack.ShortestReadsBack` | contrib/double-conversion-d8d4e66/double-conversion/double-conversion.h:305-312 | The shortest decimal between the boundaries is the shortest that reads back as the number, and the closest of those |
| `ReadBack.ShortestIsFewest` | contrib/double-conversion-d8d4e66/double-conversion/double-conversion.h:305-312 | No string of fewer digits, wherever its point is put, reads back as the number |
| `Ties.ShortestIsUnique` | contrib/double-conversion-d8d4e66/double-conversion/double-conversion.h:305-312 | The shortest and closest decimal, ties to even, is unique, so both paths give the same digits |
| `Ties.TiesAsDocumented` | contrib/double-conversion-d8d4e66/double-conversion/double-conversion.h:309-310 | The promise that of two decimals as close the larger is chosen is kept exactly unless the odd part of the significand is 1 modulo 4, the number is halfway between two decimals with k >= 1 places, and 5^k is between two bounds given by the power of two in the significand: a condition on significand, exponent and the closeness of the lower boundary alone |
| `Ties.NearerIsHalfway` | contrib/double-conversion-d8d4e66/double-conversion/bignum-dtoa.cc:246-258 | For every such number the even decimal below is the result, although the one above is in the interval and as close |
| `Ties.HalfwayIsNearer` | contrib/double-conversion-d8d4e66/double-conversion/bignum-dtoa.cc:246-258 | And only for such numbers is a larger decimal in the interval as close as the result |
| `Ties.HalfwayDouble` | contrib/double-conversion-d8d4e66/double-conversion/bignum-dtoa.cc:246-258 | For the double 2^50 + 1/4 the promise is broken: the lower, even decimal is the result |
| `DoubleToAscii.ToShortest` | contrib/double-conversion-d8d4e66/double-conversion/double-conversion.cc:390-415 | Shortest mode, fast path or not: the shortest and closest decimal between the boundaries, without outer zeros |
| `DoubleToAscii.ToFixed` | contrib/double-conversion-d8d4e66/double-conversion/double-conversion.cc:390-415 | Fixed mode: both paths denote v rounded half up to the requested decimals |
| `DoubleToAscii.ToPrecision` | contrib/double-conversion-d8d4e66/double-conversion/double-conversion.cc:390-415 | Precision mode: both paths denote v rounded half up to the requested number of digits |
| `DoubleToAscii.OnePlace` | contrib/double-conversion-d8d4e66/double-conversion/double-conversion.h:322-326 | The place of the first digit is determined by the number, so precision mode has one correct result |
| `DoubleToAscii.ToAscii` | contrib/double-conversion-d8d4e66/double-conversion/double-conversion.cc:357-416 | For all finite 64-bit patterns and all three modes: the sign, and digits that are the shortest to read back as the same double, or the rounding asked for |
| `DoubleToAscii.SingleToAscii` | contrib/double-conversion-d8d4e66/double-conversion/double-conversion.h:297-312 | For all finite 32-bit patterns: the sign, and the shortest digits that read back as the same single |
| `Subfield.ParseSubfield` | contrib/argdata-0.5/src/argdata_impl.h:131-174 | Accepts exactly the inputs that start with a length in shortest form followed by that many bytes |
| `Subfield.ParseIffSpelled` | contrib/argdata-0.5/src/argdata_impl.h:131-174 | A length parses if and only if the input starts with the canonical spelling of a length below 2^64 and its field |
| `Subfield.ParseInvertsSpelling` | contrib/argdata-0.5/src/argdata_impl.h:131-203 | Parsing a spelled length with its field and anything behind gives back the length |
| `Subfield.SpelledOut` | contrib/argdata-0.5/src/argdata_impl.h:131-203 | The bytes of 5, 200 and 20000 |
| `Subfield.GetSubfieldLength` | contrib/argdata-0.5/src/argdata_impl.h:178-186 | The length of a field with its prefix |
| `Subfield.EncodeSubfieldLength` | contrib/argdata-0.5/src/argdata_impl.h:189-203 | Writes the canonical spelling, and nothing else |
| `Argdata.BigEndianInverse` | contrib/argdata-0.5/src/argdata_impl.h:215-230 | Reading four bytes back gives the value written |
| `Argdata.OnTheWire` | contrib/argdata-0.5/src/argdata_impl.h:107-117 | The bytes of a sequence, a map, binary data, a string and a valid and an invalid descriptor, with the codes of their types |
| `Argdata.FieldsAreJoined` | contrib/argdata-0.5/src/argdata_seq_next.c:10-29 | A serialised map or sequence is its fields in order, each after the one spelling of its length, and then a rest that does not start with a field; what is shown are those fields and that rest |
| `Argdata.DescriptorShown` | contrib/argdata-0.5/src/argdata_impl.h:215-230 | The bytes 1, 2, 3, 4 show the descriptor converted from 0x01020304, or an invalid one |
| `Argdata.EncodeKeeps` | contrib/argdata-0.5/src/argdata_serialize.c:22-111 | The serialised length is the computed one; the table of descriptors only grows, stays free of duplicates, and by no more than the count |
| `Argdata.EncodeView` | contrib/argdata-0.5/src/argdata_serialize.c:22-111 | Reading the serialised bytes shows the tree that was serialised, descriptors renamed through the table, whatever the final table |
| `Argdata.RoundTrip` | contrib/argdata-0.5/src/argdata_serialize.c:113-117 | Serialising any tree and reading the bytes with the table shows the same tree, damaged and foreign parts included |
| `Argdata.RoundTripRenamed` | contrib/argdata-0.5/src/argdata_serialize.c:113-117 | The same when the descriptors arrive under other numbers: each is renamed consistently and none is lost |
| `Argdata.ShownWithFirst` | contrib/argdata-0.5/src/argdata_serialize.c:22-111 | With the first n descriptors of the table only, the serialised bytes still show the tree exactly if the table has no more than n |
| `Argdata.BufferPlaces` | contrib/argdata-0.5/src/argdata_serialized_length.c:16-43 | The count in a serialised value is the number of places where a reader sees a descriptor, valid or not |
| `Argdata.PlacesCounted` | contrib/argdata-0.5/src/argdata_serialized_length.c:10-64 | The same for every tree |
| `Serialize.MapFd` | contrib/argdata-0.5/src/argdata_serialize.c:13-20 | The index of a descriptor in the table, entered at the end if new |
| `Serialize.WriteFd` | contrib/argdata-0.5/src/argdata_impl.h:225-230 | Four bytes, big endian |
| `Serialize.WriteDescriptor` | contrib/argdata-0.5/src/argdata_serialize.c:57-66 | A negative descriptor becomes the largest value, any other its index |
| `Serialize.WriteFields` | contrib/argdata-0.5/src/argdata_serialize.c:36-47 | Every entry of a serialised map or sequence is rewritten in place, up to damage, which is copied |
| `Serialize.WriteBuffer` | contrib/argdata-0.5/src/argdata_serialize.c:29-77 | A serialised value is rewritten with its descriptors renumbered and everything else copied |
| `Serialize.WriteNode` | contrib/argdata-0.5/src/argdata_serialize.c:22-104 | The array holds exactly the specified encoding, in a range of exactly the computed length |
| `Serialize.WriteSubfield` | contrib/argdata-0.5/src/argdata_serialize.c:106-111 | The length and then the value |
| `Serialize.WriteItems` | contrib/argdata-0.5/src/argdata_serialize.c:91-96 | All entries of a sequence in order |
| `Serialize.WriteEntries` | contrib/argdata-0.5/src/argdata_serialize.c:83-90 | All keys and values of a map in order |
| `Serialize.SerializeNode` | contrib/argdata-0.5/src/argdata_serialize.c:113-117 | Reading back what was written shows the tree; the number of descriptors is within the count; nothing behind the length is touched |
| `Serialize.CountBufferFds` | contrib/argdata-0.5/src/argdata_serialized_length.c:16-43 | Exactly the number of places where a reader of the serialised value sees a descriptor, valid or not, up to damage |
| `Serialize.CountNodeFds` | contrib/argdata-0.5/src/argdata_serialized_length.c:10-64 | Exactly the number of such places in the tree |
| `Utf8.ValidateChar` | contrib/argdata-0.5/src/argdata_impl.h:239-250 | One character: accepted exactly if it is well formed, with the number of bytes that follow |
| `Utf8.ValidateString` | contrib/argdata-0.5/src/argdata_impl.h:233-252 | Accepts exactly the concatenations of well-formed characters |
| `Utf8.CharIsScalar` | contrib/argdata-0.5/src/argdata_impl.h:239-250 | An accepted character is the encoding of a scalar value |
| `Utf8.SpelledOut` | contrib/argdata-0.5/src/argdata_impl.h:232-252 | A character of each length in bytes, from section 7 of RFC 3629 |
| `Utf8.ScalarIsChar` | contrib/argdata-0.5/src/argdata_impl.h:239-250 | And the encoding of every scalar value is accepted, whatever follows |
| `Utf8.EncodedIsWellFormed` | contrib/argdata-0.5/src/argdata_impl.h:232-252 | Every string of scalar values encodes to an accepted string |
| `Utf8.WellFormedIsEncoded` | contrib/argdata-0.5/src/argdata_impl.h:232-252 | Every accepted string is the encoding, per section 3 of RFC 3629, of scalar values |
| `Timestamp.StoreBytes` | contrib/argdata-0.5/src/argdata_create_timestamp.c:33-42 | Stores the value modulo a power of 256 |
| `Timestamp.TrimSign` | contrib/argdata-0.5/src/argdata_create_timestamp.c:44-50 | Removes sign bytes without changing the value, until none can go |
| `Timestamp.MinimalIsShortest` | contrib/argdata-0.5/src/argdata_create_timestamp.c:44-50 | Bytes without a redundant sign byte are the fewest that denote their value |
| `Timestamp.InBytes` | contrib/argdata-0.5/src/argdata_create_timestamp.c:33-51 | A second and minus one nanosecond in bytes |
| `Timestamp.CreateTimestamp` | contrib/argdata-0.5/src/argdata_create_timestamp.c:14-55 | For every 64-bit time: the shortest two's complement form of the nanoseconds, which is more than 64 bits can hold; an error exactly for bad nanoseconds |
| `Timestamp.Pad` | contrib/argdata-0.5/src/argdata_get_timestamp.c:52-62 | Extends the sign to twelve bytes |
| `Timestamp.TakeHalves` | contrib/argdata-0.5/src/argdata_get_timestamp.c:64-70 | The upper 64 and lower 32 bits of the value |
| `Timestamp.DivideTwice` | contrib/argdata-0.5/src/argdata_get_timestamp.c:72-95 | Two short divisions give the floor of the division by 10^9, or a range error exactly if the seconds do not fit 64 bits |
| `Timestamp.GetTimestamp` | contrib/argdata-0.5/src/argdata_get_timestamp.c:43-100 | Seconds and nanoseconds of any payload of up to twelve bytes; out of range for every longer one; invalid for other types |
| `Timestamp.ReadAsSplit` | contrib/argdata-0.5/src/argdata_get_timestamp.c:52-57 | That is the right answer exactly if the payload has at most twelve bytes or its value is out of range, and so for every payload without redundant sign bytes |
| `Timestamp.LongZero` | contrib/argdata-0.5/src/argdata_get_timestamp.c:56-57 | Zero in thirteen bytes is out of range |
| `Timestamp.SecondCheckIdle` | contrib/argdata-0.5/src/argdata_get_timestamp.c:79-90 | Once the first range check has passed the second one never fires |
| `Timestamp.RoundTrip` | contrib/argdata-0.5/src/argdata_get_timestamp.c:43-100 | Creating and reading gives back every time |
| `Iterators.SeqIterator.constructor` | contrib/argdata-0.5/src/argdata_seq_iterate.c:10-46 | Starts before the entries that reading the value shows; other values are empty and damaged |
| `Iterators.SeqIterator.Load` | contrib/argdata-0.5/src/argdata_seq_next.c:8-37 | Loads the next entry of a serialised sequence, or stops at its end or at damage |
| `Iterators.SeqIterator.Next` | contrib/argdata-0.5/src/argdata_seq_next.c:8-37 | Drops the first of the entries ahead, in either form of sequence |
| `Iterators.SeqIterator.Get` | contrib/argdata-0.5/src/argdata_seq_get.c:10-23 | The first of the entries ahead |
| `Iterators.Entries` | contrib/argdata-0.5/src/argdata_seq_iterate.c:10-46 | Iterating visits exactly the entries that are shown, in order, and tells whether the sequence was complete |
| `Streams.Writer.Set` | contrib/argdata-0.5/src/argdata_writer_set.c:10-17 | The next message is enqueued; what is in flight is untouched |
| `Streams.Writer.Prepare` | contrib/argdata-0.5/src/argdata_writer_push.c:18-73 | The enqueued message becomes a frame: length, data, descriptors with the first byte |
| `Streams.Writer.SendPart` | contrib/argdata-0.5/src/argdata_writer_push.c:77-100 | One call sends the next bytes, as many as it is given, the descriptors with the first of them, or fails and changes nothing |
| `Streams.MakeHeader` | contrib/argdata-0.5/src/argdata_writer_push.c:49-60 | Eight bytes, big endian |
| `Frames.HeaderSpelledOut` | contrib/argdata-0.5/src/argdata_writer_push.c:49-60 | The most significant of the eight bytes comes first |
| `Streams.FrameMessage` | contrib/argdata-0.5/src/argdata_writer_push.c:18-73 | The frame of the serialised tree |
| `Streams.Writer.Push` | contrib/argdata-0.5/src/argdata_writer_push.c:17-103 | Exactly the bytes taken from the frame under way are queued, in order; without a failing call everything is sent, with at most one call for each byte; success exactly if nothing is left |
| `Streams.Reader.CloseAll` | contrib/argdata-0.5/src/argdata_reader_pull.c:27-30 | Closes exactly the descriptors still held, once |
| `Streams.Reader.Drop` | contrib/argdata-0.5/src/argdata_reader_pull.c:24-32 | Forgets the delivered message and closes exactly what is still in its table |
| `Streams.Reader.Discard` | contrib/argdata-0.5/src/argdata_reader_pull.c:23-32 | The same if a message was delivered, and nothing otherwise |
| `Streams.Reader.ReceiveFirst` | contrib/argdata-0.5/src/argdata_reader_pull.c:34-74 | A successful call takes some bytes of the message with the descriptors that are accepted, and is too large exactly if some are not; end of file exactly if the socket is closed and empty; a failing call takes nothing, and without a socket nothing happens |
| `Streams.EndingIs` | contrib/argdata-0.5/src/argdata_reader_pull.c:22-118 | The ending of a pull, as determined by what is there, is one of four that exclude each other, each with its own condition |
| `Streams.Reader.ReadHeaderPart` | contrib/argdata-0.5/src/argdata_reader_pull.c:77-90 | One read: the next bytes of the header, nothing on failure, end of file exactly if the socket is closed and empty |
| `Streams.Reader.ReadHeader` | contrib/argdata-0.5/src/argdata_reader_pull.c:76-91 | Takes bytes until the header has eight; unless a call fails it stops short exactly if fewer are queued, then with the queue empty: to be tried again if the socket is open, broken if it is closed, and cleanly exactly between messages on a closed socket |
| `Streams.Reader.DataLength` | contrib/argdata-0.5/src/argdata_reader_pull.c:93-98 | The eight bytes of the header give the length of the message being read |
| `Streams.Reader.ReadDataPart` | contrib/argdata-0.5/src/argdata_reader_pull.c:104-111 | One read: the next bytes of the data, nothing on failure |
| `Streams.Reader.Deliver` | contrib/argdata-0.5/src/argdata_reader_pull.c:114-117 | The complete data is the next message sent, which is delivered; the table holds exactly its descriptors as far as accepted |
| `Streams.Reader.ReadData` | contrib/argdata-0.5/src/argdata_reader_pull.c:93-117 | Unless a call fails: too large exactly if the length exceeds the limit; delivered exactly if all the data is queued; otherwise the queue is read empty and the message is broken exactly if the socket is closed |
| `Streams.Reader.ReadMessage` | contrib/argdata-0.5/src/argdata_reader_pull.c:76-117 | Header and data together: every outcome is the one determined by what was read before, what is queued and the limits; broken only on a closed socket, and to be tried again only on an open one |
| `Streams.Reader.Resume` | contrib/argdata-0.5/src/argdata_reader_pull.c:34-117 | The same together with the call that receives descriptors, for a message that is to be begun or is under way |
| `Streams.Reader.Pull` | contrib/argdata-0.5/src/argdata_reader_pull.c:22-118 | The bytes taken and the message delivered, with its table of descriptors, are the next of those sent; exactly what was left of the message before is closed and nothing is released. Unless a call fails: too large exactly if the message begins with too many descriptors or announces too much data; else broken exactly if the socket is closed and some but not all of the message is there, to be tried again exactly if the socket is open and not all is there, and done exactly if all is, or the stream ended between messages. At most two calls more than bytes taken |
| `Streams.Reader.ReleaseFd` | contrib/argdata-0.5/src/argdata_reader_release_fd.c:12-23 | Hands over one descriptor, the first with that number in the table, which is then not closed; fails exactly if it is not held |
| `Streams.Reader.Free` | contrib/argdata-0.5/src/argdata_reader_free.c:11-16 | Closes exactly what is still held: every descriptor ever received has been closed or released, once |
| `StreamRuns.PushStep` | contrib/argdata-0.5/src/argdata_writer_push.c:17-103 | A push keeps the invariant of both ends and moves bytes into the socket: all of them under a schedule without failures |
| `StreamRuns.PullStep` | contrib/argdata-0.5/src/argdata_reader_pull.c:22-118 | A pull keeps the invariant of both ends and takes bytes up to the end of the next message; it closes exactly what was left of the last one and holds the accepted descriptors of the one delivered or under way. Under a schedule without failures each of the four outcomes has its exact condition on what is there, and a message is reported broken only if the connection was closed before all of it had been sent |
| `StreamRuns.ReleaseStep` | contrib/argdata-0.5/src/argdata_reader_release_fd.c:12-23 | A release moves one descriptor from the table to the caller and changes nothing else |
| `StreamRuns.Step` | contrib/argdata-0.5/src/argdata_reader_pull.c:22-118 | Every call at either end keeps the invariant of both and changes their state, bytes, messages and descriptors, as that call is to |
| `StreamRuns.Connect` | contrib/argdata-0.5/src/argdata_reader_create.c:11-26 | Both ends start with nothing sent, nothing delivered, and the invariant |
| `StreamRuns.ShowsIfAccepted` | contrib/argdata-0.5/src/argdata_reader_pull.c:15-20 | A message shows the tree that was sent exactly if all its descriptors were accepted |
| `StreamRuns.DeliveredIsFaithful` | contrib/argdata-0.5/src/argdata_reader_pull.c:15-20 | Messages delivered in order are those sent, up to the descriptors accepted, and show the trees sent exactly if all were |
| `StreamRuns.ConnectedIsAccounted` | contrib/argdata-0.5/src/argdata_reader_pull.c:23-32 | In every reachable state the descriptors held, closed and released are together exactly the accepted descriptors of the messages delivered and of the one under way |
| `StreamRuns.NothingLost` | contrib/argdata-0.5/src/argdata_reader_pull.c:53-56 | Between messages with nothing in flight everything accepted has been delivered |
| `StreamRuns.NextIsWhole` | contrib/argdata-0.5/src/argdata_reader_pull.c:76-111 | Once the writer has sent all it accepted, the next message is there as a whole, or there is none |
| `StreamRuns.AcceptedWhenIdle` | contrib/argdata-0.5/src/argdata_writer_set.c:10-17 | Over any run the trees accepted are, in order, those set while nothing was under way and not too long |
| `StreamRuns.Run` | contrib/argdata-0.5/src/argdata_reader_pull.c:22-118 | Every script of calls, transfers and failures: each call has done its part between its two states; the trees accepted are those set while nothing was under way; the messages delivered are the first of them and show them exactly if their descriptors were accepted; all are delivered once nothing is in flight; the accepted descriptors of the messages delivered and of the one under way are exactly those held, closed or released, each once |
| `StreamRuns.Exchange` | contrib/argdata-0.5/src/argdata_reader_pull.c:22-118 | All trees within the limits arrive, in order and showing what was sent, however the transfers are cut up, as long as no call fails; the descriptors of all but the last are closed and those of the last are held |
| `StreamRuns.RejectedThenDelivered` | contrib/argdata-0.5/src/argdata_reader_pull.c:70-74 | A message with more descriptors than accepted is rejected by one call and delivered by the next without the others, so that it does not show the tree that was sent |
| `StreamRuns.TwoDescriptors` | contrib/argdata-0.5/src/argdata_reader_pull.c:70-74 | A sequence of two descriptors is such a message for a reader that accepts one |
| `Qsort.Swap` | src/include/stdlib.h:290-298 | Exchanges two elements |
| `Qsort.SwapBlocks` | src/include/stdlib.h:290-298 | Exchanges two blocks element by element and leaves the rest |
| `Qsort.Insert` | src/include/stdlib.h:307-309 | Moves one element to its place in the sorted part |
| `Qsort.InsertionSort` | src/include/stdlib.h:301-310 | Sorted, and a rearrangement of the range |
| `Qsort.Median3IsMiddle` | src/include/stdlib.h:313-324 | The one chosen lies between the other two |
| `Qsort.ThreeMedians` | src/include/stdlib.h:338-343 | The medians of three elements each at the start, in the middle and at the end |
| `Qsort.PickPivot` | src/include/stdlib.h:328-345 | An element of the range: the median of its first, middle and last element, or beyond 40 elements of the three medians |
| `Qsort.ScanUp` | src/include/stdlib.h:364-370 | Elements up to the scan are smaller than the pivot, or equal and collected at the left |
| `Qsort.ScanDown` | src/include/stdlib.h:371-377 | The mirror image from the right; where both stop an exchange makes progress |
| `Qsort.Partition` | src/include/stdlib.h:360-383 | Equal, smaller, larger, equal: four regions, and still a rearrangement |
| `Qsort.Gather` | src/include/stdlib.h:385-390 | Moving the equal elements to the middle gives smaller, equal, larger |
| `Qsort.Quicksort` | src/include/stdlib.h:348-397 | Sorted, and a rearrangement of the range; both recursive calls are on shorter ranges |
| `Qsort.QsortR` | src/include/stdlib.h:399-410 | Sorted, and a rearrangement of the range, nothing outside it changed, for every consistent comparison |
| `Strverscmp.Compare` | src/common/strverscmp.h:43-115 | The sign is that of the version order; zero exactly for equal strings |
| `Strverscmp.CompareLength` | src/common/strverscmp.h:103-111 | The longer run of digits is larger, and equal runs compare by the digit |
| `Strverscmp.Decide` | src/common/strverscmp.h:72-114 | Where the strings part, the table of modes gives the version order, in every state and for every pair of characters |
| `Strverscmp.Irreflexive` | src/common/strverscmp.h:43-115 | No string precedes itself |
| `Strverscmp.Asymmetric` | src/common/strverscmp.h:43-115 | Never both ways |
| `Strverscmp.Total` | src/common/strverscmp.h:43-115 | Different strings are ordered |
| `Strverscmp.Transitive` | src/common/strverscmp.h:43-115 | The order is transitive, across the states of the automaton |
| `Strverscmp.TextByCharacter` | src/common/strverscmp.h:72-115 | Where neither integers nor fractions part, that is between two characters that are no digits, or in text unless both are nonzero digits, the smaller character comes first |
| `Strverscmp.IntegersByValue` | src/common/strverscmp.h:21-26 | After the same text, of two integers without leading zeros the smaller one comes first, whatever follows |
| `Strverscmp.FractionsByValue` | src/common/strverscmp.h:21-26 | After the same text, of two nonzero fractions (digits that start with a zero) the smaller one comes first, and of equal ones the shorter one |
| `Strverscmp.ZerosByLength` | src/common/strverscmp.h:21-26 | A run of zeros comes after every longer one and every fraction with at least as many leading zeros, and before the other fractions |
| `Strverscmp.OneOfThese` | src/common/strverscmp.h:43-96 | Wherever two strings part, one of the three rules applies: characters, integers by value, or fractions by value |
| `Float16.Encoder.constructor` | src/common/float16.h:158-162 | The number zero |
| `Float16.Encoder.PushXdigit` | src/common/float16.h:165-195 | The 128-bit window stands for all digits pushed so far, however many: exact while they fit, and afterwards up to a sticky end |
| `Float16.ExactPush` | src/common/float16.h:183-193 | A digit in the middle is stored at its place, also across the two words |
| `Float16.StickyPush` | src/common/float16.h:178-182 | Digits that do not fit only make the end nonzero, which is all that rounding needs |
| `Float16Rounding.HasTrailingBits` | src/common/float16.h:54-64 | Whether any of the last bits is set |
| `Float16Rounding.ShiftRight` | src/common/float16.h:89-119 | The quotient by a power of two, its last bit set if anything was lost |
| `Float16Rounding.Increment` | src/common/float16.h:133-148 | One unit in the last place kept, with the carry through both words |
| `Float16Rounding.ApplyRounding` | src/common/float16.h:123-150 | The kept bits are those of the mode, the exponent rises exactly if they overflow |
| `Float16Rounding.WindowRounds` | src/common/float16.h:86-150 | Rounding the shifted window is rounding the exact value of all digits, in every mode and for every width |
| `Float16Rounding.GetBin` | src/common/float16.h:198-245 | Zero, too large, too small, or the exact value of all digits rounded in the given mode, through every carry, with the exponent of a subnormal set to zero |
| `Float16Rounding.CorrectIsRounded` | src/common/float16.h:123-150 | The exponent and significand stand for the rounded value, in every mode and through every carry, with all bits of the significand in use exactly for exponents above zero; too large exactly if the rounded value reaches the power of two above the largest number |
| `Float16Rounding.RoundedIs` | src/common/float16.h:123-150 | The rounded value is the multiple of the unit that is nearest to the exact value (the upper one of two), next above or next below, as the mode says |
| `Float16Rounding.GivenIs` | src/common/float16.h:206-241 | For the exact value: too small exactly below the smallest subnormal, too large from the power of two above the largest number on, and otherwise the rounded value |
| `Float16Rounding.BelowSubnormal` | src/common/float16.h:219-228 | What rounding would give where zero is returned: one unit when rounding up, or to nearest from half a unit on, and zero otherwise |
| `Float16Rounding.ZeroIsRight` | src/common/float16.h:219-228 | So the zero is right exactly when truncating, or to nearest below half of the smallest subnormal |
| `Float16Rounding.GivesUpTooEarly` | src/common/float16.h:219-228 | 3 * 2^-151, to nearest the smallest single, becomes zero |
| `Float16Rounding.TruncatesToInfinity` | src/common/float16.h:212-218 | When truncating, infinity is given exactly from the power of two above the largest finite number on, which is then the truncation |
| `Float16Rounding.InfiniteSingle` | src/common/float16.h:212-218 | 2^128 truncated to a single is infinite |
| `Float16Rounding.NearestIsHalfEven` | src/common/float16.h:125-132 | Nearest as coded and nearest with ties to even differ exactly halfway above an even number of units |
| `Float16Rounding.TieGoesUp` | src/common/float16.h:125-132 | 2^24 + 1 becomes 2^24 + 2 as a single, not 2^24 |

## Left out

- Reading decimals (`strtod.cc`, `StringToDoubleConverter`), and the parts of the bignum that only they use: addition, multiplication by a power of ten, strings.
- The layout of printed numbers (exponents, padding, special values) around `DoubleToAscii`, and terminating null characters.
- The conversion of a double to a single before printing it as one; `DoubleToAscii.SingleToAscii` starts from the single's bits.
- BignumModel.Bignum.MultiplyByUInt32: and the other operations of the class require that the result fits 128 digits, as the source does by aborting.
- BignumModel.Bignum.AssignPowerUInt16: requires that the estimated size fits the capacity, as the source does by aborting.
- DoubleToAscii.ToAscii: in fixed mode requires a buffer that holds the digits of the number, which the source leaves to its caller.
- `fds == NULL` in `argdata_serialize()`, where descriptor numbers are written literally.
- Allocation failures, `errno` values other than the outcomes modelled, and the layout of control messages.
- Streams.Writer.Push: the kernel is a parameter: how much each call transfers, or that it fails. Descriptors keep their numbers in transit; `Argdata.RoundTripRenamed` covers renumbering.
- Streams.Reader.Pull: a descriptor is taken to travel with the first byte of its message, and the rest of a header to be read without further descriptors.
- Argdata.RoundTrip: trees whose serialised length reaches 2^64 are excluded, as no buffer can hold them; keys and values of a map are an array of pairs.
- Map iterators, the other getters and constructors of argdata, and its YAML printer, which would only repeat the sequence iterator and the views.
- Qsort.Swap: elements are whole values, so the exchange byte by byte is not modelled.
- Qsort.QsortR: requires a consistent comparison, as the C standard does; `qsort()` is the same code.
- The wide-character variants of the search and of `strverscmp()`, which are the same code.
- Float16Rounding.GetBin: formats without subnormals, the packing of the result into a native type, and the wrap-around of the bit count after 2^32 digits.
- `f16dec()`, the reverse conversion.
- Everything else in the library: memory allocation, threads, stdio, locales, time zones, the network.
