/**
  The loops that the bignum runs over its digit buffer, and the arithmetic
  behind them. Chunks are 32 bits wide and double chunks 64 bits wide;
  subtractions wrap at 32 bits as the program's do. Each loop turns columns of
  products and differences into digits, passing a carry or a borrow upwards.
 */
module DigitLoops {
  import opened Positional

  const CAPACITY: int := 128
  const TWO32: int := 0x1_0000_0000
  const TWO31: int := 0x8000_0000
  const TWO63: int := 0x8000_0000_0000_0000
  const TWO64: int := 0x1_0000_0000_0000_0000

  ghost function Sign(x: int): int {
    if x < 0 then -1 else if x > 0 then 1 else 0
  }

  // ---------- Loops over a digit buffer ----------

  /** Moves the lowest n digits up and fills in zeros below them. */
  method InsertZeros(a: array<int>, n: nat, zeros: nat)
    requires n + zeros <= a.Length
    modifies a
    ensures a[..n + zeros] == Zeros(zeros) + old(a[..n])
    ensures a[n + zeros..] == old(a[n + zeros..])
  {
    ghost var s := a[..];
    var i := n;
    while i > 0
      invariant 0 <= i <= n
      invariant forall k :: 0 <= k < i ==> a[k] == s[k]
      invariant forall k :: i + zeros <= k < n + zeros ==> a[k] == s[k - zeros]
      invariant forall k :: n + zeros <= k < a.Length ==> a[k] == s[k]
    {
      i := i - 1;
      a[i + zeros] := a[i];
    }
    for j := 0 to zeros
      invariant forall k :: 0 <= k < j ==> a[k] == 0
      invariant forall k :: zeros <= k < n + zeros ==> a[k] == s[k - zeros]
      invariant forall k :: n + zeros <= k < a.Length ==> a[k] == s[k]
    {
      a[j] := 0;
    }
  }

  /** Copies the lowest m digits of b and clears those of a above them. */
  method CopyDigits(a: array<int>, n: nat, b: array<int>, m: nat)
    requires n <= a.Length && m <= a.Length && m <= b.Length && a != b
    modifies a
    ensures forall k :: 0 <= k < m ==> a[k] == b[k]
    ensures forall k :: m <= k < n ==> a[k] == 0
    ensures forall k :: m <= k && n <= k < a.Length ==> a[k] == old(a[k])
  {
    for i := 0 to m
      invariant forall k :: 0 <= k < i ==> a[k] == b[k]
      invariant forall k :: i <= k < a.Length ==> a[k] == old(a[k])
    {
      a[i] := b[i];
    }
    var i := m;
    while i < n
      invariant forall k :: 0 <= k < m ==> a[k] == b[k]
      invariant forall k :: m <= k < i && k < n ==> a[k] == 0
      invariant forall k :: i <= k && m <= k < a.Length ==> a[k] == old(a[k])
      invariant m <= i && (i <= n || i == m)
      decreases n - i
    {
      a[i] := 0;
      i := i + 1;
    }
  }

  /** The original contents with the digits from offset on replaced by done. */
  ghost function Overlay(orig: seq<int>, offset: nat, done: seq<int>): (r: seq<int>)
    requires offset + |done| <= |orig|
    ensures |r| == |orig|
  {
    orig[..offset] + done + orig[offset + |done|..]
  }

  /** The digits that a pass over the columns p has produced, and the carries on its way. */
  datatype Pass = Pass(done: seq<int>, carries: seq<int>)

  /** A pass in progress over p, with carry c into the next column. */
  ghost predicate Passing(w: Pass, p: seq<int>, c: int) {
    && IsDigits(w.done) && |w.done| <= |p|
    && Normalizes(w.done, p[..|w.done|], w.carries)
    && w.carries[|w.done|] == c
  }

  ghost function Next(w: Pass, d: int, c: int): Pass {
    Pass(w.done + [d], w.carries + [c])
  }

  lemma PassStart(p: seq<int>, orig: seq<int>, offset: nat)
    requires offset <= |orig|
    ensures Passing(Pass([], [0]), p, 0) && Overlay(orig, offset, []) == orig
  {
  }

  lemma PassStep(w: Pass, p: seq<int>, c: int, d: int, c': int, orig: seq<int>, offset: nat)
    requires Passing(w, p, c) && |w.done| < |p| && offset + |p| <= |orig|
    requires 0 <= d < BASE && d + 0x1000_0000 * c' == p[|w.done|] + c
    ensures Passing(Next(w, d, c'), p, c') && Next(w, d, c').done == w.done + [d]
    ensures Overlay(orig, offset, w.done)[offset + |w.done| := d] == Overlay(orig, offset, w.done + [d])
  {
    var n := |w.done|;
    NormalizesExtend(w.done, p[..n], w.carries, d, p[n], c');
    assert p[..n + 1] == p[..n] + [p[n]];
  }

  /** Where the remaining columns are the digits of s, nothing is left to do once nothing is borrowed. */
  lemma BorrowSettled(w: Pass, s: seq<int>, f: int, t: seq<int>)
    requires |t| <= |w.done| <= |s| && Passing(w, MinusTimes(s, f, t), 0)
    ensures V(w.done + s[|w.done|..]) == V(s) - f * V(t)
  {
    var p, k := MinusTimes(s, f, t), |w.done|;
    assert p == p[..k] + s[k..];
    ScaleMonotone(0, 0, k);
    hide V, Scale, MinusTimes;
    NormalizesValue(w.done, p[..k], w.carries);
    VConcat(p[..k], s[k..]);
    VConcat(w.done, s[k..]);
    MinusTimesValue(s, f, t);
  }

  lemma PassComplete(w: Pass, p: seq<int>, c: int)
    requires Passing(w, p, c) && |w.done| == |p|
    ensures V(w.done) + Scale(c, |p|) == V(p)
    ensures 0 <= V(w.done) < Scale(1, |p|)
  {
    assert p[..|p|] == p;
    NormalizesValue(w.done, p, w.carries);
    VBound(w.done);
  }

  /** A difference that is not negative leaves no borrow at the top. */
  lemma NoBorrowLeft(w: Pass, p: seq<int>, borrow: int)
    requires 0 < borrow && Passing(w, p, -borrow) && V(p) >= 0
    ensures |w.done| < |p|
  {
    if |w.done| == |p| { BorrowAtTop(w, p, borrow); }
  }

  lemma BorrowAtTop(w: Pass, p: seq<int>, borrow: int)
    requires 0 < borrow && Passing(w, p, -borrow) && |w.done| == |p|
    ensures V(p) < 0
  {
    hide V, Scale, Passing;
    PassComplete(w, p, -borrow);
    NegativeBelow(V(w.done), V(p), borrow, |p|);
  }

  lemma NegativeBelow(v: int, total: int, borrow: int, n: nat)
    requires v < Scale(1, n) && v + Scale(-borrow, n) == total && 0 < borrow
    ensures total < 0
  {
    BorrowOutweighs(borrow, n);
  }

  /** Stores the low 28 bits of a 32-bit difference and returns its top bit. */
  method StoreDifference(a: array<int>, k: nat, x: int) returns (borrow: int)
    requires k < a.Length && -TWO31 <= x < TWO31
    modifies a
    ensures a[..] == old(a[..])[k := x % 0x1000_0000]
    ensures borrow == if x < 0 then 1 else 0
  {
    var difference := x % TWO32;
    a[k] := difference % BASE;
    borrow := difference / TWO31;
  }

  method SubtractRow(a: array<int>, n: nat, offset: nat, b: array<int>, m: nat)
    requires offset + m <= n <= a.Length && m <= b.Length && a != b
    requires IsDigits(a[..n]) && IsDigits(b[..m])
    requires V(b[..m]) <= V(a[offset..n])
    modifies a
    ensures a[..offset] == old(a[..offset]) && a[n..] == old(a[n..])
    ensures IsDigits(a[offset..n]) && V(a[offset..n]) == V(old(a[offset..n])) - V(b[..m])
  {
    ghost var orig, s, t := a[..], a[offset..n], b[..m];
    ghost var p := MinusTimes(s, 1, t);
    MinusTimesValue(s, 1, t);
    var borrow, w := SubtractColumns(a, n, offset, b, m, orig, s, p);
    var i;
    i, w := PropagateBorrow(a, n, offset, m, borrow, orig, s, p, w);
    BorrowSettled(w, s, 1, t);
    OverlaySlices(orig, offset, w.done, n);
  }

  /** Digit by digit, where the subtrahend has digits. */
  method SubtractColumns(a: array<int>, n: nat, offset: nat, b: array<int>, m: nat,
                         ghost orig: seq<int>, ghost s: seq<int>, ghost p: seq<int>)
      returns (borrow: int, ghost w: Pass)
    requires offset + m <= n <= a.Length && m <= b.Length && a != b
    requires a[..] == orig && s == orig[offset..n] && IsDigits(s)
    requires |p| == |s| && forall k :: 0 <= k < m ==> 0 <= b[k] < BASE && p[k] == s[k] - b[k]
    modifies a
    ensures |w.done| == m && a[..] == Overlay(orig, offset, w.done) && Passing(w, p, -borrow)
    ensures 0 <= borrow <= 1
  {
    hide Passing, Overlay;
    w := Pass([], [0]);
    PassStart(p, orig, offset);
    var i := 0;
    borrow := 0;
    while i < m
      invariant 0 <= i == |w.done| <= m && 0 <= borrow <= 1
      invariant a[..] == Overlay(orig, offset, w.done) && Passing(w, p, -borrow)
    {
      OverlayNext(orig, offset, w.done);
      ghost var d, c := (s[i] - b[i] - borrow) % 0x1000_0000, -borrow;
      borrow := StoreDifference(a, i + offset, a[..][i + offset] - b[i] - borrow);
      PassStep(w, p, c, d, -borrow, orig, offset);
      w := Next(w, d, -borrow);
      i := i + 1;
    }
  }

  /** Passes a borrow on through the digits above the subtrahend. */
  method PropagateBorrow(a: array<int>, n: nat, offset: nat, i0: nat, borrow0: int,
                         ghost orig: seq<int>, ghost s: seq<int>, ghost p: seq<int>, ghost w0: Pass)
      returns (i: nat, ghost w: Pass)
    requires offset <= n <= a.Length == |orig| && s == orig[offset..n] && IsDigits(s)
    requires |p| == |s| && V(p) >= 0 && 0 <= borrow0 < BASE
    requires i0 == |w0.done| <= |s| && a[..] == Overlay(orig, offset, w0.done) && Passing(w0, p, -borrow0)
    requires forall k :: i0 <= k < |s| ==> p[k] == s[k]
    modifies a
    ensures i0 <= i == |w.done| <= |p| && a[..] == Overlay(orig, offset, w.done) && Passing(w, p, 0)
  {
    hide Passing, Overlay;
    w := w0;
    i := i0;
    var borrow := borrow0;
    while borrow != 0
      invariant i0 <= i == |w.done| <= |s| && 0 <= borrow < BASE
      invariant a[..] == Overlay(orig, offset, w.done) && Passing(w, p, -borrow)
      decreases |s| - i
    {
      NoBorrowLeft(w, p, borrow);
      OverlayNext(orig, offset, w.done);
      ghost var d, c := (s[i] - borrow) % 0x1000_0000, -borrow;
      borrow := StoreDifference(a, i + offset, a[..][i + offset] - borrow);
      PassStep(w, p, c, d, -borrow, orig, offset);
      w := Next(w, d, -borrow);
      i := i + 1;
    }
  }

  /** The loop of SubtractTimes where the subtrahend has digits: the borrow can be as large as the factor. */
  method SubtractTimesColumns(a: array<int>, n: nat, offset: nat, b: array<int>, m: nat, factor: nat,
                              ghost orig: seq<int>, ghost s: seq<int>, ghost p: seq<int>)
      returns (borrow: int, ghost w: Pass)
    requires offset + m <= n <= a.Length && m <= b.Length && a != b && 1 <= factor < BASE
    requires a[..] == orig && s == orig[offset..n] && IsDigits(s)
    requires |p| == |s| && forall k :: 0 <= k < m ==> 0 <= b[k] < BASE && p[k] == s[k] - factor * b[k]
    modifies a
    ensures |w.done| == m && a[..] == Overlay(orig, offset, w.done) && Passing(w, p, -borrow)
    ensures 0 <= borrow <= factor
  {
    hide Passing, Overlay;
    w := Pass([], [0]);
    PassStart(p, orig, offset);
    var i := 0;
    borrow := 0;
    while i < m
      invariant 0 <= i == |w.done| <= m && 0 <= borrow <= factor
      invariant a[..] == Overlay(orig, offset, w.done) && Passing(w, p, -borrow)
    {
      OverlayNext(orig, offset, w.done);
      var product := factor * b[i];
      RemoveStep(s[i], b[i], factor, borrow);
      var remove := borrow + product;
      assert 0 <= product && remove < TWO64;
      ghost var d, c := (s[i] - remove % BASE) % 0x1000_0000, -borrow;
      var top := StoreDifference(a, i + offset, a[..][i + offset] - remove % BASE);
      borrow := top + remove / BASE;
      PassStep(w, p, c, d, -borrow, orig, offset);
      w := Next(w, d, -borrow);
      i := i + 1;
    }
  }

  /** Returns whether the loop over the digits above the subtrahend stopped before the last one. */
  method SubtractTimesRow(a: array<int>, n: nat, offset: nat, b: array<int>, m: nat, factor: nat) returns (early: bool)
    requires offset + m <= n <= a.Length && m <= b.Length && a != b && 1 <= factor < BASE
    requires IsDigits(a[..n]) && IsDigits(b[..m])
    requires factor * V(b[..m]) <= V(a[offset..n])
    modifies a
    ensures a[..offset] == old(a[..offset]) && a[n..] == old(a[n..])
    ensures IsDigits(a[offset..n]) && V(a[offset..n]) == V(old(a[offset..n])) - factor * V(b[..m])
    ensures early ==> n > 0 && a[n - 1] == old(a[n - 1])
  {
    ghost var orig, s, t := a[..], a[offset..n], b[..m];
    ghost var p := MinusTimes(s, factor, t);
    MinusTimesValue(s, factor, t);
    var borrow, w := SubtractTimesColumns(a, n, offset, b, m, factor, orig, s, p);
    var i;
    i, w := PropagateBorrow(a, n, offset, m, borrow, orig, s, p, w);
    BorrowSettled(w, s, factor, t);
    OverlaySlices(orig, offset, w.done, n);
    early := offset + i < n;
    assert early ==> a[..][n - 1] == orig[n - 1];
  }

  lemma RemoveStep(d: int, h: int, f: int, borrow: int)
    requires 0 <= d < BASE && 0 <= h < BASE && 1 <= f < BASE && 0 <= borrow <= f
    ensures var remove := borrow + f * h;
      var borrow' := (if d - remove % 0x1000_0000 < 0 then 1 else 0) + remove / 0x1000_0000;
      && 0 <= f * h && remove < TWO64
      && 0 <= borrow' <= f
      && (d - remove % 0x1000_0000) % 0x1000_0000 - 0x1000_0000 * borrow' == d - f * h - borrow
  {
    MulMonotone(0, f, h);
    MulMonotone(h, BASE - 1, f);
  }

  method MultiplyColumns(a: array<int>, n: nat, factor: nat, ghost orig: seq<int>, ghost p: seq<int>)
      returns (carry: int, ghost w: Pass)
    requires n <= a.Length && a[..] == orig && 1 <= factor < TWO32
    requires |p| == n && forall k :: 0 <= k < n ==> 0 <= orig[k] < BASE && p[k] == factor * orig[k]
    modifies a
    ensures |w.done| == n && a[..] == Overlay(orig, 0, w.done) && Passing(w, p, carry) && 0 <= carry
  {
    hide Passing, Overlay;
    w := Pass([], [0]);
    PassStart(p, orig, 0);
    carry := 0;
    for i := 0 to n
      invariant i == |w.done| && 0 <= carry < factor
      invariant a[..] == Overlay(orig, 0, w.done) && Passing(w, p, carry)
    {
      OverlayNext(orig, 0, w.done);
      MulMonotone(0, factor, orig[i]);
      MulMonotone(orig[i], BASE - 1, factor);
      var product := factor * a[..][i] + carry;
      assert 0 <= product < TWO64;
      a[i] := product % BASE;
      PassStep(w, p, carry, product % BASE, product / BASE, orig, 0);
      carry := product / BASE;
      w := Next(w, product % BASE, carry);
    }
  }

  lemma ChunkProduct(x: int, d: int)
    requires 0 <= x < TWO32 && 0 <= d < BASE
    ensures 0 <= x * d <= 0xFFFF_FFFF * 0xFFF_FFFF
  {
    MulMonotone(0, x, d);
    MulMonotone(x, 0xFFFF_FFFF, d);
  }

  /** One step of the 64-bit product, taken apart so that no intermediate value exceeds 64 bits. */
  lemma SplitProduct(low: int, high: int, d: int, carry: int)
    requires 0 <= low < TWO32 && 0 <= high < TWO32 && 0 <= d < BASE && 0 <= carry < TWO64
    ensures 0 <= low * d && 0 <= high * d
    ensures var tmp := carry % BASE + low * d;
      var carry' := carry / BASE + tmp / BASE + high * d * 16;
      && 0 <= tmp < TWO64 && high * d * 16 < TWO64 && 0 <= carry' < TWO64
      && tmp % BASE + 0x1000_0000 * carry' == (low + TWO32 * high) * d + carry
  {
    ChunkProduct(low, d);
    ChunkProduct(high, d);
    SplitCarry(low * d, high * d, carry);
    DistributeHalves(low, high, d);
  }

  lemma DistributeHalves(low: int, high: int, d: int)
    ensures (low + TWO32 * high) * d == low * d + TWO32 * (high * d)
  {
  }

  lemma SplitCarry(low: int, high: int, carry: int)
    requires 0 <= low <= 0xFFFF_FFFF * 0xFFF_FFFF && 0 <= high <= 0xFFFF_FFFF * 0xFFF_FFFF && 0 <= carry < TWO64
    ensures var tmp := carry % BASE + low;
      var carry' := carry / BASE + tmp / BASE + high * 16;
      && 0 <= tmp < TWO64 && high * 16 < TWO64 && 0 <= carry' < TWO64
      && tmp % BASE + 0x1000_0000 * carry' == low + TWO32 * high + carry
  {
  }

  method MultiplyColumns64(a: array<int>, n: nat, factor: nat, ghost orig: seq<int>, ghost p: seq<int>)
      returns (carry: int, ghost w: Pass)
    requires n <= a.Length && a[..] == orig && 1 <= factor < TWO64
    requires |p| == n && forall k :: 0 <= k < n ==> 0 <= orig[k] < BASE && p[k] == factor * orig[k]
    modifies a
    ensures |w.done| == n && a[..] == Overlay(orig, 0, w.done) && Passing(w, p, carry) && 0 <= carry < TWO64
  {
    hide Passing, Overlay;
    w := Pass([], [0]);
    PassStart(p, orig, 0);
    var low, high := factor % TWO32, factor / TWO32;
    carry := 0;
    for i := 0 to n
      invariant i == |w.done| && 0 <= carry < TWO64
      invariant a[..] == Overlay(orig, 0, w.done) && Passing(w, p, carry)
    {
      OverlayNext(orig, 0, w.done);
      SplitProduct(low, high, orig[i], carry);
      var productLow, productHigh := low * a[..][i], high * a[..][i];
      var tmp := carry % BASE + productLow;
      a[i] := tmp % BASE;
      ghost var c := carry;
      carry := carry / BASE + tmp / BASE + productHigh * 16;
      PassStep(w, p, c, tmp % BASE, carry, orig, 0);
      w := Next(w, tmp % BASE, carry);
    }
  }

  lemma WrappedSum(x: int, c: int)
    ensures ((x % TWO32 + c) % TWO32) % 0x1000_0000 == (x + c) % 0x1000_0000
  {
  }

  lemma LowPart(x: int, q: int, y: int)
    requires x == 0x1000_0000 * q + y && 0 <= y < 0x1000_0000
    ensures x % 0x1000_0000 == y
  {
  }

  /** Shifting one digit left, with the carry of the digit below; f * g is one digit. */
  lemma ShiftStep(d: int, carry: int, f: int, g: int)
    requires 0 <= d < BASE && 0 <= carry < f && 0 < g && f * g == 0x1000_0000
    ensures 0 <= d / g < f
    ensures (((d * f) % TWO32 + carry) % TWO32) % 0x1000_0000 == (d * f + carry) % 0x1000_0000
    ensures (d * f + carry) % 0x1000_0000 + 0x1000_0000 * (d / g) == f * d + carry
  {
    WrappedSum(d * f, carry);
    var q, r := d / g, d % g;
    ShiftQuotient(d, f, g, q, r);
    MulMonotone(r, g - 1, f);
    MulMonotone(0, r, f);
    LowPart(d * f + carry, q, r * f + carry);
  }

  lemma ShiftQuotient(d: int, f: int, g: int, q: int, r: int)
    requires 0 <= d < BASE && 0 < f && 0 < g && f * g == 0x1000_0000
    requires q == d / g && r == d % g
    ensures 0 <= q < f && 0 <= r < g
    ensures d * f == 0x1000_0000 * q + r * f
    ensures (g - 1) * f == 0x1000_0000 - f
  {
    assert d == q * g + r;
    assert d * f == q * (f * g) + r * f;
    if q >= f {
      MulMonotone(f, q, g);
      assert false;
    }
  }

  method ShiftColumns(a: array<int>, n: nat, shift: nat, ghost orig: seq<int>, ghost p: seq<int>)
      returns (carry: int, ghost w: Pass)
    requires n <= a.Length && a[..] == orig && shift < 28
    requires |p| == n && forall k :: 0 <= k < n ==> 0 <= orig[k] < BASE && p[k] == Pow2(shift) * orig[k]
    modifies a
    ensures |w.done| == n && a[..] == Overlay(orig, 0, w.done) && Passing(w, p, carry) && 0 <= carry < BASE
  {
    hide Passing, Overlay, Pow2;
    w := Pass([], [0]);
    PassStart(p, orig, 0);
    var f, g := Pow2(shift), Pow2(28 - shift);
    assert f * g == 0x1000_0000 by {
      Pow2Add(shift, 28 - shift);
      Pow2Small();
    }
    carry := 0;
    for i := 0 to n
      invariant i == |w.done| && 0 <= carry < f
      invariant a[..] == Overlay(orig, 0, w.done) && Passing(w, p, carry)
    {
      OverlayNext(orig, 0, w.done);
      ShiftStep(orig[i], carry, f, g);
      var newCarry := a[..][i] / g;
      a[i] := (((a[..][i] * f) % TWO32 + carry) % TWO32) % BASE;
      PassStep(w, p, carry, (orig[i] * f + carry) % 0x1000_0000, newCarry, orig, 0);
      w := Next(w, (orig[i] * f + carry) % 0x1000_0000, newCarry);
      carry := newCarry;
    }
    MulMonotone(1, g, f);
  }

  lemma OverlayNext(orig: seq<int>, offset: nat, done: seq<int>)
    requires offset + |done| < |orig|
    ensures Overlay(orig, offset, done)[offset + |done|] == orig[offset + |done|]
  {
  }

  lemma OverlaySlices(orig: seq<int>, offset: nat, done: seq<int>, n: nat)
    requires offset + |done| <= n <= |orig| && IsDigits(orig[..n]) && IsDigits(done)
    ensures var r := Overlay(orig, offset, done);
      && r[..offset] == orig[..offset] && r[n..] == orig[n..]
      && r[offset..n] == done + orig[offset..n][|done|..]
      && IsDigits(r[offset..n])
  {
    var rest := orig[offset..n][|done|..];
    assert forall k :: 0 <= k < |rest| ==> rest[k] == orig[..n][offset + |done| + k];
  }

  /** The columns of f times s. */
  ghost function Multiple(s: seq<int>, f: int): (p: seq<int>)
    ensures |p| == |s| && forall k :: 0 <= k < |s| ==> p[k] == f * s[k]
  {
    seq(|s|, k requires 0 <= k < |s| => f * s[k])
  }

  lemma MultipleValue(s: seq<int>, f: int)
    ensures V(Multiple(s, f)) == f * V(s)
  {
    assert Multiple(s, f) == MinusTimes(Zeros(|s|), -f, s);
    TimesValue(s, f);
  }

  lemma OverlayBottom(orig: seq<int>, done: seq<int>)
    requires |done| <= |orig|
    ensures var r := Overlay(orig, 0, done);
      r[..|done|] == done && forall k :: |done| <= k < |orig| ==> r[k] == orig[k]
  {
  }

  /** A product with no carry left has as many digits as the number multiplied. */
  lemma ProductTop(s: seq<int>, r: seq<int>, f: nat, carry: nat)
    requires Trimmed(s) && 0 < |s| == |r| && IsDigits(r) && 1 <= f
    requires V(r) + Scale(carry, |s|) == f * V(s)
    ensures carry == 0 ==> r[|r| - 1] != 0
  {
    if carry == 0 && r[|r| - 1] == 0 {
      LeadingZero(r);
      ScaleMonotone(0, 0, |s|);
      ProductGrows(s, f);
      assert false;
    }
  }

  lemma ProductOf(s: seq<int>, f: nat, w: Pass, carry: nat)
    requires Trimmed(s) && 0 < |s| && 1 <= f && |w.done| == |s|
    requires Passing(w, Multiple(s, f), carry)
    ensures V(w.done) + Scale(carry, |w.done|) == f * V(s)
    ensures IsDigits(w.done) && (carry == 0 ==> w.done[|w.done| - 1] != 0)
  {
    hide V, Scale;
    PassComplete(w, Multiple(s, f), carry);
    MultipleValue(s, f);
    ProductTop(s, w.done, f, carry);
  }

  lemma ProductGrows(s: seq<int>, f: nat)
    requires Trimmed(s) && 0 < |s| && 1 <= f
    ensures f * V(s) >= Scale(1, |s| - 1)
  {
    VTop(s);
    ScaleMonotone(1, s[|s| - 1], |s| - 1);
    VBound(s);
    MulMonotone(1, f, V(s));
  }

  lemma RoomForCarry(s: seq<int>, carry: nat, total: int)
    requires IsDigits(s) && V(s) + Scale(carry, |s|) == total < Scale(1, CAPACITY) && 0 < carry
    ensures |s| < CAPACITY
  {
    VBound(s);
    ScaleMonotone(1, carry, |s|);
    if CAPACITY <= |s| {
      ScaleGrows(CAPACITY, |s|);
      assert false;
    }
  }

  lemma AppendDigit(s: seq<int>, d: int, c: int)
    ensures V(s + [d]) + Scale(c, |s| + 1) == V(s) + Scale(d + 0x1000_0000 * c, |s|)
  {
    assert V([d]) == d;
    ScaleSum(c, 1, |s|);
    ScaleOne(c);
    hide V, Scale;
    VConcat(s, [d]);
    ScaleAdd(d, 0x1000_0000 * c, |s|);
  }

  lemma ScaleOne(c: int)
    ensures Scale(c, 1) == 0x1000_0000 * c
  {
  }

  lemma EmptyValue(s: seq<int>, e: nat)
    requires |s| == 0
    ensures Scale(V(s), e) == 0
  {
    ScaleMonotone(0, 0, e);
  }

  lemma ShiftedValue(v: int, e: nat, shift: nat)
    ensures Scale(Pow2(shift % 28) * v, e + shift / 28) == Pow2(shift) * Scale(v, e)
  {
    var n, r := shift / 28, shift % 28;
    assert shift == 28 * n + r;
    hide Scale, Pow2;
    Pow2Scale(Scale(v, e), n, r);
    ScaleTimes(Pow2(r), v, e);
    ScaleSum(Pow2(r) * v, e, n);
  }

  /** A multiple of t that fits in s at place offset leaves room and fits in the digits from there on. */
  lemma AlignedSubtrahend(s: seq<int>, e: nat, t: seq<int>, offset: nat, f: nat)
    requires IsDigits(s) && Trimmed(t) && 1 <= f
    requires |t| == 0 ==> offset <= |s|
    requires f * Scale(V(t), e + offset) <= Scale(V(s), e)
    ensures offset + |t| <= |s|
    ensures f * V(t) <= V(s[offset..])
    ensures Scale(V(s) - Scale(f * V(t), offset), e) == Scale(V(s), e) - f * Scale(V(t), e + offset)
  {
    hide V, Scale;
    var m := Scale(f * V(t), offset);
    ScaleTimes(f, V(t), e + offset);
    ScaleSum(f * V(t), offset, e);
    if V(s) < m {
      ScaleMonotone(V(s), m, e);
      assert false;
    }
    ScaleAdd(V(s) - m, m, e);
    if |t| > 0 && offset + |t| > |s| {
      VBound(s);
      ProductGrows(t, f);
      ScaleMonotone(Scale(1, |t| - 1), f * V(t), offset);
      ScaleSum(1, |t| - 1, offset);
      ScaleGrows(|s|, offset + |t| - 1);
      assert false;
    }
    HighPart(s, offset, f * V(t));
  }

  lemma ReplacedDigits(a: array<int>, s: seq<int>, n: nat, offset: nat)
    requires offset <= n <= a.Length && |s| == n && a[..offset] == s[..offset]
    ensures a[..n] == s[..offset] + a[offset..n]
  {
  }

  /** The top digit of a longer number is a safe number of subtractions, and leaves something. */
  lemma TopMultiple(x: int, divisor: int, top: int, place: int, next: int)
    requires 1 <= top && top * place <= x && 0 < divisor < next <= place
    ensures 0 < top * divisor < x
    ensures next - divisor <= x - top * divisor
  {
    MulMonotone(1, top, divisor);
    MulMonotone(1, top, place - divisor);
    assert top * (place - divisor) == top * place - top * divisor;
  }

  /** The number in [limit - divisor, limit) that leaves the same remainder as x. */
  ghost function RemainderNear(x: int, divisor: int, limit: int): int
    requires divisor > 0
  {
    limit - divisor + (x - (limit - divisor)) % divisor
  }

  lemma RemainderNearIs(x: int, divisor: int, limit: int, quotient: int, rest: int)
    requires divisor > 0 && quotient * divisor + rest == x && limit - divisor <= rest < limit
    ensures RemainderNear(x, divisor, limit) == rest
  {
    QuotientIs(x - (limit - divisor), divisor, quotient, rest - (limit - divisor));
  }

  /** Partial quotients stay within 16 bits when the whole quotient does. */
  lemma QuotientFits(result: int, q: int, x: int, divisor: int, whole: int)
    requires 0 <= result && 0 <= q && 0 < divisor
    requires result * divisor + x == whole < 0x10000 * divisor && q * divisor <= x
    ensures result + q < 0x10000
    ensures (result + q) * divisor + (x - q * divisor) == whole
  {
    assert (result + q) * divisor == result * divisor + q * divisor;
    if 0x10000 <= result + q {
      MulMonotone(0x10000, result + q, divisor);
      assert false;
    }
  }

  lemma QuotientOfParts(result: int, q: int, x: int, divisor: int, whole: int, r: int)
    requires 0 <= result && 0 <= q && 0 <= r < divisor && r == x - q * divisor
    requires result * divisor + x == whole < 0x10000 * divisor
    ensures (result + q % 0x10000) % 0x10000 == whole / divisor && r == whole % divisor
  {
    QuotientFits(result, q, x, divisor, whole);
    QuotientIs(whole, divisor, result + q, r);
  }

  lemma OneMore(i: int, n: int, x: int)
    requires i < n && 0 <= x
    ensures (i + 1) * x == i * x + x <= n * x
  {
    MulMonotone(i + 1, n, x);
  }

  lemma Reassociate(a: int, b: int, c: int)
    ensures (a * b) * c == b * (a * c)
  {
  }

  lemma TopDigitDivision(x: int, t: int, o: int, place: int)
    requires 0 <= t && 0 < o && 0 < place && t * place <= x < (t + 1) * place
    ensures 0 <= t - o * (t / o) < o && t - o * (t / o) <= t
    ensures 0 <= x - (t / o) * (o * place) < o * place
  {
    var q := t / o;
    assert t == q * o + t % o;
    var r := t - q * o;
    assert (t / o) * (o * place) == (q * o) * place;
    assert x - (q * o) * place >= r * place by { assert t * place == (q * o) * place + r * place; }
    assert x - (q * o) * place < (r + 1) * place by { assert (t + 1) * place == (q * o) * place + (r + 1) * place; }
    MulMonotone(0, r, place);
    MulMonotone(r + 1, o, place);
  }

  /** Lowering the top digit by m lowers the value by m at that place. */
  lemma ReplaceTop(s: seq<int>, r: seq<int>, m: int, e: nat)
    requires 0 < |s| == |r| && s[..|s| - 1] == r[..|r| - 1] && r[|r| - 1] == s[|s| - 1] - m
    ensures Scale(V(r), e) == Scale(V(s), e) - Scale(m, |s| - 1 + e)
  {
    var n := |s| - 1;
    assert V(r[n..]) == r[n] && V(s[n..]) == s[n];
    assert r == s[..n] + r[n..];
    hide V, Scale;
    ReplaceHigh(s, n, r[n..], m);
    ScaleAdd(V(r), Scale(m, n), e);
    ScaleSum(m, n, e);
  }

  /** The quotient of the top digits, with the divisor's rounded up, never exceeds the true quotient. */
  lemma EstimateIsSafe(x: int, divisor: int, t: int, o: int, place: int, sameLength: bool)
    requires 0 <= t < BASE && 0 < o < BASE && 0 < place && 0 <= x
    requires o * place <= divisor < (o + 1) * place
    requires sameLength ==> t * place <= x < (t + 1) * place
    requires !sameLength ==> o == BASE - 1 && x < place
    ensures var estimate := t / (o + 1);
      && 0 <= estimate && estimate * divisor <= x
      && o * (estimate + 1) < TWO32
      && (o * (estimate + 1) > t ==> x - estimate * divisor < divisor)
  {
    var estimate := t / (o + 1);
    EstimateBounds(t, o, estimate);
    if sameLength {
      EstimateFits(x, divisor, t, o, place, estimate);
      if o * (estimate + 1) > t { EstimateExact(x, divisor, t, o, place, estimate); }
    } else {
      assert estimate == 0;
      MulMonotone(1, o, place);
    }
  }

  lemma EstimateFits(x: int, divisor: int, t: int, o: int, place: int, estimate: int)
    requires 0 < place && divisor < (o + 1) * place && t * place <= x
    requires 0 <= estimate && estimate * (o + 1) <= t
    ensures estimate * divisor <= x
  {
    MulMonotone(divisor, (o + 1) * place, estimate);
    MulMonotone(estimate * (o + 1), t, place);
    assert estimate * ((o + 1) * place) == (estimate * (o + 1)) * place;
  }

  lemma EstimateExact(x: int, divisor: int, t: int, o: int, place: int, estimate: int)
    requires 0 < place && o * place <= divisor && x < (t + 1) * place
    requires 0 <= estimate && o * (estimate + 1) > t
    ensures x - estimate * divisor < divisor
  {
    MulMonotone(t + 1, o * (estimate + 1), place);
    MulMonotone(o * place, divisor, estimate + 1);
    assert (o * (estimate + 1)) * place == (o * place) * (estimate + 1);
    assert divisor * (estimate + 1) == estimate * divisor + divisor;
  }

  lemma EstimateBounds(t: int, o: int, estimate: int)
    requires 0 <= t < BASE && 0 < o < BASE && estimate == t / (o + 1)
    ensures 0 <= estimate && estimate * (o + 1) <= t
    ensures o * (estimate + 1) < TWO32
  {
    assert t == estimate * (o + 1) + t % (o + 1);
    assert o * (estimate + 1) == estimate * (o + 1) - estimate + o;
  }

  lemma DistributeSum(a: int, b: int, c: int)
    ensures (a + b) * c == a * c + b * c
  {
  }
}
