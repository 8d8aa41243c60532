/**
  Squaring in place: column sums of digit products, and the two loops that
  compute them from a copy of the digits stored above the result.
 */
module Squaring {
  import opened Positional
  import opened DigitLoops

  /** The part of column k of the product of s and t that the digits of t from j on contribute. */
  ghost function Column(s: seq<int>, t: seq<int>, k: int, j: nat): int
    decreases |t| - j
  {
    if j >= |t| then 0 else At(s, k - j) * t[j] + Column(s, t, k, j + 1)
  }

  ghost function Columns(s: seq<int>, t: seq<int>): (p: seq<int>)
    ensures |p| == |s| + |t| && forall k :: 0 <= k < |p| ==> p[k] == Column(s, t, k, 0)
  {
    seq(|s| + |t|, k requires 0 <= k < |s| + |t| => Column(s, t, k, 0))
  }

  lemma {:induction false} ColumnShift(s: seq<int>, t: seq<int>, k: int, j: nat)
    requires 0 < |t|
    ensures Column(s, t, k, j + 1) == Column(s, t[1..], k - 1, j)
    decreases |t| - j
  {
    if j + 1 < |t| { ColumnShift(s, t, k, j + 1); }
  }

  /** No digits are paired with a negative position. */
  lemma {:induction false} ColumnEmpty(s: seq<int>, t: seq<int>, k: int, j: nat)
    requires k < j
    ensures Column(s, t, k, j) == 0
    decreases |t| - j
  {
    if j < |t| { ColumnEmpty(s, t, k, j + 1); }
  }

  /** Columns beyond the length of s start where s has digits. */
  lemma {:induction false} ColumnSkip(s: seq<int>, t: seq<int>, k: int, j: nat, j': nat)
    requires j <= j' <= |t| && k - j' >= |s| - 1
    ensures Column(s, t, k, j) == Column(s, t, k, j')
    decreases j' - j
  {
    if j < j' { ColumnSkip(s, t, k, j + 1, j'); }
  }

  lemma {:induction false} ColumnBound(s: seq<int>, t: seq<int>, k: int, j: nat)
    requires IsDigits(s) && IsDigits(t) && j <= |t|
    ensures 0 <= Column(s, t, k, j) <= (|t| - j) * 0x100_0000_0000_0000
    decreases |t| - j
  {
    if j < |t| {
      ColumnBound(s, t, k, j + 1);
      DigitProduct(At(s, k - j), t[j]);
    }
  }

  lemma DigitProduct(x: int, y: int)
    requires 0 <= x < BASE && 0 <= y < BASE
    ensures 0 <= x * y < 0x100_0000_0000_0000
  {
    MulMonotone(0, x, y);
    MulMonotone(x, BASE - 1, y);
  }

  /** The columns, taken as digits out of range, denote the product. */
  lemma {:induction false} ColumnsValue(s: seq<int>, t: seq<int>)
    ensures V(Columns(s, t)) == V(s) * V(t)
  {
    if |t| == 0 {
      assert Columns(s, t) == Zeros(|s|);
      VZeros(|s|);
    } else {
      ColumnsValue(s, t[1..]);
      ColumnsUnroll(s, t);
      ShiftedDigits(Columns(s, t[1..]));
      MinusTimesValue([0] + Columns(s, t[1..]), -t[0], s);
      DistributeDigit(V(s), t[0], V(t[1..]));
    }
  }

  lemma ShiftedDigits(s: seq<int>)
    ensures V([0] + s) == 0x1000_0000 * V(s)
  {
    assert ([0] + s)[1..] == s;
  }

  lemma ColumnsUnroll(s: seq<int>, t: seq<int>)
    requires |t| > 0
    ensures Columns(s, t) == MinusTimes([0] + Columns(s, t[1..]), -t[0], s)
  {
    var rest := [0] + Columns(s, t[1..]);
    forall k | 0 <= k < |s| + |t|
      ensures Columns(s, t)[k] == rest[k] - (-t[0]) * At(s, k)
    {
      ColumnShift(s, t, k, 0);
      if k == 0 { ColumnEmpty(s, t[1..], -1, 0); }
      assert Column(s, t, k, 0) == At(s, k) * t[0] + Column(s, t, k, 1);
    }
  }

  /** The digits of s from position j on stand in the upper half of the buffer. */
  ghost predicate CopyFrom(a: array<int>, n: nat, s: seq<int>, j: int)
    reads a
  {
    && 2 * n <= a.Length && |s| == n
    && forall k :: n + j <= k < 2 * n ==> n <= k && a[k] == s[k - n]
  }

  lemma AccumulatorFits(s: seq<int>, k: int, j: nat, acc0: int)
    requires IsDigits(s) && |s| <= 64 && j <= |s| && 0 <= acc0 < 0x10_0000_0000
    ensures 0 <= Column(s, s, k, j)
    ensures 0 <= acc0 + Column(s, s, k, 0) < 0x8000_0000_0000_0000
  {
    ColumnBound(s, s, k, j);
    ColumnBound(s, s, k, 0);
  }

  method SumLow(a: array<int>, n: nat, i: nat, acc0: int, ghost s: seq<int>) returns (acc: int)
    requires i < n <= 64 && IsDigits(s) && CopyFrom(a, n, s, 0) && 0 <= acc0 < 0x10_0000_0000
    ensures acc == acc0 + Column(s, s, i, 0)
  {
    acc := acc0;
    var index1: int, index2: int := i, 0;
    while index1 >= 0
      invariant -1 <= index1 <= i && index1 + index2 == i
      invariant acc + Column(s, s, i, index2) == acc0 + Column(s, s, i, 0)
    {
      var chunk1, chunk2 := a[n + index1], a[n + index2];
      acc := acc + chunk1 * chunk2;
      assert chunk1 * chunk2 == At(s, i - index2) * s[index2];
      AccumulatorFits(s, i, index2 + 1, acc0);
      assert acc < TWO64;
      index1, index2 := index1 - 1, index2 + 1;
    }
    ColumnEmpty(s, s, i, i + 1);
  }

  method SumHigh(a: array<int>, n: nat, i: nat, acc0: int, ghost s: seq<int>) returns (acc: int)
    requires n <= i < 2 * n && n <= 64 && IsDigits(s) && CopyFrom(a, n, s, i - n) && 0 <= acc0 < 0x10_0000_0000
    ensures acc == acc0 + Column(s, s, i, 0)
  {
    acc := acc0;
    var index1: int := n - 1;
    var index2: int := i - index1;
    ColumnSkip(s, s, i, 0, index2);
    while index2 < n
      invariant i - n < index2 <= n && index1 + index2 == i
      invariant acc + Column(s, s, i, index2) == acc0 + Column(s, s, i, 0)
    {
      var chunk1, chunk2 := a[n + index1], a[n + index2];
      acc := acc + chunk1 * chunk2;
      assert chunk1 * chunk2 == At(s, i - index2) * s[index2];
      AccumulatorFits(s, i, index2 + 1, acc0);
      assert acc < TWO64;
      index1, index2 := index1 - 1, index2 + 1;
    }
  }

  /** The result so far below, and above it what is still needed of the copy. */
  ghost predicate SquareState(a: array<int>, n: nat, s: seq<int>, w: Pass, rest: seq<int>)
    reads a
  {
    && 2 * n <= a.Length && |w.done| <= 2 * n
    && (forall k :: 0 <= k < |w.done| ==> a[k] == w.done[k])
    && CopyFrom(a, n, s, if |w.done| < n then 0 else |w.done| - n)
    && a[2 * n..] == rest
  }

  /** Copies the digits into the upper half, so that the result does not overwrite them. */
  method CopyUp(a: array<int>, n: nat, ghost s: seq<int>)
    requires 2 * n <= a.Length && a[..n] == s
    modifies a
    ensures CopyFrom(a, n, s, 0) && a[2 * n..] == old(a[2 * n..])
  {
    for i := 0 to n
      invariant forall k :: 0 <= k < n ==> a[k] == s[k]
      invariant forall k :: n <= k < n + i ==> a[k] == s[k - n]
      invariant forall k :: 2 * n <= k < a.Length ==> a[k] == old(a[k])
    {
      a[n + i] := a[i];
    }
  }

  method LowColumns(a: array<int>, n: nat, ghost s: seq<int>, ghost p: seq<int>, ghost rest: seq<int>)
      returns (ghost w: Pass, acc: int)
    requires n <= 64 && IsDigits(s) && p == Columns(s, s)
    requires CopyFrom(a, n, s, 0) && a[2 * n..] == rest
    modifies a
    ensures |w.done| == n && SquareState(a, n, s, w, rest) && Passing(w, p, acc) && 0 <= acc < 0x10_0000_0000
  {
    w := Pass([], [0]);
    acc := 0;
    for i := 0 to n
      invariant |w.done| == i && SquareState(a, n, s, w, rest) && Passing(w, p, acc) && 0 <= acc < 0x10_0000_0000
    {
      AccumulatorFits(s, i, 0, acc);
      ghost var carry := acc;
      acc := SumLow(a, n, i, acc, s);
      w := SquareStep(w, p, carry, acc);
      a[i] := (acc % TWO32) % BASE;
      acc := acc / BASE;
    }
  }

  method HighColumns(a: array<int>, n: nat, ghost s: seq<int>, ghost p: seq<int>, ghost rest: seq<int>,
                     ghost w0: Pass, acc0: int)
      returns (ghost w: Pass, acc: int)
    requires n <= 64 && IsDigits(s) && p == Columns(s, s) && |s| == n
    requires |w0.done| == n && SquareState(a, n, s, w0, rest) && Passing(w0, p, acc0) && 0 <= acc0 < 0x10_0000_0000
    modifies a
    ensures |w.done| == 2 * n && SquareState(a, n, s, w, rest) && Passing(w, p, acc)
  {
    w, acc := w0, acc0;
    for i := n to 2 * n
      invariant |w.done| == i && SquareState(a, n, s, w, rest) && Passing(w, p, acc) && 0 <= acc < 0x10_0000_0000
    {
      AccumulatorFits(s, i, 0, acc);
      ghost var carry := acc;
      acc := SumHigh(a, n, i, acc, s);
      w := SquareStep(w, p, carry, acc);
      a[i] := (acc % TWO32) % BASE;
      acc := acc / BASE;
    }
  }

  method SquareDigits(a: array<int>, n: nat, ghost s: seq<int>) returns (ghost w: Pass, acc: int)
    requires 2 * n <= a.Length && n <= 64 && a[..n] == s && IsDigits(s)
    modifies a
    ensures |w.done| == 2 * n && a[..2 * n] == w.done && a[2 * n..] == old(a[2 * n..])
    ensures Passing(w, Columns(s, s), acc)
  {
    ghost var p, rest := Columns(s, s), a[2 * n..];
    CopyUp(a, n, s);
    w, acc := LowColumns(a, n, s, p, rest);
    w, acc := HighColumns(a, n, s, p, rest, w, acc);
  }

  lemma SquareStep(w: Pass, p: seq<int>, c: int, acc: int) returns (w': Pass)
    requires Passing(w, p, c) && |w.done| < |p| && acc == c + p[|w.done|]
    requires 0 <= acc < 0x8000_0000_0000_0000
    ensures w'.done == w.done + [(acc % TWO32) % BASE]
    ensures Passing(w', p, acc / BASE)
    ensures 0 <= acc / BASE < 0x10_0000_0000
  {
    var d, c' := SplitAccumulator(acc);
    PassStep(w, p, c, d, c', p, 0);
    w' := Next(w, d, c');
  }

  lemma SplitAccumulator(acc: int) returns (d: int, c: int)
    requires 0 <= acc < 0x8000_0000_0000_0000
    ensures d == (acc % TWO32) % BASE && c == acc / BASE
    ensures 0 <= d < BASE && 0 <= c < 0x10_0000_0000 && d + 0x1000_0000 * c == acc
  {
    d, c := (acc % TWO32) % BASE, acc / BASE;
  }

  /** The square of n digits fits in 2n digits. */
  lemma SquareLeavesNoCarry(s: seq<int>, r: int, acc: int)
    requires IsDigits(s) && 0 <= r < Scale(1, 2 * |s|)
    requires r + Scale(acc, 2 * |s|) == V(s) * V(s)
    ensures acc == 0
  {
    var n, v := |s|, V(s);
    VBound(s);
    hide V, Scale;
    SquareBelow(v, Scale(1, n));
    ScaleProduct(1, 1, n, n);
    NoCarry(r, v * v, acc, 2 * n);
  }

  lemma SquareBelow(v: int, b: int)
    requires 0 <= v < b
    ensures 0 <= v * v < b * b
  {
    MulMonotone(v, b, v);
    MulMonotone(v + 1, b, b);
  }

  lemma NoCarry(r: int, total: int, acc: int, n: nat)
    requires 0 <= r < Scale(1, n) && 0 <= total < Scale(1, n) && r + Scale(acc, n) == total
    ensures acc == 0
  {
    hide Scale;
    if acc < 0 {
      BorrowOutweighs(-acc, n);
      assert false;
    }
    if acc > 0 {
      ScaleMonotone(1, acc, n);
      assert false;
    }
  }

  lemma ScaleProduct(v: int, w: int, m: nat, n: nat)
    ensures Scale(v, m) * Scale(w, n) == Scale(v * w, m + n)
  {
    hide Scale;
    ScaleTimes(v, w, n);
    ScaleTimes(Scale(w, n), v, m);
    ScaleSum(v * w, n, m);
  }
}
