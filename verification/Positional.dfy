/**
  Positional numbers over the bignum base 2^28, least significant digit first,
  and the digit-by-digit arithmetic that the bignum performs in place.
 */
module Positional {

  const BASE: int := 0x1000_0000

  /** The number denoted by a sequence of digits; the digits may be out of range. */
  ghost function V(s: seq<int>): int {
    if |s| == 0 then 0 else s[0] + 0x1000_0000 * V(s[1..])
  }

  /** v moved up by n digits: v times BASE to the power n. */
  ghost function Scale(v: int, n: nat): int {
    if n == 0 then v else 0x1000_0000 * Scale(v, n - 1)
  }

  ghost predicate IsDigits(s: seq<int>) {
    forall i :: 0 <= i < |s| ==> 0 <= s[i] < BASE
  }

  /** Digits without a leading zero. */
  ghost predicate Trimmed(s: seq<int>) {
    IsDigits(s) && (|s| > 0 ==> s[|s| - 1] > 0)
  }

  ghost function Zeros(n: nat): (s: seq<int>)
    ensures |s| == n && forall i :: 0 <= i < n ==> s[i] == 0
  {
    seq(n, _ => 0)
  }

  // ---------- Scaling ----------

  lemma {:induction false} ScaleAdd(v: int, w: int, n: nat)
    ensures Scale(v + w, n) == Scale(v, n) + Scale(w, n)
  {
    if n > 0 { ScaleAdd(v, w, n - 1); }
  }

  lemma {:induction false} ScaleSum(v: int, m: nat, n: nat)
    ensures Scale(Scale(v, m), n) == Scale(v, m + n)
  {
    if n > 0 { ScaleSum(v, m, n - 1); }
  }

  lemma {:induction false} ScaleMonotone(v: int, w: int, n: nat)
    requires v <= w
    ensures Scale(v, n) <= Scale(w, n)
    ensures v < w ==> Scale(v, n) < Scale(w, n)
    ensures Scale(0, n) == 0
  {
    if n > 0 { ScaleMonotone(v, w, n - 1); }
  }

  lemma {:induction false} ScaleGrows(m: nat, n: nat)
    requires m <= n
    ensures 1 <= Scale(1, m) <= Scale(1, n)
    ensures m < n ==> BASE * Scale(1, m) <= Scale(1, n)
    decreases n
  {
    if m < n {
      ScaleGrows(m, n - 1);
    } else if n > 0 {
      ScaleGrows(n - 1, n - 1);
    }
  }

  /** A borrow at place n outweighs any number below that place. */
  lemma {:induction false} BorrowOutweighs(b: int, n: nat)
    requires 1 <= b
    ensures Scale(-b, n) <= -Scale(1, n)
  {
    if n > 0 { BorrowOutweighs(b, n - 1); }
  }

  lemma {:induction false} ScaleTimes(f: int, v: int, n: nat)
    ensures Scale(f * v, n) == f * Scale(v, n)
  {
    if n > 0 {
      ScaleTimes(f, v, n - 1);
      TimesBase(f, Scale(v, n - 1));
    }
  }

  lemma TimesBase(f: int, v: int)
    ensures f * (0x1000_0000 * v) == 0x1000_0000 * (f * v)
  {
  }

  lemma DistributeDigit(f: int, d: int, v: int)
    ensures f * (d + 0x1000_0000 * v) == f * d + 0x1000_0000 * (f * v)
  {
  }

  lemma MulMonotone(a: int, b: int, c: int)
    requires a <= b && 0 <= c
    ensures a * c <= b * c
  {
  }

  /** A quotient and a remainder are determined by their equation. */
  lemma QuotientIs(x: int, p: int, q: int, r: int)
    requires p > 0 && x == p * q + r && 0 <= r < p
    ensures x / p == q && x % p == r
  {
    var q', r' := x / p, x % p;
    assert x == p * q' + r';
    if q' < q {
      MulMonotone(q' + 1, q, p);
    } else if q < q' {
      MulMonotone(q + 1, q', p);
    }
  }

  lemma ProductNat(x: int, y: int)
    requires x >= 0 && y >= 0
    ensures x * y >= 0
  {
  }

  // ---------- Digit sequences ----------

  lemma ProductOfThree(a: int, b: int, c: int)
    ensures a * (b * c) == (a * b) * c
  {
  }

  lemma {:induction false} VConcat(s: seq<int>, t: seq<int>)
    ensures V(s + t) == V(s) + Scale(V(t), |s|)
  {
    if |s| == 0 {
      assert s + t == t;
    } else {
      assert (s + t)[1..] == s[1..] + t;
      VConcat(s[1..], t);
    }
  }

  lemma {:induction false} VZeros(n: nat)
    ensures V(Zeros(n)) == 0
  {
    if n > 0 {
      assert Zeros(n)[1..] == Zeros(n - 1);
      VZeros(n - 1);
    }
  }

  lemma {:induction false} VBound(s: seq<int>)
    requires IsDigits(s)
    ensures 0 <= V(s) < Scale(1, |s|)
  {
    if |s| > 0 { VBound(s[1..]); }
  }

  /** A number whose top digit is not zero is at least the place value of that digit. */
  lemma {:induction false} VTop(s: seq<int>)
    requires Trimmed(s) && |s| > 0
    ensures Scale(s[|s| - 1], |s| - 1) <= V(s) < Scale(s[|s| - 1] + 1, |s| - 1)
  {
    if |s| > 1 { VTop(s[1..]); }
  }

  /** Leading zeros do not count. */
  lemma VLeadingZeros(s: seq<int>, n: nat)
    ensures V(s + Zeros(n)) == V(s)
  {
    VConcat(s, Zeros(n));
    VZeros(n);
    ScaleMonotone(0, 0, |s|);
  }

  /** Hidden zeros scale. */
  lemma VHiddenZeros(n: nat, s: seq<int>)
    ensures V(Zeros(n) + s) == Scale(V(s), n)
  {
    VConcat(Zeros(n), s);
    VZeros(n);
  }

  lemma VUnroll(s: seq<int>, i: nat)
    requires i < |s|
    ensures V(s[i..]) == s[i] + 0x1000_0000 * V(s[i + 1..])
  {
    assert s[i..][1..] == s[i + 1..];
  }

  /** The sum of two numbers minus a third, as far as the digits from i upwards tell. */
  ghost function Excess(a: seq<int>, b: seq<int>, c: seq<int>, i: nat): int
    requires |a| == |b| == |c| && i <= |a|
    decreases |a| - i
  {
    if i == |a| then 0 else a[i] + b[i] - c[i] + 0x1000_0000 * Excess(a, b, c, i + 1)
  }

  lemma NoExcess(a: seq<int>, b: seq<int>, c: seq<int>)
    requires |a| == |b| == |c|
    ensures Excess(a, b, c, |a|) == 0
  {
  }

  lemma ExcessUnroll(a: seq<int>, b: seq<int>, c: seq<int>, i: nat)
    requires |a| == |b| == |c| && i < |a|
    ensures Excess(a, b, c, i) == a[i] + b[i] - c[i] + 0x1000_0000 * Excess(a, b, c, i + 1)
  {
  }

  lemma {:induction false} ExcessValue(a: seq<int>, b: seq<int>, c: seq<int>, i: nat)
    requires |a| == |b| == |c| && i <= |a|
    ensures Excess(a, b, c, i) == V(a[i..]) + V(b[i..]) - V(c[i..])
    decreases |a| - i
  {
    if i < |a| {
      VUnroll(a, i);
      VUnroll(b, i);
      VUnroll(c, i);
      ExcessValue(a, b, c, i + 1);
    }
  }

  /** An excess of one, or a lack of two, can no longer be undone by lower digits. */
  lemma {:induction false} ExcessDecided(a: seq<int>, b: seq<int>, c: seq<int>, i: nat)
    requires |a| == |b| == |c| && IsDigits(a) && IsDigits(b) && IsDigits(c) && i <= |a|
    ensures Excess(a, b, c, i) >= 1 ==> Excess(a, b, c, 0) >= 1
    ensures Excess(a, b, c, i) <= -2 ==> Excess(a, b, c, 0) <= -2
    decreases i
  {
    if i > 0 { ExcessDecided(a, b, c, i - 1); }
  }

  /** In a plain comparison any difference is final. */
  lemma {:induction false} ExcessSign(a: seq<int>, c: seq<int>, i: nat)
    requires |a| == |c| && IsDigits(a) && IsDigits(c) && i <= |a|
    ensures Excess(a, Zeros(|a|), c, i) > 0 ==> Excess(a, Zeros(|a|), c, 0) > 0
    ensures Excess(a, Zeros(|a|), c, i) < 0 ==> Excess(a, Zeros(|a|), c, 0) < 0
    decreases i
  {
    if i > 0 { ExcessSign(a, c, i - 1); }
  }

  lemma {:induction false} ExcessHidden(a: seq<int>, b: seq<int>, c: seq<int>, n: nat)
    requires |a| == |b| == |c| && n <= |a|
    requires forall k :: 0 <= k < n ==> a[k] == 0 && b[k] == 0 && c[k] == 0
    ensures Excess(a, b, c, n) < 0 <==> Excess(a, b, c, 0) < 0
    ensures Excess(a, b, c, n) > 0 <==> Excess(a, b, c, 0) > 0
  {
    if n > 0 { ExcessHidden(a, b, c, n - 1); }
  }

  // ---------- Normalizing columns into digits ----------

  /**
    r results from the columns p by passing carries c upwards: what a column
    holds plus the carry into it is its digit plus BASE times the carry out.
    Borrows are negative carries.
   */
  ghost predicate Normalizes(r: seq<int>, p: seq<int>, c: seq<int>) {
    && |r| == |p| && |c| == |p| + 1 && c[0] == 0
    && forall k, j :: 0 <= k < |p| && j == k + 1 ==> r[k] + 0x1000_0000 * c[j] == p[k] + c[k]
  }

  lemma {:induction false} NormalizesFrom(r: seq<int>, p: seq<int>, c: seq<int>, i: nat)
    requires Normalizes(r, p, c) && i <= |p|
    ensures V(r[i..]) + Scale(c[|p|], |p| - i) == V(p[i..]) + c[i]
    decreases |p| - i
  {
    if i < |p| {
      NormalizesFrom(r, p, c, i + 1);
      VUnroll(r, i);
      VUnroll(p, i);
      assert r[i] + 0x1000_0000 * c[i + 1] == p[i] + c[i];
    }
  }

  lemma NormalizesValue(r: seq<int>, p: seq<int>, c: seq<int>)
    requires Normalizes(r, p, c)
    ensures V(r) + Scale(c[|p|], |p|) == V(p)
  {
    assert r[0..] == r && p[0..] == p;
    NormalizesFrom(r, p, c, 0);
  }

  /** One more column normalized. */
  lemma NormalizesExtend(r: seq<int>, p: seq<int>, c: seq<int>, d: int, col: int, carry: int)
    requires Normalizes(r, p, c)
    requires d + 0x1000_0000 * carry == col + c[|p|]
    ensures Normalizes(r + [d], p + [col], c + [carry])
  {
  }

  ghost function At(t: seq<int>, i: int): int {
    if 0 <= i < |t| then t[i] else 0
  }

  /** The columns of s minus f times t. */
  ghost function MinusTimes(s: seq<int>, f: int, t: seq<int>): (p: seq<int>)
    ensures |p| == |s| && forall k :: 0 <= k < |s| ==> p[k] == s[k] - f * At(t, k)
  {
    seq(|s|, k requires 0 <= k < |s| => s[k] - f * At(t, k))
  }

  lemma {:induction false} MinusTimesValue(s: seq<int>, f: int, t: seq<int>)
    requires |t| <= |s|
    ensures V(MinusTimes(s, f, t)) == V(s) - f * V(t)
  {
    if |s| > 0 {
      var t' := if |t| == 0 then t else t[1..];
      assert MinusTimes(s, f, t)[1..] == MinusTimes(s[1..], f, t');
      MinusTimesValue(s[1..], f, t');
      DistributeDigit(f, At(t, 0), V(t'));
    }
  }

  /** f times s, column by column. */
  lemma TimesValue(s: seq<int>, f: int)
    ensures V(MinusTimes(Zeros(|s|), -f, s)) == f * V(s)
  {
    MinusTimesValue(Zeros(|s|), -f, s);
    VZeros(|s|);
  }

  /** A leading zero makes a number smaller than its top place. */
  lemma LeadingZero(s: seq<int>)
    requires IsDigits(s) && |s| > 0 && s[|s| - 1] == 0
    ensures V(s) < Scale(1, |s| - 1)
  {
    var n := |s| - 1;
    assert s == s[..n] + Zeros(1);
    VLeadingZeros(s[..n], 1);
    VBound(s[..n]);
  }

  /** A multiple of the place value n that fits in s fits in the digits from n upwards. */
  lemma HighPart(s: seq<int>, n: nat, m: int)
    requires IsDigits(s) && n <= |s| && Scale(m, n) <= V(s)
    ensures m <= V(s[n..])
  {
    var high := V(s[n..]);
    assert s == s[..n] + s[n..];
    VConcat(s[..n], s[n..]);
    VBound(s[..n]);
    ScaleAdd(high, 1, n);
    if high < m {
      ScaleMonotone(high + 1, m, n);
      assert false;
    }
  }

  lemma ReplaceHigh(s: seq<int>, n: nat, r: seq<int>, m: int)
    requires n <= |s| && V(r) == V(s[n..]) - m
    ensures V(s[..n] + r) == V(s) - Scale(m, n)
  {
    assert s == s[..n] + s[n..];
    VConcat(s[..n], s[n..]);
    VConcat(s[..n], r);
    ScaleAdd(V(r), m, n);
  }


  // ---------- Powers of two ----------

  function Pow2(n: nat): (r: nat)
    ensures r > 0
  {
    if n == 0 then 1 else 2 * Pow2(n - 1)
  }

  lemma {:induction false} Pow2Add(m: nat, n: nat)
    ensures Pow2(m + n) == Pow2(m) * Pow2(n)
  {
    if n > 0 {
      Pow2Add(m, n - 1);
      var x, y := Pow2(m), Pow2(n - 1);
      assert 2 * (x * y) == x * (2 * y);
    }
  }

  lemma Pow2Small()
    ensures Pow2(4) == 16 && Pow2(14) == 0x4000 && Pow2(28) == 0x1000_0000 && Pow2(32) == 0x1_0000_0000
  {
    assert Pow2(7) == 128;
    Pow2Add(7, 7);
    Pow2Add(14, 14);
    Pow2Add(28, 4);
  }

  /** Shifting by 28 bits is scaling by one digit. */
  lemma {:induction false} Pow2Scale(v: int, n: nat, r: nat)
    ensures Pow2(28 * n + r) * v == Scale(Pow2(r) * v, n)
  {
    if n > 0 {
      Pow2Small();
      Pow2Scale(v, n - 1, r);
      Pow2Add(28, 28 * (n - 1) + r);
      var x := Pow2(28 * (n - 1) + r);
      assert (0x1000_0000 * x) * v == 0x1000_0000 * (x * v);
    }
  }
}
