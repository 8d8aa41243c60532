/**
  Sorting an array in place: insertion sort for short ranges, otherwise
  quicksort with a three-way partition that gathers elements equal to the pivot
  at both ends.
 */
module Qsort {
  /** A comparison function that orders all values, equal ones included. */
  ghost predicate TotalPreorder<T(!new)>(cmp: (T, T) -> int) {
    && (forall x, y :: cmp(x, y) < 0 <==> cmp(y, x) > 0)
    && (forall x, y, z :: cmp(x, y) <= 0 && cmp(y, z) <= 0 ==> cmp(x, z) <= 0)
  }

  lemma EqualToItself<T(!new)>(cmp: (T, T) -> int, x: T)
    requires TotalPreorder(cmp)
    ensures cmp(x, x) == 0
  {
  }

  ghost predicate Sorted<T>(s: seq<T>, lo: int, hi: int, cmp: (T, T) -> int)
    requires 0 <= lo <= hi <= |s|
  {
    forall i, j :: lo <= i < j < hi ==> cmp(s[i], s[j]) <= 0
  }

  /** The same elements inside the range, and outside it the same array. */
  ghost predicate Rearranged<T>(s: seq<T>, t: seq<T>, lo: int, hi: int) {
    && 0 <= lo <= hi <= |s| == |t| && s[..lo] == t[..lo] && s[hi..] == t[hi..]
    && multiset(s[lo..hi]) == multiset(t[lo..hi])
  }

  lemma RearrangedTwice<T>(s: seq<T>, t: seq<T>, u: seq<T>, lo: int, hi: int)
    requires Rearranged(s, t, lo, hi) && Rearranged(t, u, lo, hi)
    ensures Rearranged(s, u, lo, hi)
  {
  }

  lemma RearrangedWider<T>(s: seq<T>, t: seq<T>, l: int, h: int, lo: int, hi: int)
    requires Rearranged(s, t, l, h) && 0 <= lo <= l && h <= hi <= |s|
    ensures Rearranged(s, t, lo, hi)
  {
    assert s[..lo] == s[..l][..lo] && t[..lo] == t[..l][..lo];
    assert s[hi..] == s[h..][hi - h..] && t[hi..] == t[h..][hi - h..];
    assert s[lo..l] == s[..l][lo..] && t[lo..l] == t[..l][lo..];
    assert s[h..hi] == s[h..][..hi - h] && t[h..hi] == t[h..][..hi - h];
    assert s[lo..hi] == s[lo..l] + s[l..h] + s[h..hi];
    assert t[lo..hi] == t[lo..l] + t[l..h] + t[h..hi];
  }

  ghost function Swapped<T>(s: seq<T>, i: int, j: int): (t: seq<T>)
    requires 0 <= i < |s| && 0 <= j < |s|
    ensures |t| == |s|
  {
    s[i := s[j]][j := s[i]]
  }

  lemma SwapRearranges<T>(s: seq<T>, i: int, j: int, lo: int, hi: int)
    requires 0 <= lo <= i < hi <= |s| && lo <= j < hi
    ensures Rearranged(s, Swapped(s, i, j), lo, hi)
  {
    var r := s[lo..hi];
    assert Swapped(s, i, j)[lo..hi] == r[i - lo := r[j - lo]][j - lo := r[i - lo]];
  }

  method Swap<T>(a: array<T>, i: int, j: int)
    requires 0 <= i < a.Length && 0 <= j < a.Length
    modifies a
    ensures a[..] == Swapped(old(a[..]), i, j)
  {
    a[i], a[j] := a[j], a[i];
  }

  /** Exchanges two stretches of the same length that do not overlap. */
  method SwapBlocks<T>(a: array<T>, i: int, j: int, n: int, lo: int, hi: int)
    requires 0 <= lo <= i && 0 <= n && i + n <= j && j + n <= hi <= a.Length
    modifies a
    ensures Rearranged(old(a[..]), a[..], lo, hi)
    ensures forall k, l :: i <= k < i + n && l == k - i + j ==> a[k] == old(a[l]) && a[l] == old(a[k])
    ensures forall k :: lo <= k < hi && !(i <= k < i + n) && !(j <= k < j + n) ==> a[k] == old(a[k])
  {
    hide Rearranged, Swapped;
    var m := 0;
    ghost var s := a[..];
    Unchanged(s, lo, hi);
    while m < n
      invariant 0 <= m <= n && Rearranged(s, a[..], lo, hi)
      invariant forall k, l :: i <= k < i + m && l == k - i + j ==> a[k] == s[l] && a[l] == s[k]
      invariant forall k :: lo <= k < hi && !(i <= k < i + m) && !(j <= k < j + m) ==> a[k] == s[k]
    {
      SwapInside(a, i + m, j + m, lo, hi, s);
      m := m + 1;
    }
  }

  lemma Unchanged<T>(s: seq<T>, lo: int, hi: int)
    requires 0 <= lo <= hi <= |s|
    ensures Rearranged(s, s, lo, hi)
  {
  }

  lemma SwapAt<T>(s: seq<T>, i: int, j: int, t: seq<T>)
    requires 0 <= i < |s| && 0 <= j < |s| && t == Swapped(s, i, j)
    ensures |t| == |s| && t[i] == s[j] && t[j] == s[i] && forall k :: 0 <= k < |s| && k != i && k != j ==> t[k] == s[k]
  {
  }

  // ---------- Insertion sort ----------

  /** Sorted up to `last`, except that the element at `at` may belong further down. */
  ghost predicate Inserting<T>(s: seq<T>, lo: int, at: int, last: int, cmp: (T, T) -> int)
    requires 0 <= lo <= at <= last < |s|
  {
    && (forall i, j :: lo <= i < j <= last && j != at && i != at ==> cmp(s[i], s[j]) <= 0)
    && (forall j :: at < j <= last ==> cmp(s[at], s[j]) <= 0)
  }

  /** Moves the element at m down to its place. */
  method Insert<T(!new)>(a: array<T>, lo: int, m: int, hi: int, cmp: (T, T) -> int)
    requires TotalPreorder(cmp) && 0 <= lo < m < hi <= a.Length && Sorted(a[..], lo, m, cmp)
    modifies a
    ensures Sorted(a[..], lo, m + 1, cmp) && Rearranged(old(a[..]), a[..], lo, hi)
  {
    hide Rearranged, Swapped, Sorted, Inserting, TotalPreorder;
    ghost var s := a[..];
    Unchanged(s, lo, hi);
    var l := m;
    StartInsert(a[..], lo, m, cmp);
    while l > lo && cmp(a[l - 1], a[l]) > 0
      invariant lo <= l <= m && Rearranged(s, a[..], lo, hi)
      invariant Inserting(a[..], lo, l, m, cmp)
    {
      ghost var t := a[..];
      SwapInside(a, l, l - 1, lo, hi, s);
      StepDown(t, a[..], lo, l, m, cmp);
      l := l - 1;
    }
    Inserted(a[..], lo, l, m, cmp);
  }

  /** A swap inside a range that is being rearranged. */
  method SwapInside<T>(a: array<T>, i: int, j: int, lo: int, hi: int, ghost s: seq<T>)
    requires 0 <= lo <= i < hi <= a.Length && lo <= j < hi && Rearranged(s, a[..], lo, hi)
    modifies a
    ensures Rearranged(s, a[..], lo, hi) && a[..] == Swapped(old(a[..]), i, j)
    ensures a[i] == old(a[j]) && a[j] == old(a[i])
    ensures forall k :: 0 <= k < a.Length && k != i && k != j ==> a[k] == old(a[k])
  {
    hide Rearranged, Swapped;
    ghost var t := a[..];
    Swap(a, i, j);
    SwapAt(t, i, j, a[..]);
    SwapRearranges(t, i, j, lo, hi);
    RearrangedTwice(s, t, a[..], lo, hi);
  }

  method InsertionSort<T(!new)>(a: array<T>, lo: int, hi: int, cmp: (T, T) -> int)
    requires TotalPreorder(cmp) && 0 <= lo <= hi <= a.Length
    modifies a
    ensures Sorted(a[..], lo, hi, cmp) && Rearranged(old(a[..]), a[..], lo, hi)
  {
    hide Rearranged, TotalPreorder;
    ghost var s := a[..];
    Unchanged(s, lo, hi);
    var m := lo + 1;
    while m < hi
      invariant lo + 1 <= m && (m <= hi || hi == lo)
      invariant hi > lo ==> Sorted(a[..], lo, m, cmp)
      invariant Rearranged(s, a[..], lo, hi)
    {
      ghost var t := a[..];
      Insert(a, lo, m, hi, cmp);
      RearrangedTwice(s, t, a[..], lo, hi);
      m := m + 1;
    }
  }

  lemma StartInsert<T>(s: seq<T>, lo: int, m: int, cmp: (T, T) -> int)
    requires 0 <= lo <= m < |s| && Sorted(s, lo, m, cmp)
    ensures Inserting(s, lo, m, m, cmp)
  {
  }

  lemma StepDown<T(!new)>(s: seq<T>, t: seq<T>, lo: int, at: int, last: int, cmp: (T, T) -> int)
    requires TotalPreorder(cmp) && 0 <= lo < at <= last < |s| == |t| && Inserting(s, lo, at, last, cmp)
    requires cmp(s[at - 1], s[at]) > 0 && t[at] == s[at - 1] && t[at - 1] == s[at]
    requires forall k :: 0 <= k < |s| && k != at && k != at - 1 ==> t[k] == s[k]
    ensures Inserting(t, lo, at - 1, last, cmp)
  {
  }

  lemma Inserted<T(!new)>(s: seq<T>, lo: int, at: int, last: int, cmp: (T, T) -> int)
    requires TotalPreorder(cmp) && 0 <= lo <= at <= last < |s| && Inserting(s, lo, at, last, cmp)
    requires at == lo || cmp(s[at - 1], s[at]) <= 0
    ensures Sorted(s, lo, last + 1, cmp)
  {
    forall i | lo <= i < at
      ensures cmp(s[i], s[at]) <= 0
    {
      if i < at - 1 {
        assert cmp(s[i], s[at - 1]) <= 0;
      }
    }
  }

  // ---------- Quicksort ----------

  /** The index of the median of three elements. */
  function Median3<T>(s: seq<T>, a: int, b: int, c: int, cmp: (T, T) -> int): (m: int)
    requires 0 <= a < |s| && 0 <= b < |s| && 0 <= c < |s|
    ensures m == a || m == b || m == c
  {
    if cmp(s[a], s[b]) < 0 then
      if cmp(s[b], s[c]) < 0 then b else if cmp(s[a], s[c]) < 0 then c else a
    else
      if cmp(s[b], s[c]) > 0 then b else if cmp(s[a], s[c]) > 0 then c else a
  }

  /** One of the elements at x and y is not greater than the one at m, and the other not less. */
  ghost predicate Amid<T>(s: seq<T>, x: int, m: int, y: int, cmp: (T, T) -> int)
    requires 0 <= x < |s| && 0 <= m < |s| && 0 <= y < |s|
  {
    || (cmp(s[x], s[m]) <= 0 && cmp(s[m], s[y]) <= 0)
    || (cmp(s[y], s[m]) <= 0 && cmp(s[m], s[x]) <= 0)
  }

  /** m is one of three places, and its element lies between the other two. */
  ghost predicate IsMedian<T>(s: seq<T>, m: int, a: int, b: int, c: int, cmp: (T, T) -> int)
    requires 0 <= a < |s| && 0 <= b < |s| && 0 <= c < |s|
  {
    (m == a && Amid(s, b, m, c, cmp)) || (m == b && Amid(s, a, m, c, cmp)) || (m == c && Amid(s, a, m, b, cmp))
  }

  lemma Median3IsMiddle<T(!new)>(s: seq<T>, a: int, b: int, c: int, cmp: (T, T) -> int)
    requires TotalPreorder(cmp) && 0 <= a < |s| && 0 <= b < |s| && 0 <= c < |s|
    ensures IsMedian(s, Median3(s, a, b, c, cmp), a, b, c, cmp)
  {
  }

  /** Of a longer range, the medians of three elements each at its start, middle and end. */
  ghost predicate AreMedians<T>(s: seq<T>, lo: int, hi: int, l: int, m: int, r: int, cmp: (T, T) -> int)
    requires 0 <= lo && lo + 8 <= hi <= |s|
  {
    var d, middle, last := (hi - lo) / 8, lo + (hi - lo) / 2, hi - 1;
    && lo <= l < hi && lo <= m < hi && lo <= r < hi
    && IsMedian(s, l, lo, lo + d, lo + 2 * d, cmp) && IsMedian(s, m, middle - d, middle, middle + d, cmp)
    && IsMedian(s, r, last - 2 * d, last - d, last, cmp)
  }

  /** The median of the first, middle and last element, or of the three medians. */
  ghost predicate IsPivot<T>(s: seq<T>, lo: int, hi: int, p: int, cmp: (T, T) -> int)
    requires 0 <= lo && lo + 8 <= hi <= |s|
  {
    if hi - lo <= 40 then IsMedian(s, p, lo, lo + (hi - lo) / 2, hi - 1, cmp)
    else exists l, m, r :: AreMedians(s, lo, hi, l, m, r, cmp) && IsMedian(s, p, l, m, r, cmp)
  }

  method ThreeMedians<T(!new)>(a: array<T>, lo: int, hi: int, cmp: (T, T) -> int) returns (l: int, m: int, r: int)
    requires TotalPreorder(cmp) && 0 <= lo && lo + 8 <= hi <= a.Length
    ensures AreMedians(a[..], lo, hi, l, m, r, cmp)
  {
    hide Median3, IsMedian, TotalPreorder;
    var d, middle, last := (hi - lo) / 8, lo + (hi - lo) / 2, hi - 1;
    Median3IsMiddle(a[..], lo, lo + d, lo + 2 * d, cmp);
    Median3IsMiddle(a[..], middle - d, middle, middle + d, cmp);
    Median3IsMiddle(a[..], last - 2 * d, last - d, last, cmp);
    l := Median3(a[..], lo, lo + d, lo + 2 * d, cmp);
    m := Median3(a[..], middle - d, middle, middle + d, cmp);
    r := Median3(a[..], last - 2 * d, last - d, last, cmp);
  }

  method PickPivot<T(!new)>(a: array<T>, lo: int, hi: int, cmp: (T, T) -> int) returns (p: int)
    requires TotalPreorder(cmp) && 0 <= lo && lo + 8 <= hi <= a.Length
    ensures lo <= p < hi && IsPivot(a[..], lo, hi, p, cmp)
  {
    hide Median3, IsMedian, TotalPreorder;
    var l, m, r := lo, lo + (hi - lo) / 2, hi - 1;
    if hi - lo > 40 {
      l, m, r := ThreeMedians(a, lo, hi, cmp);
    }
    Median3IsMiddle(a[..], l, m, r, cmp);
    p := Median3(a[..], l, m, r, cmp);
  }

  ghost predicate Below<T>(s: seq<T>, lo: int, hi: int, p: T, cmp: (T, T) -> int)
    requires 0 <= lo && hi <= |s|
  {
    forall i :: lo <= i < hi ==> cmp(s[i], p) < 0
  }

  ghost predicate Equal<T>(s: seq<T>, lo: int, hi: int, p: T, cmp: (T, T) -> int)
    requires 0 <= lo && hi <= |s|
  {
    forall i :: lo <= i < hi ==> cmp(s[i], p) == 0
  }

  ghost predicate Above<T>(s: seq<T>, lo: int, hi: int, p: T, cmp: (T, T) -> int)
    requires 0 <= lo && hi <= |s|
  {
    forall i :: lo <= i < hi ==> cmp(s[i], p) > 0
  }

  /** Equal, smaller, not yet seen, greater, equal: the five regions of the partition, from left to right. */
  ghost predicate Regions<T>(s: seq<T>, lo: int, hi: int, pa: int, pb: int, pc: int, pd: int, p: T, cmp: (T, T) -> int) {
    && 0 <= lo <= pa <= pb <= pc + 1 && pc <= pd < hi <= |s|
    && Equal(s, lo, pa, p, cmp) && Below(s, pa, pb, p, cmp)
    && Above(s, pc + 1, pd + 1, p, cmp) && Equal(s, pd + 1, hi, p, cmp)
  }

  /** Moves pb and pc towards each other until everything is classified. */
  method Partition<T(!new)>(a: array<T>, lo: int, hi: int, cmp: (T, T) -> int, ghost s: seq<T>)
      returns (pa: int, pb: int, pc: int, pd: int)
    requires TotalPreorder(cmp) && 0 <= lo < hi <= a.Length && Rearranged(s, a[..], lo, hi)
    modifies a
    ensures Rearranged(s, a[..], lo, hi) && a[lo] == old(a[lo]) && lo < pa && pb == pc + 1
    ensures Regions(a[..], lo, hi, pa, pb, pc, pd, a[lo], cmp)
  {
    hide Rearranged, TotalPreorder, Swapped;
    ghost var p := a[lo];
    EqualToItself(cmp, p);
    pa, pb, pc, pd := lo, lo, hi - 1, hi - 1;
    var done := false;
    while !done
      invariant Rearranged(s, a[..], lo, hi) && Regions(a[..], lo, hi, pa, pb, pc, pd, p, cmp)
      invariant a[lo] == p && (pb > lo ==> pa > lo) && (pb == lo ==> pc == hi - 1)
      invariant done ==> pb == pc + 1 && pa > lo
      decreases !done, pc - pb + 1
    {
      ghost var before := pc - pb;
      pa, pb := ScanUp(a, lo, hi, cmp, pa, pb, pc, pd, s);
      pc, pd := ScanDown(a, lo, hi, cmp, pa, pb, pc, pd, s);
      if pb > pc {
        done := true;
      } else {
        SwapInside(a, pb, pc, lo, hi, s);
        pb := pb + 1;
        pc := pc - 1;
      }
    }
  }

  /** Passes elements not greater than the pivot, moving equal ones to the front. */
  method ScanUp<T(!new)>(a: array<T>, lo: int, hi: int, cmp: (T, T) -> int, pa0: int, pb0: int, pc: int, pd: int,
                         ghost s: seq<T>)
      returns (pa: int, pb: int)
    requires TotalPreorder(cmp) && 0 <= lo < hi <= a.Length && Rearranged(s, a[..], lo, hi)
    requires Regions(a[..], lo, hi, pa0, pb0, pc, pd, a[lo], cmp) && cmp(a[lo], a[lo]) == 0
    requires (pb0 > lo ==> pa0 > lo) && (pb0 == lo ==> pc == hi - 1)
    modifies a
    ensures Rearranged(s, a[..], lo, hi) && a[lo] == old(a[lo]) && pb0 <= pb && lo < pa
    ensures Regions(a[..], lo, hi, pa, pb, pc, pd, a[lo], cmp)
    ensures pb > pc || cmp(a[pb], a[lo]) > 0
  {
    hide Rearranged, TotalPreorder, Swapped;
    ghost var p := a[lo];
    pa, pb := pa0, pb0;
    while pb <= pc && cmp(a[pb], a[lo]) <= 0
      invariant Rearranged(s, a[..], lo, hi) && Regions(a[..], lo, hi, pa, pb, pc, pd, p, cmp)
      invariant a[lo] == p && pb0 <= pb && (pb > lo ==> pa > lo)
    {
      if cmp(a[pb], a[lo]) == 0 {
        SwapInside(a, pa, pb, lo, hi, s);
        pa := pa + 1;
      }
      pb := pb + 1;
    }
  }

  /** Passes elements not smaller than the pivot, moving equal ones to the end. */
  method ScanDown<T(!new)>(a: array<T>, lo: int, hi: int, cmp: (T, T) -> int, pa: int, pb: int, pc0: int, pd0: int,
                           ghost s: seq<T>)
      returns (pc: int, pd: int)
    requires TotalPreorder(cmp) && 0 <= lo < hi <= a.Length && Rearranged(s, a[..], lo, hi) && lo < pa
    requires Regions(a[..], lo, hi, pa, pb, pc0, pd0, a[lo], cmp)
    requires pb > pc0 || cmp(a[pb], a[lo]) > 0
    modifies a
    ensures Rearranged(s, a[..], lo, hi) && a[lo] == old(a[lo]) && pc <= pc0
    ensures Regions(a[..], lo, hi, pa, pb, pc, pd, a[lo], cmp)
    ensures pb <= pc ==> pb < pc && cmp(a[pb], a[lo]) > 0 && cmp(a[pc], a[lo]) < 0
  {
    hide Rearranged, TotalPreorder, Swapped;
    ghost var p := a[lo];
    pc, pd := pc0, pd0;
    while pc >= pb && cmp(a[pc], a[lo]) >= 0
      invariant Rearranged(s, a[..], lo, hi) && Regions(a[..], lo, hi, pa, pb, pc, pd, p, cmp)
      invariant a[lo] == p && pc <= pc0
      invariant pb > pc || cmp(a[pb], p) > 0
    {
      if cmp(a[pc], a[lo]) == 0 {
        SwapInside(a, pc, pd, lo, hi, s);
        pd := pd - 1;
      }
      pc := pc - 1;
    }
  }

  /** Smaller, equal, greater. */
  ghost predicate Parted<T>(s: seq<T>, lo: int, l: int, r: int, hi: int, p: T, cmp: (T, T) -> int) {
    && 0 <= lo <= l <= r <= hi <= |s|
    && Below(s, lo, l, p, cmp) && Equal(s, l, r, p, cmp) && Above(s, r, hi, p, cmp)
  }

  /** Brings the equal elements from both ends to the middle. */
  method Gather<T(!new)>(a: array<T>, lo: int, hi: int, cmp: (T, T) -> int, pa: int, pb: int, pc: int, pd: int,
                         ghost p: T, ghost s: seq<T>)
      returns (l: int, r: int)
    requires 0 <= lo < pa && pb == pc + 1 && hi <= a.Length && Rearranged(s, a[..], lo, hi)
    requires Regions(a[..], lo, hi, pa, pb, pc, pd, p, cmp)
    modifies a
    ensures l == lo + (pb - pa) && r == hi - (pd - pc) && Rearranged(s, a[..], lo, hi)
    ensures Parted(a[..], lo, l, r, hi, p, cmp)
  {
    hide Rearranged;
    l, r := lo + (pb - pa), hi - (pd - pc);
    GatherLeft(a, lo, hi, cmp, pa, pb, pd, p, s);
    GatherRight(a, lo, hi, cmp, l, pb, pd, p, s);
  }

  method GatherLeft<T(!new)>(a: array<T>, lo: int, hi: int, cmp: (T, T) -> int, pa: int, pb: int, pd: int,
                             ghost p: T, ghost s: seq<T>)
    requires 0 <= lo <= pa <= pb <= pd + 1 <= hi <= a.Length && Rearranged(s, a[..], lo, hi)
    requires Equal(a[..], lo, pa, p, cmp) && Below(a[..], pa, pb, p, cmp)
    requires Above(a[..], pb, pd + 1, p, cmp) && Equal(a[..], pd + 1, hi, p, cmp)
    modifies a
    ensures Rearranged(s, a[..], lo, hi)
    ensures Below(a[..], lo, lo + (pb - pa), p, cmp) && Equal(a[..], lo + (pb - pa), pb, p, cmp)
    ensures Above(a[..], pb, pd + 1, p, cmp) && Equal(a[..], pd + 1, hi, p, cmp)
  {
    hide Rearranged;
    ghost var t := a[..];
    var n := if pa - lo <= pb - pa then pa - lo else pb - pa;
    SwapBlocks(a, lo, pb - n, n, lo, hi);
    RearrangedTwice(s, t, a[..], lo, hi);
    LeftGathered(t, a[..], lo, hi, pa, pb, n, p, cmp);
  }

  method GatherRight<T(!new)>(a: array<T>, lo: int, hi: int, cmp: (T, T) -> int, l: int, pb: int, pd: int,
                              ghost p: T, ghost s: seq<T>)
    requires 0 <= lo <= l <= pb <= pd + 1 <= hi <= a.Length && Rearranged(s, a[..], lo, hi)
    requires Below(a[..], lo, l, p, cmp) && Equal(a[..], l, pb, p, cmp)
    requires Above(a[..], pb, pd + 1, p, cmp) && Equal(a[..], pd + 1, hi, p, cmp)
    modifies a
    ensures Rearranged(s, a[..], lo, hi)
    ensures Parted(a[..], lo, l, hi - (pd + 1 - pb), hi, p, cmp)
  {
    hide Rearranged;
    ghost var t := a[..];
    var n := if pd + 1 - pb <= hi - pd - 1 then pd + 1 - pb else hi - pd - 1;
    SwapBlocks(a, pb, hi - n, n, lo, hi);
    RearrangedTwice(s, t, a[..], lo, hi);
    RightGathered(t, a[..], lo, hi, pb, pd, n, p, cmp);
  }

  lemma LeftGathered<T(!new)>(s: seq<T>, t: seq<T>, lo: int, hi: int, pa: int, pb: int, n: int, p: T, cmp: (T, T) -> int)
    requires 0 <= lo <= pa <= pb <= hi <= |s| == |t| && Equal(s, lo, pa, p, cmp) && Below(s, pa, pb, p, cmp)
    requires n == if pa - lo <= pb - pa then pa - lo else pb - pa
    requires forall k, l :: lo <= k < lo + n && l == k - lo + (pb - n) ==> t[k] == s[l] && t[l] == s[k]
    requires forall k :: lo <= k < hi && !(lo <= k < lo + n) && !(pb - n <= k < pb) ==> t[k] == s[k]
    ensures Below(t, lo, lo + (pb - pa), p, cmp) && Equal(t, lo + (pb - pa), pb, p, cmp)
  {
    forall k | lo <= k < lo + (pb - pa)
      ensures cmp(t[k], p) < 0
    {
      if k < lo + n {
        var l := k - lo + (pb - n);
        assert t[k] == s[l];
      }
    }
    forall k | lo + (pb - pa) <= k < pb
      ensures cmp(t[k], p) == 0
    {
      if k >= pb - n {
        var j := k - (pb - n) + lo;
        assert t[k] == s[j];
      }
    }
  }

  lemma RightGathered<T(!new)>(s: seq<T>, t: seq<T>, lo: int, hi: int, pb: int, pd: int, n: int, p: T, cmp: (T, T) -> int)
    requires 0 <= lo <= pb <= pd + 1 <= hi <= |s| == |t|
    requires Above(s, pb, pd + 1, p, cmp) && Equal(s, pd + 1, hi, p, cmp)
    requires n == if pd + 1 - pb <= hi - pd - 1 then pd + 1 - pb else hi - pd - 1
    requires forall k, l :: pb <= k < pb + n && l == k - pb + (hi - n) ==> t[k] == s[l] && t[l] == s[k]
    requires forall k :: lo <= k < hi && !(pb <= k < pb + n) && !(hi - n <= k < hi) ==> t[k] == s[k]
    ensures Equal(t, pb, hi - (pd + 1 - pb), p, cmp) && Above(t, hi - (pd + 1 - pb), hi, p, cmp)
  {
    forall k | pb <= k < hi - (pd + 1 - pb)
      ensures cmp(t[k], p) == 0
    {
      if k < pb + n {
        var l := k - pb + (hi - n);
        assert t[k] == s[l];
      }
    }
    forall k | hi - (pd + 1 - pb) <= k < hi
      ensures cmp(t[k], p) > 0
    {
      if k >= hi - n {
        var j := k - (hi - n) + pb;
        assert t[k] == s[j];
      }
    }
  }

  /** Rearranging a range keeps every element of it on its side of the pivot. */
  lemma SameSide<T(!new)>(s: seq<T>, t: seq<T>, l: int, h: int, p: T, cmp: (T, T) -> int)
    requires Rearranged(s, t, l, h)
    ensures Below(s, l, h, p, cmp) ==> Below(t, l, h, p, cmp)
    ensures Above(s, l, h, p, cmp) ==> Above(t, l, h, p, cmp)
  {
    forall i | l <= i < h
      ensures exists j :: l <= j < h && s[j] == t[i]
    {
      assert t[l..h][i - l] in multiset(s[l..h]);
      assert t[i] in s[l..h];
      var j :| 0 <= j < h - l && s[l..h][j] == t[i];
      assert s[l + j] == t[i];
    }
  }

  lemma StillParted<T(!new)>(s: seq<T>, t: seq<T>, lo: int, l: int, r: int, hi: int, p: T, cmp: (T, T) -> int)
    requires Parted(s, lo, l, r, hi, p, cmp) && (Rearranged(s, t, lo, l) || Rearranged(s, t, r, hi))
    ensures Parted(t, lo, l, r, hi, p, cmp)
  {
    if Rearranged(s, t, lo, l) {
      SameSide(s, t, lo, l, p, cmp);
      assert forall i :: l <= i < hi ==> t[i] == s[l..][i - l];
      assert forall i :: l <= i < hi ==> s[i] == s[l..][i - l];
    } else {
      SameSide(s, t, r, hi, p, cmp);
      assert forall i :: lo <= i < r ==> t[i] == s[..r][i];
      assert forall i :: lo <= i < r ==> s[i] == s[..r][i];
    }
  }

  lemma SortedParts<T(!new)>(s: seq<T>, lo: int, l: int, r: int, hi: int, p: T, cmp: (T, T) -> int)
    requires TotalPreorder(cmp) && Parted(s, lo, l, r, hi, p, cmp) && Sorted(s, lo, l, cmp) && Sorted(s, r, hi, cmp)
    ensures Sorted(s, lo, hi, cmp)
  {
    forall i, j | lo <= i < j < hi
      ensures cmp(s[i], s[j]) <= 0
    {
      if (i < l && j >= l) || (i < r && j >= r) || (l <= i && j < r) {
        assert cmp(s[i], p) <= 0 && cmp(p, s[j]) <= 0;
      }
    }
  }

  /** Sorting the other part leaves a sorted part alone. */
  lemma StillSorted<T>(s: seq<T>, t: seq<T>, lo: int, l: int, r: int, hi: int, cmp: (T, T) -> int)
    requires 0 <= lo <= l <= r <= hi <= |s| && Rearranged(s, t, r, hi) && Sorted(s, lo, l, cmp)
    ensures Sorted(t, lo, l, cmp)
  {
    assert forall i :: lo <= i < l ==> t[i] == s[..r][i];
    assert forall i :: lo <= i < l ==> s[i] == s[..r][i];
  }

  method Quicksort<T(!new)>(a: array<T>, lo: int, hi: int, cmp: (T, T) -> int)
    requires TotalPreorder(cmp) && 0 <= lo && lo + 8 <= hi <= a.Length
    modifies a
    ensures Sorted(a[..], lo, hi, cmp) && Rearranged(old(a[..]), a[..], lo, hi)
    decreases hi - lo, 0
  {
    hide Rearranged, TotalPreorder, Swapped, Sorted, Parted, Regions;
    ghost var s := a[..];
    Unchanged(s, lo, hi);
    var pivot := PickPivot(a, lo, hi, cmp);
    SwapInside(a, lo, pivot, lo, hi, s);
    ghost var p := a[lo];
    var pa, pb, pc, pd := Partition(a, lo, hi, cmp, s);
    RegionBounds(a[..], lo, hi, pa, pb, pc, pd, p, cmp);
    var l, r := Gather(a, lo, hi, cmp, pa, pb, pc, pd, p, s);
    PartedBounds(a[..], lo, l, r, hi, p, cmp);
    ghost var t := a[..];
    QsortR(a, lo, l, cmp);
    RearrangedWider(t, a[..], lo, l, lo, hi);
    RearrangedTwice(s, t, a[..], lo, hi);
    StillParted(t, a[..], lo, l, r, hi, p, cmp);
    ghost var u := a[..];
    QsortR(a, r, hi, cmp);
    RearrangedWider(u, a[..], r, hi, lo, hi);
    RearrangedTwice(s, u, a[..], lo, hi);
    StillParted(u, a[..], lo, l, r, hi, p, cmp);
    StillSorted(u, a[..], lo, l, r, hi, cmp);
    SortedParts(a[..], lo, l, r, hi, p, cmp);
  }

  lemma RegionBounds<T>(s: seq<T>, lo: int, hi: int, pa: int, pb: int, pc: int, pd: int, p: T, cmp: (T, T) -> int)
    requires Regions(s, lo, hi, pa, pb, pc, pd, p, cmp)
    ensures 0 <= lo <= pa <= pb <= pc + 1 && pc <= pd < hi <= |s|
  {
  }

  lemma PartedBounds<T>(s: seq<T>, lo: int, l: int, r: int, hi: int, p: T, cmp: (T, T) -> int)
    requires Parted(s, lo, l, r, hi, p, cmp)
    ensures 0 <= lo <= l <= r <= hi <= |s|
  {
  }

  /** Sorts a range: afterwards it is in order and holds the same elements; the rest of the array is untouched. */
  method QsortR<T(!new)>(a: array<T>, lo: int, hi: int, cmp: (T, T) -> int)
    requires TotalPreorder(cmp) && 0 <= lo <= hi <= a.Length
    modifies a
    ensures Sorted(a[..], lo, hi, cmp) && Rearranged(old(a[..]), a[..], lo, hi)
    decreases hi - lo, 1
  {
    if hi - lo < 8 {
      InsertionSort(a, lo, hi, cmp);
    } else {
      Quicksort(a, lo, hi, cmp);
    }
  }
}
