/**
  Two-way substring search: the greatest suffix of the needle and its period
  under two opposite letter orders, the choice of a critical cut, and the scan
  of the haystack.
 */
module TwoWay {
  import opened Options
  import opened Words

  // ---------- The greatest suffix and its period ----------

  /** Within x[..e], the suffix at t loses against the suffix at s. */
  ghost predicate Loses(o: Order, x: seq<Letter>, s: int, e: int, t: int) {
    exists c :: Agree(x, s, t, c) && t + c < e <= |x| && s + c < |x| && Before(o, x[t + c], x[s + c])
  }

  /** Every proper suffix of x[s..e] loses against x[s..e]. */
  ghost predicate Dominant(o: Order, x: seq<Letter>, s: int, e: int) {
    forall t :: s < t < e ==> Loses(o, x, s, e, t)
  }

  /**
    State of the scan for the greatest suffix: s is the candidate, p its
    period, j the start of the current copy of the candidate and k the number
    of letters of that copy already compared.
   */
  ghost predicate Scanning(o: Order, x: seq<Letter>, s: int, p: int, j: int, k: int) {
    && 0 <= s && 1 <= p && 0 <= k <= p && s + p <= j && j + k <= |x|
    && Period(x, s, j + k, p)
    && Agree(x, s, j, k)
    && Agree(x, s, j - p, p + k)
    && Dominant(o, x, s, s + p)
    && forall t :: 0 <= t < s ==> Below(o, x, t, s)
  }

  lemma ScanBounds(o: Order, x: seq<Letter>, s: int, p: int, j: int, k: int)
    requires Scanning(o, x, s, p, j, k)
    ensures 0 <= s && 1 <= p && 0 <= k <= p && s + p <= j && j + k <= |x|
  {
  }

  lemma ScanStart(o: Order, x: seq<Letter>)
    requires |x| > 0
    ensures Scanning(o, x, 0, 1, 1, 0)
  {
  }

  /** Moving one period to the right keeps agreement with the candidate, as far as the scan has come. */
  lemma AgreeOnePeriodLater(x: seq<Letter>, s: int, p: int, e: int, t: int, c: int)
    requires Period(x, s, e, p)
    requires s + p <= t <= e && Agree(x, s, t - p, c) && t - p + c <= e
    ensures Agree(x, s, t, if c < e - t then c else e - t)
  {
    var m := if c < e - t then c else e - t;
    forall a, b | s <= a < s + m && b == a - s + t
      ensures x[a] == x[b]
    {
      assert x[a] == x[b - p];
    }
  }

  /**
    A later start either has already lost, or agrees with the candidate so far
    and the letter a that would continue the period cannot make it win.
   */
  ghost predicate Tamed(o: Order, x: seq<Letter>, s: int, e: int, a: Letter, t: int) {
    || Loses(o, x, s, e, t)
    || (s < t && Agree(x, s, t, e - t) && (a == x[s + e - t] || Before(o, a, x[s + e - t])))
  }

  lemma TamedByLoss(o: Order, x: seq<Letter>, s: int, p: int, e: int, t: int, c: int)
    requires 1 <= p && Period(x, s, e, p) && s + p <= t <= e
    requires Agree(x, s, t - p, c) && t - p + c < e && Before(o, x[t - p + c], x[s + c])
    ensures Tamed(o, x, s, e, x[e - p], t)
  {
    AgreeOnePeriodLater(x, s, p, e, t, c);
    if c < e - t {
      assert x[t + c] == x[t - p + c];
      assert Agree(x, s, t, c);
    } else if c > e - t {
      assert x[s + e - t] == x[e - p];
    }
  }

  lemma TamedByAgreement(o: Order, x: seq<Letter>, s: int, p: int, e: int, t: int)
    requires 1 <= p && Period(x, s, e, p) && s + p <= t <= e
    requires Agree(x, s, t - p, e - t + p)
    ensures Tamed(o, x, s, e, x[e - p], t)
  {
    AgreeOnePeriodLater(x, s, p, e, t, e - t + p);
    assert x[s + e - t] == x[e - p];
  }

  lemma {:induction false} TamedLater(o: Order, x: seq<Letter>, s: int, p: int, e: int, t: int)
    requires Period(x, s, e, p) && s + p <= e
    requires Dominant(o, x, s, s + p)
    requires s < t <= e
    ensures Tamed(o, x, s, e, x[e - p], t)
    decreases t
  {
    if t < s + p {
      assert Loses(o, x, s, s + p, t);
      var c :| Agree(x, s, t, c) && t + c < s + p && Before(o, x[t + c], x[s + c]);
      assert Loses(o, x, s, e, t);
    } else if t == s + p {
      TamedByAgreement(o, x, s, p, e, t);
    } else {
      TamedLater(o, x, s, p, e, t - p);
      if Loses(o, x, s, e, t - p) {
        var c :| Agree(x, s, t - p, c) && t - p + c < e && Before(o, x[t - p + c], x[s + c]);
        TamedByLoss(o, x, s, p, e, t, c);
      } else {
        TamedByAgreement(o, x, s, p, e, t);
      }
    }
  }

  lemma LaterStart(o: Order, x: seq<Letter>, s: int, p: int, j: int, k: int, t: int)
    requires Scanning(o, x, s, p, j, k)
    requires s < t <= j + k
    ensures Tamed(o, x, s, j + k, x[s + k], t)
  {
    assert x[j + k - p] == x[s + k];
    TamedLater(o, x, s, p, j + k, t);
  }

  lemma StepBelow(o: Order, x: seq<Letter>, s: int, p: int, j: int, k: int)
    requires Scanning(o, x, s, p, j, k) && j + k < |x|
    requires Before(o, x[j + k], x[s + k])
    ensures Scanning(o, x, s, j + k + 1 - s, j + k + 1, 0)
  {
    var e, e' := j + k, j + k + 1;
    forall t | s < t < e'
      ensures Loses(o, x, s, e', t)
    {
      LaterStart(o, x, s, p, j, k, t);
      if Loses(o, x, s, e, t) {
        var c :| Agree(x, s, t, c) && t + c < e && Before(o, x[t + c], x[s + c]);
        assert Agree(x, s, t, c);
      } else {
        assert Agree(x, s, t, e - t);
      }
    }
    assert Dominant(o, x, s, e');
  }

  lemma StepEqual(o: Order, x: seq<Letter>, s: int, p: int, j: int, k: int)
    requires Scanning(o, x, s, p, j, k) && j + k < |x|
    requires x[j + k] == x[s + k]
    ensures k == p ==> Scanning(o, x, s, p, j + p, 0)
    ensures k < p ==> Scanning(o, x, s, p, j, k + 1)
  {
    assert x[s + k] == x[j - p + k];
    if k < p {
      assert s + p < j ==> x[s + k] == x[s + p + k];
    }
  }

  lemma StepAbove(o: Order, x: seq<Letter>, s: int, p: int, j: int, k: int)
    requires Scanning(o, x, s, p, j, k) && j + k < |x|
    requires Before(o, x[s + k], x[j + k])
    ensures Scanning(o, x, j, 1, j + 1, 0)
  {
    assert BelowAt(o, x, s, j, k);
    forall t | 0 <= t < j
      ensures Below(o, x, t, j)
    {
      if t < s {
        BelowTransitive(o, x, t, s, j);
      } else if s < t {
        LaterStart(o, x, s, p, j, k, t);
        if Loses(o, x, s, j + k, t) {
          var c :| Agree(x, s, t, c) && t + c < j + k && Before(o, x[t + c], x[s + c]);
          assert BelowAt(o, x, t, s, c);
          BelowTransitive(o, x, t, s, j);
        } else {
          assert x[t + k] == x[s + k];
          AgreeTransitive(x, t, s, j, j + k - t, k);
          assert BelowAt(o, x, t, j, k);
        }
      }
    }
  }

  lemma DominantHasNoPeriod(o: Order, x: seq<Letter>, s: int, p: int, q: int)
    requires 0 <= s && Dominant(o, x, s, s + p) && s + p <= |x|
    requires 1 <= q < p
    ensures !Period(x, s, |x|, q)
  {
    assert Loses(o, x, s, s + p, s + q);
    var c :| Agree(x, s, s + q, c) && s + q + c < s + p && Before(o, x[s + q + c], x[s + c]);
    assert x[s + c] != x[s + c + q];
  }

  lemma ScanComplete(o: Order, x: seq<Letter>, s: int, p: int, j: int, k: int)
    requires Scanning(o, x, s, p, j, k) && j + k == |x|
    ensures GreatestSuffix(o, x, s)
    ensures SmallestPeriod(x, s, |x|, p)
  {
    forall t | s < t < |x|
      ensures Below(o, x, t, s)
    {
      LaterStart(o, x, s, p, j, k, t);
      if Loses(o, x, s, |x|, t) {
        var c :| Agree(x, s, t, c) && t + c < |x| && Before(o, x[t + c], x[s + c]);
        assert BelowAt(o, x, t, s, c);
      } else {
        assert BelowAt(o, x, t, s, |x| - t);
      }
    }
    forall q | Period(x, s, |x|, q)
      ensures p <= q
    {
      if q < p { DominantHasNoPeriod(o, x, s, p, q); }
    }
  }

  method MaximalSuffixIn(o: Order, x: seq<Letter>) returns (s: nat, p: nat, ghost cost: nat)
    ensures cost <= 3 * |x|
    ensures |x| == 0 ==> s == 0 && p == 1
    ensures |x| > 0 ==> GreatestSuffix(o, x, s) && SmallestPeriod(x, s, |x|, p) && s + p <= |x|
  {
    s, p, cost := 0, 1, 0;
    var j, k := 1, 0;
    if |x| > 0 { ScanStart(o, x); }
    hide Scanning, GreatestSuffix, SmallestPeriod;
    while j + k < |x|
      invariant cost + 2 <= s + 2 * j + k && (cost > 0 ==> s < j && j + k <= |x|)
      invariant |x| > 0 ==> Scanning(o, x, s, p, j, k)
      invariant |x| == 0 ==> s == 0 && p == 1 && j == 1 && k == 0
      decreases |x| - s, |x| - (j + k), |x| - j
    {
      ScanBounds(o, x, s, p, j, k);
      var a', a := x[s + k], x[j + k];
      cost := cost + 1;
      if Before(o, a, a') {
        StepBelow(o, x, s, p, j, k);
        j, k := j + k + 1, 0;
        p := j - s;
      } else if a == a' {
        StepEqual(o, x, s, p, j, k);
        if k == p {
          j, k := j + p, 0;
        } else {
          k := k + 1;
        }
      } else {
        StepAbove(o, x, s, p, j, k);
        s, j := j, j + 1;
        k, p := 0, 1;
      }
    }
    if |x| > 0 {
      ScanBounds(o, x, s, p, j, k);
      ScanComplete(o, x, s, p, j, k);
    }
  }

  method MaximalSuffix(x: seq<Letter>) returns (l: nat, p: nat, ghost cost: nat)
    ensures cost <= 6 * |x|
    ensures |x| == 0 ==> l == 0 && p == 1
    ensures |x| > 0 ==> Critical(x, l) && SmallestPeriod(x, l, |x|, p) && l + p <= |x|
    ensures |x| > 0 ==> exists o :: GreatestSuffix(o, x, l)
  {
    ghost var cost1, cost2;
    var s1, p1, s2, p2;
    s1, p1, cost1 := MaximalSuffixIn(Ascending, x);
    s2, p2, cost2 := MaximalSuffixIn(Descending, x);
    cost := cost1 + cost2;
    if s1 >= s2 {
      l, p := s1, p1;
      if |x| > 0 { CriticalFactorization(Ascending, x, s1, s2); }
    } else {
      l, p := s2, p2;
      if |x| > 0 { CriticalFactorization(Descending, x, s2, s1); }
    }
  }

  // ---------- Scanning the haystack ----------

  /** The needle x occurs in h at position pos. */
  ghost predicate Occurs(h: seq<Letter>, x: seq<Letter>, pos: int) {
    0 <= pos && pos + |x| <= |h| && h[pos..pos + |x|] == x
  }

  /** The first n letters of x are known to stand in h at position pos. */
  ghost predicate Remembered(h: seq<Letter>, x: seq<Letter>, pos: int, n: int) {
    && 0 <= n <= |x|
    && (n > 0 ==> 0 <= pos && pos + n <= |h| && h[pos..pos + n] == x[..n])
  }

  /** What the scan knows about the needle: its critical cut l, and p as the code uses it. */
  ghost predicate Prepared(x: seq<Letter>, l: int, p: int, periodic: bool) {
    && 0 <= l && 1 <= p
    && (|x| == 0 ==> l == 0)
    && (|x| > 0 ==>
      && Critical(x, l)
      && l + p <= |x|
      && if periodic then SmallestPeriod(x, 0, |x|, p) && l < p
         else forall d :: Period(x, 0, |x|, d) ==> l < d && |x| - l < d)
  }

  /** An occurrence d places further, when x[l..i] matches here, makes d a local period. */
  lemma OccurrenceIsLocalPeriod(h: seq<Letter>, x: seq<Letter>, pos: int, l: int, i: int, d: int)
    requires 0 <= l <= i <= |x| && 0 <= pos && pos + |x| <= |h|
    requires forall a :: l <= a < i ==> x[a] == h[pos + a]
    requires 1 <= d && Occurs(h, x, pos + d)
    requires l + d <= i || i == |x|
    ensures LocalPeriod(x, l, d)
  {
    forall a, b | 0 <= a && l - d <= a < l && b == a + d && b < |x|
      ensures x[a] == x[b]
    {
      assert x[a] == h[pos + d..pos + d + |x|][a] == h[pos + b];
    }
  }

  /** A mismatch at i to the right of the cut rules out every shift up to i - l. */
  lemma SuffixMismatch(h: seq<Letter>, x: seq<Letter>, pos: int, l: int, i: int, d: int)
    requires 0 <= l <= i < |x| && Critical(x, l) && 0 <= pos && pos + |x| <= |h|
    requires forall a :: l <= a < i ==> x[a] == h[pos + a]
    requires x[i] != h[pos + i]
    requires 0 <= d <= i - l
    ensures !Occurs(h, x, pos + d)
  {
    if Occurs(h, x, pos + d) {
      assert h[pos + d..pos + d + |x|][i - d] == h[pos + i];
      if d > 0 {
        OccurrenceIsLocalPeriod(h, x, pos, l, i, d);
        LetterRepeats(x, l, d, i);
      }
      assert false;
    }
  }

  lemma LetterRepeats(x: seq<Letter>, l: int, d: int, i: int)
    requires Critical(x, l) && LocalPeriod(x, l, d) && d <= i < |x|
    ensures x[i - d] == x[i]
  {
  }

  /** A mismatch to the left of the cut rules out every shift shorter than the smallest period. */
  lemma PrefixMismatch(h: seq<Letter>, x: seq<Letter>, pos: int, l: int, j: int, d: int)
    requires 0 < j <= l < |x| && Critical(x, l) && 0 <= pos && pos + |x| <= |h|
    requires forall a :: l <= a < |x| ==> x[a] == h[pos + a]
    requires x[j - 1] != h[pos + j - 1]
    requires 0 <= d && !Period(x, 0, |x|, d)
    ensures !Occurs(h, x, pos + d)
  {
    if Occurs(h, x, pos + d) {
      assert h[pos + d..pos + d + |x|] == x;
      if d > 0 {
        OccurrenceIsLocalPeriod(h, x, pos, l, |x|, d);
      }
      assert false;
    }
  }

  /** After a shift by the period, everything but the last period of the needle is known to match. */
  lemma PeriodShift(h: seq<Letter>, x: seq<Letter>, pos: int, l: int, p: int)
    requires 0 <= l < |x| && Critical(x, l) && 0 <= pos && pos + |x| <= |h|
    requires 1 <= p <= |x| && Period(x, 0, |x|, p)
    requires forall a :: l <= a < |x| ==> x[a] == h[pos + a]
    ensures Remembered(h, x, pos + p, |x| - p)
  {
    assert LocalPeriod(x, l, p);
    var n := |x| - p;
    forall a | 0 <= a < n
      ensures h[pos + p..pos + p + n][a] == x[a]
    {
      assert x[a] == x[a + p];
    }
  }

  /** One pass over the window at pos: report a match, or how far to move and what to remember. */
  /** Where in the window the comparison starts. */
  function Start(l: nat, skip: nat): nat {
    if l >= skip then l else skip
  }

  /** Compares the needle from the place where comparisons start. */
  method CompareSuffix(h: seq<Letter>, pos: nat, x: seq<Letter>, start: nat) returns (i: nat, ghost cost: nat)
    requires pos + |x| <= |h| && start <= |x|
    ensures start <= i <= |x| && (forall a :: start <= a < i ==> x[a] == h[pos + a])
    ensures i < |x| ==> x[i] != h[pos + i]
    ensures cost == i - start + if i < |x| then 1 else 0
  {
    i, cost := start, 0;
    while i < |x| && x[i] == h[pos + i]
      invariant start <= i <= |x| && cost == i - start
      invariant forall a :: start <= a < i ==> x[a] == h[pos + a]
    {
      cost := cost + 1;
      i := i + 1;
    }
    if i < |x| { cost := cost + 1; }
  }

  /** Compares what is before the cut, backwards, down to what is remembered. */
  method ComparePrefix(h: seq<Letter>, pos: nat, x: seq<Letter>, l: nat, skip: nat) returns (j: nat, ghost cost: nat)
    requires pos + |x| <= |h| && l <= |x|
    ensures j <= l && (forall a :: j <= a < l ==> x[a] == h[pos + a]) && (j > skip ==> x[j - 1] != h[pos + j - 1])
    ensures cost + skip <= Start(l, skip)
  {
    j, cost := l, 0;
    while j > skip && x[j - 1] == h[pos + j - 1]
      invariant j <= l && cost == l - j && (j < l ==> skip <= j)
      invariant forall a :: j <= a < l ==> x[a] == h[pos + a]
    {
      cost := cost + 1;
      j := j - 1;
    }
    if j > skip { cost := cost + 1; }
  }

  lemma RememberedLetters(h: seq<Letter>, x: seq<Letter>, pos: nat, skip: nat)
    requires Remembered(h, x, pos, skip)
    ensures skip <= |x| && (skip > 0 ==> pos + skip <= |h|) && forall a :: 0 <= a < skip ==> x[a] == h[pos + a]
  {
    forall a | 0 <= a < skip
      ensures x[a] == h[pos + a]
    {
      assert x[..skip][a] == h[pos..pos + skip][a];
    }
  }

  /** A window that matches everywhere is an occurrence. */
  lemma WholeMatch(h: seq<Letter>, x: seq<Letter>, pos: nat)
    requires pos + |x| <= |h| && forall a :: 0 <= a < |x| ==> x[a] == h[pos + a]
    ensures Occurs(h, x, pos)
  {
    assert h[pos..pos + |x|] == x;
  }

  /**
    Compares one window. What it compares is paid for by how far the window
    moves, and how far the place where comparisons start moves with it.
   */
  method Window(h: seq<Letter>, pos: nat, x: seq<Letter>, l: nat, p: nat, periodic: bool, skip: nat)
      returns (found: bool, shift: nat, skip': nat, ghost cost: nat)
    requires pos + |x| <= |h|
    requires Prepared(x, l, p, periodic)
    requires Remembered(h, x, pos, skip) && (!periodic ==> skip == 0)
    ensures found ==> Occurs(h, x, pos)
    ensures !found ==> 1 <= shift && Remembered(h, x, pos + shift, skip') && (!periodic ==> skip' == 0)
    ensures !found ==> forall q :: pos <= q < pos + shift ==> !Occurs(h, x, q)
    ensures cost <= |x| && (!found ==> cost + Start(l, skip) <= 2 * shift + Start(l, skip'))
  {
    hide Occurs, Critical, Period, SmallestPeriod;
    found, shift, skip' := false, 0, 0;
    RememberedLetters(h, x, pos, skip);
    var i;
    i, cost := CompareSuffix(h, pos, x, Start(l, skip));
    if i < |x| {
      var step: int;
      if skip <= p || i - l >= skip - p {
        step := i - l + 1;
      } else {
        step := skip - p + 1;
      }
      shift := step;
      forall q | pos <= q < pos + shift
        ensures !Occurs(h, x, q)
      {
        SuffixMismatch(h, x, pos, l, i, q - pos);
      }
    } else {
      ghost var suffix := cost;
      var j;
      j, cost := ComparePrefix(h, pos, x, l, skip);
      cost := cost + suffix;
      if j <= skip {
        found := true;
        WholeMatch(h, x, pos);
        return;
      }
      shift, skip' := AfterPrefix(h, pos, x, l, p, periodic, j);
    }
  }

  /** The suffix matches and the prefix does not: where to go on. */
  method AfterPrefix(h: seq<Letter>, pos: nat, x: seq<Letter>, l: nat, p: nat, periodic: bool, j: nat)
      returns (shift: nat, skip': nat)
    requires pos + |x| <= |h| && Prepared(x, l, p, periodic) && 0 < j <= l
    requires (forall a :: l <= a < |x| ==> x[a] == h[pos + a]) && x[j - 1] != h[pos + j - 1]
    ensures l < shift && Remembered(h, x, pos + shift, skip') && (!periodic ==> skip' == 0)
    ensures forall q :: pos <= q < pos + shift ==> !Occurs(h, x, q)
    ensures |x| <= shift + Start(l, skip')
  {
    hide Occurs, Critical;
    if periodic {
      PeriodShift(h, x, pos, l, p);
      shift := p;
      skip' := |x| - p;
    } else {
      shift := if l > |x| - l then l + 1 else |x| - l + 1;
      skip' := 0;
    }
    forall q | pos <= q < pos + shift
      ensures !Occurs(h, x, q)
    {
      PrefixMismatch(h, x, pos, l, j, q - pos);
    }
  }

  /** The test that splits the two scanning loops decides whether the whole needle has period p. */
  method Prepare(x: seq<Letter>) returns (l: nat, p: nat, periodic: bool, ghost cost: nat)
    ensures cost <= 7 * |x|
    ensures Prepared(x, l, p, periodic)
    ensures periodic <==> Period(x, 0, |x|, p)
  {
    l, p, cost := MaximalSuffix(x);
    cost := cost + l;
    periodic := x[..l] == x[if l == 0 then 0 else p..if l == 0 then 0 else p + l];
    if |x| > 0 {
      CutTest(x, l, p);
      forall d | Period(x, 0, |x|, d)
        ensures l < d
        ensures periodic ==> p <= d
        ensures !periodic ==> |x| - l < d
      {
        PeriodsAtCriticalCut(x, l, p, d);
        assert Period(x, l, |x|, d);
      }
    }
  }

  lemma CutTest(x: seq<Letter>, l: int, p: int)
    requires 0 <= l && Period(x, l, |x|, p) && l + p <= |x|
    ensures x[..l] == x[p..p + l] <==> Period(x, 0, |x|, p)
  {
    if x[..l] == x[p..p + l] {
      forall i, j | 0 <= i && j == i + p && j < |x|
        ensures x[i] == x[j]
      {
        if i < l {
          assert x[..l][i] == x[p..p + l][i];
        }
      }
    }
  }

  /** The leftmost occurrence of x in h, if there is one. */
  ghost predicate IsLeftmost(h: seq<Letter>, x: seq<Letter>, r: Option<nat>) {
    match r
    case Some(pos) => Occurs(h, x, pos) && forall q :: 0 <= q < pos ==> !Occurs(h, x, q)
    case None => forall q :: !Occurs(h, x, q)
  }

  method TwoWayMemMem(h: seq<Letter>, x: seq<Letter>) returns (r: Option<nat>, ghost cost: nat)
    requires |x| <= |h|
    ensures IsLeftmost(h, x, r)
    ensures cost <= 2 * |h| + 7 * |x|
  {
    var l, p, periodic;
    l, p, periodic, cost := Prepare(x);
    ghost var prepared := cost;
    var last := |h| - |x|;
    var pos, skip := 0, 0;
    while pos <= last
      invariant cost - prepared <= 2 * |h| && cost - prepared + l <= 2 * pos + Start(l, skip)
      invariant Remembered(h, x, pos, skip) && (!periodic ==> skip == 0)
      invariant forall q :: 0 <= q < pos ==> !Occurs(h, x, q)
      decreases |h| - pos
    {
      var found, shift, skip';
      ghost var more;
      found, shift, skip', more := Window(h, pos, x, l, p, periodic, skip);
      cost := cost + more;
      if found {
        return Some(pos), cost;
      }
      pos, skip := pos + shift, skip';
    }
    return None, cost;
  }

  /**
    Moves the known end of the haystack forward until a needle of length n fits
    at pos, unless the terminator comes first.
   */
  method CheckSpaceLeft(h: seq<Letter>, pos: nat, n: nat, end: nat) returns (ok: bool, end': nat, ghost looks: nat)
    requires end < |h| && h[|h| - 1] == 0
    requires forall a :: 0 <= a < end ==> h[a] != 0
    ensures end <= end' < |h|
    ensures forall a :: 0 <= a < end' ==> h[a] != 0
    ensures ok <==> forall a :: 0 <= a < pos + n ==> a < |h| && h[a] != 0
    ensures looks == end' - end + if ok then 0 else 1
  {
    end', looks := end, 0;
    while end' < pos + n
      invariant end <= end' < |h| && looks == end' - end
      invariant forall a :: 0 <= a < end' ==> h[a] != 0
    {
      looks := looks + 1;
      if h[end'] == 0 {
        return false, end', looks;
      }
      end' := end' + 1;
    }
    ok := true;
  }

  lemma OccursInText(h: seq<Letter>, x: seq<Letter>, q: int)
    requires |h| > 0
    ensures Occurs(h[..|h| - 1], x, q) <==> Occurs(h, x, q) && q + |x| < |h|
  {
    if 0 <= q && q + |x| < |h| {
      assert h[..|h| - 1][q..q + |x|] == h[q..q + |x|];
    }
  }

  /** The same scan over a haystack that ends at its terminator, whose length is not known in advance. */
  method TwoWayStrStr(h: seq<Letter>, x: seq<Letter>) returns (r: Option<nat>, ghost cost: nat)
    requires |h| > 0 && h[|h| - 1] == 0 && 0 !in h[..|h| - 1]
    requires 0 !in x
    ensures IsLeftmost(h[..|h| - 1], x, r)
    ensures cost <= 3 * |h| + 7 * |x|
  {
    ghost var text := h[..|h| - 1];
    assert forall a :: 0 <= a < |text| ==> h[a] == text[a] && text[a] in text;
    var l, p, periodic;
    l, p, periodic, cost := Prepare(x);
    ghost var prepared := cost;
    var pos, skip, end := 0, 0, 0;
    while true
      invariant cost - prepared <= 2 * |h| + end && cost - prepared + l <= 2 * pos + Start(l, skip) + end
      invariant end < |h| && forall a :: 0 <= a < end ==> h[a] != 0
      invariant Remembered(h, x, pos, skip) && (!periodic ==> skip == 0)
      invariant forall q :: 0 <= q < pos ==> !Occurs(h, x, q)
      decreases |h| - pos
    {
      var ok: bool;
      ghost var looks;
      ok, end, looks := CheckSpaceLeft(h, pos, |x|, end);
      cost := cost + looks;
      if !ok {
        forall q
          ensures !Occurs(text, x, q)
        {
          OccursInText(h, x, q);
        }
        break;
      }
      var found, shift, skip';
      ghost var more;
      found, shift, skip', more := Window(h, pos, x, l, p, periodic, skip);
      cost := cost + more;
      if found {
        forall q
          ensures Occurs(text, x, q) <==> Occurs(h, x, q) && q + |x| < |h|
        {
          OccursInText(h, x, q);
        }
        return Some(pos), cost;
      }
      pos, skip := pos + shift, skip';
    }
    return None, cost;
  }

  /**
    The memory of a matched prefix never lengthens a shift: a mismatch found
    beyond it always moves the window further than the memory alone would.
   */
  lemma MemoryNeverLengthensShift(x: seq<Letter>, l: int, p: int, i: int, skip: int)
    requires Prepared(x, l, p, true) && |x| > 0
    requires l <= i && skip <= i
    ensures i - l >= skip - p
  {
    assert LocalPeriod(x, l, p);
  }

  lemma OccursLetter(h: seq<Letter>, a: Letter, q: int)
    ensures Occurs(h, [a], q) <==> 0 <= q < |h| && h[q] == a
  {
    if 0 <= q < |h| {
      assert h[q..q + 1] == [h[q]];
    }
  }

  method MemChr(h: seq<Letter>, a: Letter) returns (r: Option<nat>, ghost cost: nat)
    ensures IsLeftmost(h, [a], r)
    ensures cost <= |h|
  {
    cost := 0;
    forall q
      ensures Occurs(h, [a], q) <==> 0 <= q < |h| && h[q] == a
    {
      OccursLetter(h, a, q);
    }
    for i := 0 to |h|
      invariant cost == i && forall q :: 0 <= q < i ==> h[q] != a
    {
      cost := cost + 1;
      if h[i] == a {
        return Some(i), cost;
      }
    }
    return None, cost;
  }

  /** The public entry point, for a haystack and a needle of any lengths. */
  method MemMem(h: seq<Letter>, x: seq<Letter>) returns (r: Option<nat>, ghost cost: nat)
    ensures IsLeftmost(h, x, r)
    ensures cost <= 2 * |h| + 7 * |x|
  {
    cost := 0;
    if |x| > |h| {
      return None, cost;
    }
    if |x| == 0 {
      return Some(0), cost;
    }
    if |x| == 1 {
      assert x == [x[0]];
      r, cost := MemChr(h, x[0]);
      return;
    }
    r, cost := TwoWayMemMem(h, x);
  }
}
