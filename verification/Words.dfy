/**
  Combinatorics on words, as needed by the two-way string matcher: letter
  orders, agreement of factors, periods, the lexicographic order on the
  suffixes of a word, and the critical factorization theorem.

  A word is a sequence of letters; a suffix of x is named by its start.
 */
module Words {

  type Letter = int

  /** The two opposite orders on letters. */
  datatype Order = Ascending | Descending

  predicate Before(o: Order, a: Letter, b: Letter) {
    match o
    case Ascending => a < b
    case Descending => b < a
  }

  /** The factors of length c starting at a and at b are equal. */
  ghost predicate Agree(x: seq<Letter>, a: int, b: int, c: int) {
    && 0 <= a && 0 <= b && 0 <= c && a + c <= |x| && b + c <= |x|
    && forall i, j :: a <= i < a + c && j == i - a + b ==> x[i] == x[j]
  }

  /** p is a period of the factor x[a..b]. */
  ghost predicate Period(x: seq<Letter>, a: int, b: int, p: int) {
    && 0 <= a <= b <= |x| && 1 <= p
    && forall i, j :: a <= i && j == i + p && j < b ==> x[i] == x[j]
  }

  /** The suffix at s is below the suffix at t, and offset c is where this is decided. */
  ghost predicate BelowAt(o: Order, x: seq<Letter>, s: int, t: int, c: int) {
    && Agree(x, s, t, c)
    && t + c < |x|
    && (s + c < |x| ==> Before(o, x[s + c], x[t + c]))
  }

  /** Lexicographic order on the suffixes of x. */
  ghost predicate Below(o: Order, x: seq<Letter>, s: int, t: int) {
    exists c :: BelowAt(o, x, s, t, c)
  }

  /** The suffix at s is the greatest suffix of x. */
  ghost predicate GreatestSuffix(o: Order, x: seq<Letter>, s: int) {
    && 0 <= s < |x|
    && forall t :: 0 <= t < |x| && t != s ==> Below(o, x, t, s)
  }

  /** p is the smallest period of x[a..b]. */
  ghost predicate SmallestPeriod(x: seq<Letter>, a: int, b: int, p: int) {
    && Period(x, a, b, p)
    && forall q :: Period(x, a, b, q) ==> p <= q
  }

  /** d is a local period of x at the cut l: a square of half-length d is centred on the cut. */
  ghost predicate LocalPeriod(x: seq<Letter>, l: int, d: int) {
    && 0 <= l <= |x| && 1 <= d
    && forall i, j :: 0 <= i && l - d <= i < l && j == i + d && j < |x| ==> x[i] == x[j]
  }

  lemma AgreeTransitive(x: seq<Letter>, r: int, s: int, t: int, c: int, d: int)
    requires Agree(x, r, s, c) && Agree(x, s, t, d)
    ensures Agree(x, r, t, if c < d then c else d)
  {
    var m := if c < d then c else d;
    forall i, j | r <= i < r + m && j == i - r + t
      ensures x[i] == x[j]
    {
      assert x[i] == x[i - r + s] == x[j];
    }
  }

  lemma BelowTransitive(o: Order, x: seq<Letter>, r: int, s: int, t: int)
    requires Below(o, x, r, s) && Below(o, x, s, t)
    ensures Below(o, x, r, t)
  {
    var c :| BelowAt(o, x, r, s, c);
    var d :| BelowAt(o, x, s, t, d);
    AgreeTransitive(x, r, s, t, c, d);
    assert BelowAt(o, x, r, t, if c < d then c else d);
  }

  lemma BelowIrreflexive(o: Order, x: seq<Letter>, s: int)
    ensures !Below(o, x, s, s)
  {
  }

  lemma BelowAsymmetric(o: Order, x: seq<Letter>, s: int, t: int)
    requires Below(o, x, s, t)
    ensures !Below(o, x, t, s)
  {
    if Below(o, x, t, s) {
      BelowTransitive(o, x, s, t, s);
      BelowIrreflexive(o, x, s);
    }
  }

  /** A period carries over any number of steps. */
  lemma {:induction false} PeriodMultiple(x: seq<Letter>, a: int, b: int, p: int, i: int, k: nat)
    requires Period(x, a, b, p)
    requires a <= i && i + k * p < b
    ensures i <= i + k * p && x[i] == x[i + k * p]
    decreases k
  {
    if k > 0 {
      assert k * p == (k - 1) * p + p;
      PeriodMultiple(x, a, b, p, i, k - 1);
      assert x[i + (k - 1) * p] == x[i + k * p];
    }
  }

  ghost function Opposite(o: Order): Order {
    match o
    case Ascending => Descending
    case Descending => Ascending
  }

  /** A cut is critical when every local period there reaches past the start of x and is a period of x. */
  ghost predicate Critical(x: seq<Letter>, l: int) {
    && 0 <= l <= |x|
    && forall d :: LocalPeriod(x, l, d) ==> l < d && Period(x, 0, |x|, d)
  }

  lemma NotBoth(o: Order, x: seq<Letter>, s: int, t: int)
    ensures !(Below(o, x, s, t) && Below(o, x, t, s))
  {
    if Below(o, x, s, t) { BelowAsymmetric(o, x, s, t); }
  }

  /** A square before the cut puts the suffix at the cut below an earlier one. */
  lemma SquareBelow(o: Order, x: seq<Letter>, l: int, d: int)
    requires LocalPeriod(x, l, d) && l < |x|
    ensures d <= l && (l + d < |x| ==> Below(o, x, l + d, l)) ==> Below(o, x, l, l - d)
  {
    if d <= l && (l + d < |x| ==> Below(o, x, l + d, l)) {
      if |x| <= l + d {
        assert BelowAt(o, x, l, l - d, |x| - l);
      } else {
        var c :| BelowAt(o, x, l + d, l, c);
        forall i, j | l <= i < l + d + c && j == i - d
          ensures x[i] == x[j]
        {
        }
        assert BelowAt(o, x, l, l - d, d + c);
      }
    }
  }

  /** No square fits to the left of a greatest suffix. */
  lemma NoInnerSquare(o: Order, x: seq<Letter>, l: int, d: int)
    requires GreatestSuffix(o, x, l)
    requires LocalPeriod(x, l, d)
    ensures l < d
  {
    hide Below;
    SquareBelow(o, x, l, d);
    NotBoth(o, x, l - d, l);
  }

  /** A suffix below another one in both opposite orders is a prefix of it. */
  lemma BelowBothWays(o: Order, x: seq<Letter>, s: int, t: int)
    requires 0 <= s <= |x|
    requires Below(o, x, s, t) && Below(Opposite(o), x, s, t)
    ensures Agree(x, s, t, |x| - s)
  {
    var c :| BelowAt(o, x, s, t, c);
    var d :| BelowAt(Opposite(o), x, s, t, d);
    if s + c < |x| {
      assert false;
    }
  }

  /** The critical factorization theorem, for the later of the two greatest suffixes. */
  lemma CriticalFactorization(o: Order, x: seq<Letter>, l: int, l': int)
    requires GreatestSuffix(o, x, l) && GreatestSuffix(Opposite(o), x, l')
    requires l' <= l
    ensures Critical(x, l)
  {
    forall d | LocalPeriod(x, l, d)
      ensures l < d && Period(x, 0, |x|, d)
    {
      NoInnerSquare(o, x, l, d);
      if l + d < |x| {
        LocalPeriodOfSuffix(o, x, l, l', d);
      }
    }
  }

  lemma LocalPeriodOfSuffix(o: Order, x: seq<Letter>, l: int, l': int, d: int)
    requires GreatestSuffix(o, x, l) && GreatestSuffix(Opposite(o), x, l')
    requires l' <= l < d && l + d < |x|
    requires LocalPeriod(x, l, d)
    ensures Period(x, l, |x|, d)
  {
    assert Below(o, x, l + d, l);
    assert Below(Opposite(o), x, l' + d, l');
    var c :| BelowAt(Opposite(o), x, l' + d, l', c);
    if c < l - l' {
      assert false;
    }
    assert BelowAt(Opposite(o), x, l + d, l, c - (l - l'));
    BelowBothWays(o, x, l + d, l);
  }

  lemma Remainder(d: int, p: int) returns (r: int, k: nat)
    requires 1 <= d && 1 <= p
    ensures 1 <= r <= p && d == r + k * p
  {
    r, k := d, 0;
    while r > p
      invariant 1 <= r && d == r + k * p
    {
      assert (k + 1) * p == k * p + p;
      r, k := r - p, k + 1;
    }
  }

  /**
    At a critical cut whose right part has smallest period p, either p is a
    period of the whole word or no period of the word fits in either part.
   */
  lemma PeriodsAtCriticalCut(x: seq<Letter>, l: int, p: int, d: int)
    requires Critical(x, l) && SmallestPeriod(x, l, |x|, p)
    requires Period(x, 0, |x|, d)
    ensures l < d
    ensures d <= |x| - l ==> Period(x, 0, |x|, p)
  {
    assert LocalPeriod(x, l, d);
    if d <= |x| - l {
      var r, k := Remainder(d, p);
      forall i, j | 0 <= i && l - r <= i < l && j == i + r && j < |x|
        ensures x[i] == x[j]
      {
        assert x[i] == x[i + d];
        PeriodMultiple(x, l, |x|, p, j, k);
      }
      assert LocalPeriod(x, l, r);
      assert Period(x, l, |x|, r);
    }
  }
}
