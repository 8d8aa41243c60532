/**
  Comparing strings that hold version numbers: text, integers and fractions are
  told apart while walking to the first difference, and the result is a total
  order.
 */
module Strverscmp {
  import opened Decimal

  /** Characters are numbers; the terminator, zero, does not occur in a string. */
  type Text = s: seq<int> | forall i :: 0 <= i < |s| ==> s[i] != 0

  /** Reading at the end finds the terminator. */
  function At(s: Text, i: nat): int
    requires i <= |s|
  {
    if i < |s| then s[i] else 0
  }

  datatype CharType = Zero | Digit | Other

  function GetCharType(c: int): CharType {
    if c == 48 then Zero else if 49 <= c <= 57 then Digit else Other
  }

  datatype State = InText | InFraction | InZeroFraction | InInteger

  function NextState(state: State, t: CharType): State {
    match state
    case InText => (match t case Zero => InZeroFraction case Digit => InInteger case Other => InText)
    case InFraction => (match t case Zero => InFraction case Digit => InFraction case Other => InText)
    case InZeroFraction => (match t case Zero => InZeroFraction case Digit => InFraction case Other => InText)
    case InInteger => (match t case Zero => InInteger case Digit => InInteger case Other => InText)
  }

  datatype Mode = Difference | Lower | Greater | Length

  function ReturnMode(state: State, a: CharType, b: CharType): Mode {
    match state
    case InText => if a == Digit && b == Digit then Length else Difference
    case InFraction =>
      if a != Other && b == Other then Greater else if a == Other && b != Other then Lower else Difference
    case InZeroFraction =>
      if a != Other && b == Other then Lower else if a == Other && b != Other then Greater else Difference
    case InInteger =>
      if a != Other && b == Other then Greater
      else if a == Other && b != Other then Lower
      else if a == Other || (a == Zero && b == Zero) then Difference
      else Length
  }

  // ---------- The order ----------

  ghost function StateAfter(s: seq<int>): State {
    if |s| == 0 then InText else NextState(StateAfter(s[..|s| - 1]), GetCharType(s[|s| - 1]))
  }

  /** The number of digits from position p on. */
  ghost function Run(s: Text, p: nat): nat
    requires p <= |s|
    decreases |s| - p
  {
    if p == |s| || GetCharType(s[p]) == Other then 0 else 1 + Run(s, p + 1)
  }

  /** Two strings agree before p and differ there. */
  ghost predicate DifferAt(s: Text, t: Text, p: nat) {
    p <= |s| && p <= |t| && s[..p] == t[..p] && At(s, p) != At(t, p)
  }

  /** What decides at the first difference: the kind of character, for numbers their length, then the character. */
  datatype Rank = Rank(kind: int, length: int, code: int)

  ghost predicate Precedes(a: Rank, b: Rank) {
    a.kind < b.kind || (a.kind == b.kind && (a.length < b.length || (a.length == b.length && a.code < b.code)))
  }

  ghost function RankOf(state: State, s: Text, p: nat): Rank
    requires p <= |s|
  {
    var c := At(s, p);
    var t := GetCharType(c);
    match state
    case InText =>
      if t == Digit then Rank(1, Run(s, p), c) else if c < 49 then Rank(0, 0, c) else Rank(2, 0, c)
    case InFraction => Rank(if t == Other then 0 else 1, 0, c)
    case InZeroFraction => Rank(if t == Other then 1 else 0, 0, c)
    case InInteger => if t == Other then Rank(0, 0, c) else Rank(1, Run(s, p), c)
  }

  ghost predicate LessAt(s: Text, t: Text, p: nat) {
    DifferAt(s, t, p) && Precedes(RankOf(StateAfter(s[..p]), s, p), RankOf(StateAfter(s[..p]), t, p))
  }

  ghost predicate Less(s: Text, t: Text) {
    exists p: nat :: LessAt(s, t, p)
  }

  // ---------- It is a total order ----------

  lemma AgreeBefore(s: Text, t: Text, p: nat, q: nat)
    requires p <= |s| && p <= |t|
    ensures p < q <= |s| && q <= |t| && s[..q] == t[..q] ==> At(s, p) == At(t, p)
  {
    if p < q <= |s| && q <= |t| && s[..q] == t[..q] {
      assert s[p] == s[..q][p] && t[p] == t[..q][p];
    }
  }

  lemma OneDifference(s: Text, t: Text, p: nat, q: nat)
    requires DifferAt(s, t, p) && DifferAt(s, t, q)
    ensures p == q
  {
    AgreeBefore(s, t, p, q);
    AgreeBefore(s, t, q, p);
  }

  /** Different strings differ somewhere first. */
  lemma FirstDifference(s: Text, t: Text) returns (p: nat)
    requires s != t
    ensures DifferAt(s, t, p)
  {
    p := 0;
    while p < |s| && p < |t| && s[p] == t[p]
      invariant p <= |s| && p <= |t| && s[..p] == t[..p]
    {
      assert s[..p + 1] == s[..p] + [s[p]] && t[..p + 1] == t[..p] + [t[p]];
      p := p + 1;
    }
    assert s[..|s|] == s && t[..|t|] == t;
  }

  lemma Irreflexive(s: Text)
    ensures !Less(s, s)
  {
  }

  lemma Asymmetric(s: Text, t: Text)
    requires Less(s, t)
    ensures !Less(t, s)
  {
    var p: nat :| LessAt(s, t, p);
    forall q: nat
      ensures !LessAt(t, s, q)
    {
      if DifferAt(t, s, q) {
        OneDifference(s, t, p, q);
      }
    }
  }

  lemma Total(s: Text, t: Text)
    requires s != t
    ensures Less(s, t) || Less(t, s)
  {
    var p := FirstDifference(s, t);
    var state := StateAfter(s[..p]);
    assert RankOf(state, s, p).code != RankOf(state, t, p).code;
    if Precedes(RankOf(state, s, p), RankOf(state, t, p)) {
      assert LessAt(s, t, p);
    } else {
      assert LessAt(t, s, p);
    }
  }

  /** Through digits the state becomes, and stays, that of an integer. */
  lemma {:induction false} StaysInteger(s: Text, p: nat, q: nat)
    requires p < q <= |s| && forall i :: p <= i < q ==> GetCharType(s[i]) != Other
    requires StateAfter(s[..p]) == InInteger || (StateAfter(s[..p]) == InText && GetCharType(s[p]) == Digit)
    ensures StateAfter(s[..q]) == InInteger
  {
    assert s[..q][..q - 1] == s[..q - 1];
    if q > p + 1 {
      StaysInteger(s, p, q - 1);
    }
  }

  /** Over digits runs are as long as the digits and the run behind them. */
  lemma {:induction false} RunThrough(s: Text, p: nat, q: nat)
    requires p <= q <= |s| && forall i :: p <= i < q ==> GetCharType(s[i]) != Other
    ensures Run(s, p) == q - p + Run(s, q)
    decreases q - p
  {
    if p < q { RunThrough(s, p + 1, q); }
  }

  /** A run that ends before the first difference is the same in both strings. */
  lemma {:induction false} SameRun(s: Text, t: Text, p: nat, q: nat, i: nat)
    requires p <= i < q <= |s| && q <= |t| && s[..q] == t[..q] && GetCharType(s[i]) == Other
    ensures Run(s, p) == Run(t, p)
    decreases i - p
  {
    assert s[p] == s[..q][p] == t[..q][p] == t[p];
    assert s[i] == s[..q][i] == t[..q][i] == t[i];
    if p < i && GetCharType(s[p]) != Other { SameRun(s, t, p + 1, q, i); }
  }

  /** Seen from an earlier position, the smaller string does not rank higher: its number is not longer. */
  lemma RankMonotone(s: Text, t: Text, p: nat, q: nat)
    requires LessAt(s, t, q) && p < q
    ensures var state := StateAfter(s[..p]); var a, b := RankOf(state, s, p), RankOf(state, t, p);
      a.kind == b.kind && a.code == b.code && a.length <= b.length
  {
    assert s[p] == s[..q][p] == t[..q][p] == t[p];
    var state := StateAfter(s[..p]);
    if (state == InText && GetCharType(s[p]) == Digit) || (state == InInteger && GetCharType(s[p]) != Other) {
      if i :| p <= i < q && GetCharType(s[i]) == Other {
        SameRun(s, t, p, q, i);
      } else {
        StaysInteger(s, p, q);
        assert forall i :: p <= i < q ==> t[i] == t[..q][i] == s[..q][i] == s[i];
        RunThrough(s, p, q);
        RunThrough(t, p, q);
      }
    }
  }

  lemma PrefixShared(s: Text, t: Text, u: Text, p: nat, q: nat)
    requires p < q && DifferAt(t, u, q) && DifferAt(s, t, p)
    ensures DifferAt(s, u, p) && At(u, p) == At(t, p) && u[..p] == t[..p] && p <= |u|
  {
    assert t[p] == t[..q][p] == u[..q][p] == u[p];
    assert t[..p] == t[..q][..p] && u[..p] == u[..q][..p];
  }

  lemma Transitive(s: Text, t: Text, u: Text)
    requires Less(s, t) && Less(t, u)
    ensures Less(s, u)
  {
    var p: nat :| LessAt(s, t, p);
    var q: nat :| LessAt(t, u, q);
    if p < q {
      RankMonotone(t, u, p, q);
      PrefixShared(s, t, u, p, q);
      assert LessAt(s, u, p);
    } else if q < p {
      RankMonotone(s, t, q, p);
      PrefixShared(u, t, s, q, p);
      assert LessAt(s, u, q);
    } else if At(s, p) != At(u, p) {
      assert LessAt(s, u, p);
    } else {
      LongerNumber(s, t, u, p);
    }
  }

  /** Equal at the place where both differ from a third: then the lengths of their numbers decide. */
  lemma LongerNumber(s: Text, t: Text, u: Text, p: nat)
    requires LessAt(s, t, p) && LessAt(t, u, p) && At(s, p) == At(u, p)
    ensures Less(s, u)
  {
    var state := StateAfter(s[..p]);
    var a, b := RankOf(state, s, p), RankOf(state, u, p);
    assert Precedes(a, b) && a.kind == b.kind && a.length < b.length;
    if !Less(s, u) {
      assert s != u;
      Total(s, u);
      var r: nat :| LessAt(u, s, r);
      Beyond(s, u, p, r);
      RankMonotone(u, s, p, r);
      assert false;
    }
  }

  lemma Beyond(s: Text, u: Text, p: nat, r: nat)
    requires p <= |s| && p <= |u| && s[..p] == u[..p] && At(s, p) == At(u, p) && DifferAt(u, s, r)
    ensures p < r
  {
    AgreeBefore(s, u, r, p);
  }

  // ---------- It orders text by its characters ----------

  /** Where the strings part there are no digits, or text goes on with at most one number. */
  ghost predicate DecidedByCharacter(s: Text, t: Text, p: nat)
    requires p <= |s| && p <= |t|
  {
    var a, b := GetCharType(At(s, p)), GetCharType(At(t, p));
    (a == Other && b == Other) || (StateAfter(s[..p]) == InText && !(a == Digit && b == Digit))
  }

  lemma TextByCharacter(s: Text, t: Text, p: nat)
    requires DifferAt(s, t, p) && DecidedByCharacter(s, t, p)
    ensures Less(s, t) <==> At(s, p) < At(t, p)
  {
    if At(s, p) < At(t, p) {
      assert LessAt(s, t, p);
    } else {
      assert LessAt(t, s, p);
      Asymmetric(t, s);
    }
  }

  // ---------- It orders integers by value ----------

  lemma {:induction false} FirstDigitDecides(d: seq<int>, d': seq<int>, j: nat)
    requires IsDecimal(d) && IsDecimal(d') && j < |d| == |d'| && d[..j] == d'[..j] && d[j] < d'[j]
    ensures Dec(d) < Dec(d')
  {
    var n := |d| - 1;
    if j < n {
      assert d[..n][..j] == d[..j] && d'[..n][..j] == d'[..j];
      FirstDigitDecides(d[..n], d'[..n], j);
    } else {
      assert d[..n] == d[..j] && d'[..n] == d'[..j];
    }
  }

  lemma {:induction false} RunIsDigits(s: Text, p: nat)
    requires p <= |s|
    ensures p + Run(s, p) <= |s| && IsDecimal(s[p..p + Run(s, p)])
    ensures forall i :: p <= i < p + Run(s, p) ==> GetCharType(s[i]) != Other
    decreases |s| - p
  {
    if p < |s| && GetCharType(s[p]) != Other {
      RunIsDigits(s, p + 1);
      assert s[p..p + Run(s, p)] == [s[p]] + s[p + 1..p + Run(s, p)];
    }
  }

  /** The number that starts at p. */
  ghost function NumberAt(s: Text, p: nat): int
    requires p <= |s|
  {
    RunIsDigits(s, p);
    Dec(s[p..p + Run(s, p)])
  }

  /** Where two numbers start to differ, or the first one ends. */
  lemma CommonDigits(s: Text, t: Text, p: nat, m: nat, n: nat) returns (j: nat)
    requires p + m <= |s| && p + n <= |t| && m <= n && s[..p] == t[..p]
    ensures j <= m && s[..p + j] == t[..p + j] && (j < m ==> s[p + j] != t[p + j])
  {
    j := 0;
    while j < m && s[p + j] == t[p + j]
      invariant j <= m && s[..p + j] == t[..p + j]
    {
      assert s[..p + j + 1] == s[..p + j] + [s[p + j]] && t[..p + j + 1] == t[..p + j] + [t[p + j]];
      j := j + 1;
    }
  }

  lemma SameStart(s: seq<int>, t: seq<int>, p: nat, m: nat, n: nat, j: nat)
    requires j <= m && j <= n && p + m <= |s| && p + n <= |t| && s[..p + j] == t[..p + j]
    ensures s[p..p + m][..j] == t[p..p + n][..j]
  {
    assert s[p..p + m][..j] == s[..p + j][p..];
    assert t[p..p + n][..j] == t[..p + j][p..];
  }

  /** A smaller number is shorter, or at the first difference has the smaller digit. */
  lemma SmallerNumber(a: seq<int>, b: seq<int>, j: nat)
    requires IsDecimal(a) && IsDecimal(b) && |a| > 0 && a[0] != ZERO && Dec(a) < Dec(b)
    ensures |a| <= |b|
    ensures j < |a| == |b| && a[..j] == b[..j] && a[j] != b[j] ==> a[j] < b[j]
    ensures |a| == |b| ==> a != b
  {
    hide Dec;
    DecBound(b);
    LeadingDigit(a);
    if |a| > |b| { Pow10Grows(|b|, |a| - 1); }
    if j < |a| == |b| && a[..j] == b[..j] && a[j] > b[j] { FirstDigitDecides(b, a, j); }
  }

  /** After the same text two integers, neither starting with a zero. */
  ghost predicate Integers(s: Text, t: Text, p: nat) {
    && p < |s| && p < |t| && s[..p] == t[..p] && StateAfter(s[..p]) == InText
    && GetCharType(s[p]) == Digit && GetCharType(t[p]) == Digit
  }

  /** The smaller of them comes first, whatever follows. */
  lemma IntegersByValue(s: Text, t: Text, p: nat)
    requires Integers(s, t, p) && NumberAt(s, p) < NumberAt(t, p)
    ensures Less(s, t)
  {
    hide Dec, StateAfter;
    var m, n := Run(s, p), Run(t, p);
    RunIsDigits(s, p);
    RunIsDigits(t, p);
    var a, b := s[p..p + m], t[p..p + n];
    SmallerNumber(a, b, 0);
    var j := CommonDigits(s, t, p, m, n);
    var q := p + j;
    SameStart(s, t, p, m, n, j);
    if j < m { SmallerNumber(a, b, j); }
    RunThrough(s, p, q);
    RunThrough(t, p, q);
    if j > 0 { StaysInteger(s, p, q); }
    assert LessAt(s, t, q);
  }

  // ---------- It orders fractions by value ----------

  /** The number that digits denote behind a decimal point. */
  ghost function Fraction(d: seq<int>): real {
    if |d| == 0 then 0.0 else ((d[0] - ZERO) as real + Fraction(d[1..])) / 10.0
  }

  lemma {:induction false} FractionBelowOne(d: seq<int>)
    requires IsDecimal(d)
    ensures 0.0 <= Fraction(d) < 1.0
  {
    if |d| > 0 { FractionBelowOne(d[1..]); }
  }

  /** The first digit that differs decides. */
  lemma {:induction false} FractionDecides(a: seq<int>, b: seq<int>, j: nat)
    requires IsDecimal(a) && IsDecimal(b) && j < |a| && j < |b| && a[..j] == b[..j] && a[j] < b[j]
    ensures Fraction(a) < Fraction(b)
  {
    FractionBelowOne(a[1..]);
    FractionBelowOne(b[1..]);
    if j > 0 {
      assert a[0] == a[..j][0] == b[..j][0] == b[0];
      assert a[1..][..j - 1] == a[..j][1..] && b[1..][..j - 1] == b[..j][1..];
      FractionDecides(a[1..], b[1..], j - 1);
    }
  }

  /** More digits do not make less. */
  lemma {:induction false} FractionGrows(a: seq<int>, b: seq<int>)
    requires IsDecimal(b) && a <= b
    ensures Fraction(a) <= Fraction(b)
  {
    FractionBelowOne(b);
    if |a| > 0 {
      assert a[1..] <= b[1..];
      FractionGrows(a[1..], b[1..]);
    }
  }

  /** The digits that start at p. */
  ghost function DigitsAt(s: Text, p: nat): (d: seq<int>)
    requires p <= |s|
    ensures IsDecimal(d) && |d| == Run(s, p)
  {
    RunIsDigits(s, p);
    s[p..p + Run(s, p)]
  }

  ghost predicate AllZero(d: seq<int>) {
    forall i :: 0 <= i < |d| ==> d[i] == ZERO
  }

  /** Through zeros the state is that of a fraction that is still zero; from the first other digit on it is not. */
  lemma {:induction false} StateInFraction(s: Text, p: nat, q: nat)
    requires p < q <= |s| && forall i :: p <= i < q ==> GetCharType(s[i]) != Other
    requires StateAfter(s[..p]) == InText && s[p] == ZERO
    ensures StateAfter(s[..q]) == if AllZero(s[p..q]) then InZeroFraction else InFraction
  {
    assert s[..q][..q - 1] == s[..q - 1];
    if q > p + 1 {
      StateInFraction(s, p, q - 1);
      assert s[p..q] == s[p..q - 1] + [s[q - 1]];
    } else {
      assert s[p..q] == [s[p]];
    }
  }

  /** After the same text two fractions, each starting with a zero. */
  ghost predicate Fractions(s: Text, t: Text, p: nat) {
    p < |s| && p < |t| && s[..p] == t[..p] && StateAfter(s[..p]) == InText && s[p] == ZERO && t[p] == ZERO
  }

  /** The digits at p go on exactly as long as the run. */
  lemma RunStops(s: Text, p: nat, j: nat)
    requires p <= |s| && j <= Run(s, p)
    ensures var a := DigitsAt(s, p);
      && p + |a| <= |s| && a[..j] == s[p..p + j] && (forall i :: p <= i < p + j ==> GetCharType(s[i]) != Other)
      && (j < |a| ==> At(s, p + j) == a[j] && GetCharType(a[j]) != Other)
      && (j == |a| ==> GetCharType(At(s, p + j)) == Other)
  {
    RunIsDigits(s, p);
    RunThrough(s, p, p + j);
  }

  /** The first place where the digits of two fractions differ, or one has no more. */
  lemma FractionsPart(s: Text, t: Text, p: nat) returns (j: nat)
    requires Fractions(s, t, p)
    ensures var a, b := DigitsAt(s, p), DigitsAt(t, p);
      && 1 <= j <= |a| && j <= |b| && a[..j] == b[..j] && (j < |a| && j < |b| ==> a[j] != b[j])
      && p + |a| <= |s| && p + |b| <= |t| && s[..p + j] == t[..p + j]
      && StateAfter(s[..p + j]) == (if AllZero(a[..j]) then InZeroFraction else InFraction)
      && (j < |a| ==> At(s, p + j) == a[j] && GetCharType(a[j]) != Other)
      && (j < |b| ==> At(t, p + j) == b[j] && GetCharType(b[j]) != Other)
      && (j == |a| ==> GetCharType(At(s, p + j)) == Other) && (j == |b| ==> GetCharType(At(t, p + j)) == Other)
  {
    j := FirstApart(s, t, p);
    hide StateAfter, Run, DigitsAt;
    RunStops(s, p, j);
    RunStops(t, p, j);
    StateInFraction(s, p, p + j);
    assert s[p..p + j] == s[..p + j][p..] && t[p..p + j] == t[..p + j][p..];
  }

  lemma FirstApart(s: Text, t: Text, p: nat) returns (j: nat)
    requires Fractions(s, t, p)
    ensures 1 <= j <= Run(s, p) && j <= Run(t, p) && p + j <= |s| && p + j <= |t| && s[..p + j] == t[..p + j]
    ensures j < Run(s, p) && j < Run(t, p) ==> At(s, p + j) != At(t, p + j)
  {
    hide StateAfter;
    var m, n := Run(s, p), Run(t, p);
    RunIsDigits(s, p);
    RunIsDigits(t, p);
    if m <= n {
      j := CommonDigits(s, t, p, m, n);
    } else {
      j := CommonDigits(t, s, p, n, m);
    }
  }

  /** Of two fractions that are not zero the smaller one comes first, and of equal ones the shorter one. */
  lemma FractionsByValue(s: Text, t: Text, p: nat)
    requires Fractions(s, t, p) && !AllZero(DigitsAt(s, p)) && !AllZero(DigitsAt(t, p))
    requires var a, b := DigitsAt(s, p), DigitsAt(t, p);
      Fraction(a) < Fraction(b) || (Fraction(a) == Fraction(b) && |a| < |b|)
    ensures Less(s, t)
  {
    hide StateAfter, Run, DigitsAt;
    var a, b := DigitsAt(s, p), DigitsAt(t, p);
    var j := FractionsPart(s, t, p);
    FractionOrder(a, b, j);
    assert LessAt(s, t, p + j);
  }

  /** Where they part the smaller fraction has the smaller digit, or no more. */
  lemma FractionOrder(a: seq<int>, b: seq<int>, j: nat)
    requires IsDecimal(a) && IsDecimal(b) && j <= |a| && j <= |b| && a[..j] == b[..j]
    requires j < |a| && j < |b| ==> a[j] != b[j]
    requires Fraction(a) < Fraction(b) || (Fraction(a) == Fraction(b) && |a| < |b|)
    ensures j < |b| && (j < |a| ==> a[j] < b[j]) && (j == |a| ==> a == b[..j])
  {
    if j < |a| && j < |b| {
      if b[j] < a[j] { FractionDecides(b, a, j); }
    } else if j == |b| {
      assert b == a[..j];
      FractionGrows(b, a);
    } else {
      assert a == b[..j];
    }
  }

  /**
    A run of zeros comes after every longer one and after every fraction with at
    least as many leading zeros, and before the other fractions.
   */
  lemma ZerosByLength(s: Text, t: Text, p: nat)
    requires Fractions(s, t, p) && AllZero(DigitsAt(t, p))
    ensures var a, n := DigitsAt(s, p), |DigitsAt(t, p)|;
      && (|a| > n && AllZero(a[..n]) ==> Less(s, t))
      && (!AllZero(a) && !(|a| > n && AllZero(a[..n])) ==> Less(t, s))
  {
    hide StateAfter, Run, DigitsAt;
    var a, b := DigitsAt(s, p), DigitsAt(t, p);
    var j := FractionsPart(s, t, p);
    assert forall i :: 0 <= i < j ==> a[i] == a[..j][i] == b[..j][i] == b[i];
    if |a| > |b| && AllZero(a[..|b|]) {
      assert forall i :: 0 <= i < |b| ==> a[i] == a[..|b|][i];
      assert LessAt(s, t, p + j);
    } else if !AllZero(a) {
      assert LessAt(t, s, p + j);
    }
  }

  // ---------- Nothing else decides ----------

  /** Inside a number: where it starts, and with what. */
  lemma {:induction false} NumberStart(s: Text, p: nat) returns (q: nat)
    requires p <= |s| && StateAfter(s[..p]) != InText
    ensures q < p && StateAfter(s[..q]) == InText
    ensures StateAfter(s[..p]) == InInteger ==> GetCharType(s[q]) == Digit
    ensures StateAfter(s[..p]) != InInteger ==> s[q] == ZERO
    decreases p
  {
    assert s[..p][..p - 1] == s[..p - 1];
    if StateAfter(s[..p - 1]) == InText {
      q := p - 1;
    } else {
      q := NumberStart(s, p - 1);
    }
  }

  /** Wherever two strings part, their characters decide, or two integers or two fractions that start there or before. */
  lemma OneOfThese(s: Text, t: Text, p: nat)
    requires DifferAt(s, t, p)
    ensures DecidedByCharacter(s, t, p) || exists q | 0 <= q <= p :: Integers(s, t, q) || Fractions(s, t, q)
  {
    if StateAfter(s[..p]) == InText {
      assert DecidedByCharacter(s, t, p) || Integers(s, t, p);
    } else {
      var q := NumberStart(s, p);
      assert s[q] == s[..p][q] == t[..p][q] == t[q];
      assert s[..q] == s[..p][..q] == t[..p][..q] == t[..q];
      assert Integers(s, t, q) || Fractions(s, t, q);
    }
  }

  // ---------- The function ----------

  /** Both numbers go on: the one whose digits end first is the smaller. */
  method CompareLength(s: Text, t: Text, p: nat, diff: int) returns (r: int)
    requires p < |s| && p < |t| && GetCharType(s[p]) != Other && GetCharType(t[p]) != Other
    ensures r == if Run(s, p) == Run(t, p) then diff else if Run(s, p) < Run(t, p) then -1 else 1
  {
    var i := p + 1;
    RunThrough(s, p, i);
    RunThrough(t, p, i);
    while true
      invariant p < i <= |s| && i <= |t|
      invariant Run(s, p) == i - p + Run(s, i) && Run(t, p) == i - p + Run(t, i)
      decreases |s| - i
    {
      var a, b := GetCharType(At(s, i)), GetCharType(At(t, i));
      if a == Other {
        return if b == Other then diff else -1;
      } else if b == Other {
        return 1;
      }
      i := i + 1;
    }
  }

  /** Zero exactly for equal strings; otherwise the sign says which one is less in the order above. */
  method Compare(s: Text, t: Text) returns (r: int)
    ensures r == 0 <==> s == t
    ensures r < 0 <==> Less(s, t)
    ensures r > 0 <==> Less(t, s)
  {
    var state := InText;
    var i := 0;
    while At(s, i) == At(t, i)
      invariant i <= |s| && i <= |t| && s[..i] == t[..i] && state == StateAfter(s[..i])
      decreases |s| - i
    {
      if At(s, i) == 0 {
        assert s == s[..i] && t == t[..i];
        Irreflexive(s);
        return 0;
      }
      assert s[..i + 1] == s[..i] + [s[i]] && t[..i + 1] == t[..i] + [t[i]];
      assert s[..i + 1][..i] == s[..i];
      state := NextState(state, GetCharType(At(s, i)));
      i := i + 1;
    }
    r := Decide(s, t, i, state);
    if r < 0 {
      assert LessAt(s, t, i);
      Asymmetric(s, t);
    } else {
      assert LessAt(t, s, i);
      Asymmetric(t, s);
    }
  }

  method Decide(s: Text, t: Text, i: nat, state: State) returns (r: int)
    requires DifferAt(s, t, i)
    ensures r == if Precedes(RankOf(state, s, i), RankOf(state, t, i)) then -1 else 1
    ensures r > 0 ==> Precedes(RankOf(state, t, i), RankOf(state, s, i))
  {
    var diff := if At(s, i) < At(t, i) then -1 else 1;
    var mode := ReturnMode(state, GetCharType(At(s, i)), GetCharType(At(t, i)));
    match mode
    case Lower => r := -1;
    case Greater => r := 1;
    case Length => r := CompareLength(s, t, i, diff);
    case Difference => r := diff;
  }
}
