/**
  Field lengths in serialised argument data: base-128 digits, most significant
  first, the last one marked by its top bit.
 */
module Subfield {
  import opened Options

  type Byte = x: int | 0 <= x < 256

  const SIZE_LIMIT: int := 0x1_0000_0000_0000_0000
  const PREFIX_LIMIT: int := 0x200_0000_0000_0000

  // ---------- The canonical spelling ----------

  /** The digits before the last one; no leading zero. */
  ghost function Prefix(n: nat): (r: seq<Byte>)
    ensures n > 0 ==> |r| > 0 && 0 < r[0] < 128
    ensures forall i :: 0 <= i < |r| ==> r[i] < 128
  {
    if n == 0 then [] else Prefix(n / 128) + [n % 128]
  }

  /** The one spelling of a length. */
  ghost function Spelling(n: nat): (r: seq<Byte>)
    ensures |r| > 0 && r[0] != 0
  {
    Prefix(n / 128) + [128 + n % 128]
  }

  /** Seven bits to a byte, the most significant first, the last one marked. */
  lemma SpelledOut()
    ensures Spelling(5) == [0x85] && Spelling(200) == [1, 0xC8] && Spelling(20000) == [1, 28, 0xA0]
  {
    hide Prefix;
    PrefixStep(0);
    PrefixStep(1);
    PrefixStep(156);
    assert 5 / 128 == 0 && 200 / 128 == 1 && 20000 / 128 == 156 && 156 / 128 == 1;
  }

  lemma PrefixStep(n: nat)
    ensures Prefix(n) == if n == 0 then [] else Prefix(n / 128) + [n % 128]
  {
  }

  /** The digits read so far denote acc. */
  ghost function Read(acc: nat, c: Byte): nat {
    128 * acc + c % 128
  }

  /** A length of n bytes is spelt at the start of s, and that many bytes follow. */
  ghost predicate StartsWith(s: seq<Byte>, n: nat) {
    && n < SIZE_LIMIT
    && var k := |Spelling(n)|; k + n <= |s| && s[..k] == Spelling(n)
  }

  // ---------- Reading ----------

  /** What follows the digits already read; fails at the end or when another digit would not fit in 64 bits. */
  ghost function Scan(s: seq<Byte>, acc: nat): (r: Option<(nat, nat)>)
    ensures r.Some? ==> 1 <= r.value.1 <= |s|
  {
    if |s| == 0 || acc >= PREFIX_LIMIT then None
    else if s[0] >= 128 then Some((Read(acc, s[0]), 1))
    else
      match Scan(s[1..], Read(acc, s[0]))
      case None => None
      case Some((n, k)) => Some((n, k + 1))
  }

  /** The length of the field at the start of s and the number of bytes that spell it. */
  ghost function ParseLength(s: seq<Byte>): (r: Option<(nat, nat)>)
    ensures r.Some? ==> 1 <= r.value.1 && r.value.1 + r.value.0 <= |s|
  {
    if |s| == 0 || s[0] == 0 then None
    else
      match Scan(s, 0)
      case None => None
      case Some((n, k)) => if n <= |s| - k then Some((n, k)) else None
  }

  /** Advances a cursor over a length and the field it announces. */
  method ParseSubfield(s: seq<Byte>) returns (ok: bool, start: nat, length: nat)
    ensures ok <==> ParseLength(s).Some?
    ensures ok ==> ParseLength(s) == Some((length, start)) && start + length <= |s|
  {
    start, length := 0, 0;
    if |s| == 0 || s[0] == 0 {
      return false, 0, 0;
    }
    var last := false;
    assert s[0..] == s;
    while !last
      invariant 0 <= start <= |s|
      invariant !last ==> Ahead(Scan(s, 0), Scan(s[start..], length), start)
      invariant last ==> Scan(s, 0) == Some((length, start))
      decreases !last, |s| - start
    {
      if start == |s| {
        return false, 0, 0;
      }
      var c := s[start];
      if length >= PREFIX_LIMIT {
        return false, 0, 0;
      }
      assert s[start..][1..] == s[start + 1..];
      start := start + 1;
      length := length * 128;
      last := c >= 128;
      length := length + c % 128;
    }
    ok := length <= |s| - start;
  }

  /** The scan of the whole is the scan of the rest, `start` bytes later. */
  ghost predicate Ahead(whole: Option<(nat, nat)>, rest: Option<(nat, nat)>, start: nat) {
    match rest
    case None => whole == None
    case Some((n, k)) => whole == Some((n, k + start))
  }

  // ---------- Reading is the inverse of spelling ----------

  /** A digit is appended to a number. */
  lemma PrefixOf(acc: nat, c: Byte)
    requires c < 128 && Read(acc, c) > 0
    ensures Prefix(Read(acc, c)) == Prefix(acc) + [c]
  {
    assert Read(acc, c) / 128 == acc && Read(acc, c) % 128 == c;
  }

  /** Scanning after the digits of acc finds exactly a number whose spelling starts with them. */
  lemma {:induction false} ScanSound(s: seq<Byte>, acc: nat)
    requires Scan(s, acc).Some? && (acc == 0 ==> s[0] != 0)
    ensures var (n, k) := Scan(s, acc).value; n < SIZE_LIMIT && Prefix(acc) + s[..k] == Spelling(n)
  {
    var c := s[0];
    var m := Read(acc, c);
    var (n, k) := Scan(s, acc).value;
    if c >= 128 {
      assert m / 128 == acc && m % 128 == c - 128;
      assert s[..1] == [c];
    } else {
      PrefixOf(acc, c);
      ScanSound(s[1..], m);
      assert Prefix(acc) + s[..k] == (Prefix(acc) + [c]) + s[1..][..k - 1];
    }
  }

  /** Scanning after the digits of acc reads the remaining digits of any number that starts with them. */
  lemma {:induction false} ScanComplete(s: seq<Byte>, n: nat, j: nat)
    requires var w := Spelling(n); j < |w| && n < SIZE_LIMIT && w[j..] <= s
    ensures Scan(s, Leading(n, j)) == Some((n, |Spelling(n)| - j))
    decreases |Spelling(n)| - j
  {
    var w := Spelling(n);
    var acc := Leading(n, j);
    LeadingFits(n, j);
    LeadingStep(n, j);
    assert s[0] == w[j..][0] == w[j];
    if j == |w| - 1 {
    } else {
      assert w[j + 1..] == w[j..][1..];
      assert s[1..][..|w| - j - 1] == s[..|w| - j][1..];
      ScanComplete(s[1..], n, j + 1);
    }
  }

  /** The number the first j digits of n's spelling denote. */
  ghost function Leading(n: nat, j: nat): nat
    requires j <= |Prefix(n / 128)|
  {
    LeadingOf(n / 128, |Prefix(n / 128)| - j)
  }

  /** n without its last d digits. */
  ghost function LeadingOf(n: nat, d: nat): nat {
    if d == 0 then n else LeadingOf(n / 128, d - 1)
  }

  lemma {:induction false} LeadingAtMost(n: nat, d: nat)
    ensures LeadingOf(n, d) <= n
  {
    if d > 0 { LeadingAtMost(n / 128, d - 1); }
  }

  lemma LeadingFits(n: nat, j: nat)
    requires n < SIZE_LIMIT && j <= |Prefix(n / 128)|
    ensures Leading(n, j) < PREFIX_LIMIT
  {
    LeadingAtMost(n / 128, |Prefix(n / 128)| - j);
  }

  lemma {:induction false} LeadingNext(n: nat, d: nat)
    requires 0 < d <= |Prefix(n)|
    ensures LeadingOf(n, d - 1) == Read(LeadingOf(n, d), Prefix(n)[|Prefix(n)| - d])
  {
    if d > 1 {
      LeadingNext(n / 128, d - 1);
    }
  }

  lemma LeadingStep(n: nat, j: nat)
    requires j < |Spelling(n)|
    ensures j < |Spelling(n)| - 1 ==> Spelling(n)[j] < 128 && Leading(n, j + 1) == Read(Leading(n, j), Spelling(n)[j])
    ensures j == |Spelling(n)| - 1 ==> Spelling(n)[j] >= 128 && n == Read(Leading(n, j), Spelling(n)[j])
  {
    if j < |Spelling(n)| - 1 {
      LeadingNext(n / 128, |Prefix(n / 128)| - j);
    }
  }

  lemma {:induction false} LeadingNone(n: nat)
    ensures LeadingOf(n, |Prefix(n)|) == 0
  {
    if n > 0 { LeadingNone(n / 128); }
  }

  /** Parsing succeeds exactly on the canonical spelling of a length that fits, and on no other. */
  lemma ParseIffSpelled(s: seq<Byte>, n: nat, k: nat)
    ensures ParseLength(s) == Some((n, k)) <==> StartsWith(s, n) && k == |Spelling(n)|
  {
    if ParseLength(s) == Some((n, k)) {
      ScanSound(s, 0);
    }
    if StartsWith(s, n) && k == |Spelling(n)| {
      assert s[0] == Spelling(n)[0];
      assert Spelling(n)[0..] == Spelling(n);
      LeadingNone(n / 128);
      ScanComplete(s, n, 0);
    }
  }

  /** A spelling followed by its field parses back to it. */
  lemma ParseInvertsSpelling(n: nat, field: seq<Byte>, rest: seq<Byte>)
    requires n < SIZE_LIMIT && |field| == n
    ensures ParseLength(Spelling(n) + field + rest) == Some((n, |Spelling(n)|))
  {
    var s := Spelling(n) + field + rest;
    assert s[..|Spelling(n)|] == Spelling(n);
    ParseIffSpelled(s, n, |Spelling(n)|);
  }

  // ---------- Writing ----------

  /** Total size of a subfield with its length. */
  method GetSubfieldLength(length: nat) returns (total: nat)
    ensures total == |Spelling(length)| + length
  {
    total := length;
    var field := length;
    total := total + 1;
    field := field / 128;
    while field != 0
      invariant field >= 0 && total + |Prefix(field)| == |Spelling(length)| + length
      decreases field
    {
      total := total + 1;
      field := field / 128;
    }
  }

  /** The digits of a length at the end of a scratch buffer, produced from the last to the first. */
  method LengthDigits(length: nat) returns (digits: array<Byte>, start: nat)
    requires length < SIZE_LIMIT
    ensures fresh(digits) && start <= digits.Length && digits[start..] == Spelling(length)
  {
    digits := new Byte[10];
    start := digits.Length - 1;
    var len := length;
    digits[start] := 128 + len % 128;
    len := len / 128;
    AtMostTen(length);
    assert digits[start..] == [128 + length % 128];
    while len != 0
      invariant 0 <= start < digits.Length && len >= 0
      invariant Prefix(len) + digits[start..] == Spelling(length)
      decreases len
    {
      assert |Prefix(len)| >= 1;
      ghost var tail := digits[start..];
      start := start - 1;
      digits[start] := len % 128;
      assert digits[start..] == [len % 128] + tail;
      assert Prefix(len) + tail == Prefix(len / 128) + ([len % 128] + tail);
      len := len / 128;
    }
    assert digits[start..] == Spelling(length);
  }

  /** Writes a length at the output cursor. */
  method EncodeSubfieldLength(length: nat, buf: array<Byte>, pos: nat) returns (next: nat)
    requires length < SIZE_LIMIT && pos + |Spelling(length)| <= buf.Length
    modifies buf
    ensures next == pos + |Spelling(length)| && buf[pos..next] == Spelling(length)
    ensures buf[..pos] == old(buf[..pos]) && buf[next..] == old(buf[next..])
  {
    var digits, start := LengthDigits(length);
    next := pos + (digits.Length - start);
    CopyBytes(digits, start, buf, pos);
  }

  /** memcpy of the tail of one array. */
  method CopyBytes(from: array<Byte>, start: nat, buf: array<Byte>, pos: nat)
    requires start <= from.Length && pos + (from.Length - start) <= buf.Length && from != buf
    modifies buf
    ensures var next := pos + (from.Length - start);
      buf[..pos] == old(buf[..pos]) && buf[pos..next] == from[start..] && buf[next..] == old(buf[next..])
  {
    var n := from.Length - start;
    ghost var before := buf[..];
    var i := 0;
    while i < n
      invariant 0 <= i <= n
      invariant buf[..pos] == before[..pos] && buf[pos + i..] == before[pos + i..]
      invariant buf[pos..pos + i] == from[start..start + i]
    {
      buf[pos + i] := from[start + i];
      assert buf[pos..pos + i + 1] == buf[pos..pos + i] + [from[start + i]];
      assert from[start..start + i + 1] == from[start..start + i] + [from[start + i]];
      assert buf[pos + i + 1..] == before[pos + i..][1..];
      i := i + 1;
    }
  }

  lemma {:induction false} PrefixAtMost(n: nat, d: nat, limit: nat)
    requires n < limit && limit == Power128(d)
    ensures |Prefix(n)| <= d
  {
    if n > 0 {
      PrefixAtMost(n / 128, d - 1, Power128(d - 1));
    }
  }

  ghost function Power128(d: nat): nat {
    if d == 0 then 1 else 128 * Power128(d - 1)
  }

  lemma AtMostTen(n: nat)
    requires n < SIZE_LIMIT
    ensures |Spelling(n)| <= 10
  {
    assert Power128(3) == 0x20_0000;
    assert Power128(6) == 0x400_0000_0000;
    assert Power128(9) == 0x8000_0000_0000_0000;
    PrefixAtMost(n / 128, 9, Power128(9));
  }
}
