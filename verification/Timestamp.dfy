/**
  Timestamps as big-endian two's-complement nanoseconds: creating one from
  seconds and nanoseconds, and splitting one again in two divisions.
 */
module Timestamp {
  import opened Subfield
  import opened Positional
  import opened DigitLoops
  import opened MachineWords

  const BILLION: int := 1_000_000_000
  const TYPE_TIMESTAMP: Byte := 9

  // ---------- Big-endian numbers ----------

  ghost function Pow256(n: nat): (r: nat)
    ensures r > 0
  {
    if n == 0 then 1 else 256 * Pow256(n - 1)
  }

  ghost function Unsigned(s: seq<Byte>): nat {
    if |s| == 0 then 0 else 256 * Unsigned(s[..|s| - 1]) + s[|s| - 1]
  }

  /** Two's complement; no bytes denote zero. */
  ghost function Signed(s: seq<Byte>): int {
    if |s| > 0 && s[0] >= 0x80 then Unsigned(s) - Pow256(|s|) else Unsigned(s)
  }

  lemma {:induction false} UnsignedConcat(s: seq<Byte>, t: seq<Byte>)
    ensures Unsigned(s + t) == Unsigned(s) * Pow256(|t|) + Unsigned(t)
  {
    if |t| == 0 {
      assert s + t == s;
    } else {
      hide Unsigned;
      var t', c := t[..|t| - 1], t[|t| - 1];
      assert s + t == (s + t') + [c] && t == t' + [c];
      UnsignedAppend(s + t', c);
      UnsignedAppend(t', c);
      UnsignedConcat(s, t');
      Pull256(Unsigned(s), Pow256(|t'|));
    }
  }

  lemma Pull256(x: int, p: int)
    ensures x * (256 * p) == 256 * (x * p)
  {
  }

  lemma UnsignedAppend(s: seq<Byte>, c: Byte)
    ensures Unsigned(s + [c]) == 256 * Unsigned(s) + c
  {
    assert (s + [c])[..|s|] == s;
  }

  lemma UnsignedPrepend(c: Byte, s: seq<Byte>)
    ensures Unsigned([c] + s) == c * Pow256(|s|) + Unsigned(s)
  {
    UnsignedConcat([c], s);
    assert Unsigned([c]) == c;
  }

  lemma {:induction false} UnsignedBound(s: seq<Byte>)
    ensures 0 <= Unsigned(s) < Pow256(|s|)
  {
    if |s| > 0 { UnsignedBound(s[..|s| - 1]); }
  }

  /** The top bit decides whether half the range is reached. */
  lemma TopBit(s: seq<Byte>)
    requires |s| > 0
    ensures s[0] >= 0x80 <==> 2 * Unsigned(s) >= Pow256(|s|)
  {
    hide Unsigned;
    var t := s[1..];
    assert s == [s[0]] + t;
    UnsignedPrepend(s[0], t);
    UnsignedBound(t);
    if s[0] >= 0x80 {
      MulMonotone(0x80, s[0], Pow256(|t|));
    } else {
      MulMonotone(s[0], 0x7F, Pow256(|t|));
    }
  }

  lemma SignedConcat(s: seq<Byte>, t: seq<Byte>)
    requires |s| > 0
    ensures Signed(s + t) == Signed(s) * Pow256(|t|) + Unsigned(t)
  {
    hide Unsigned, Pow256;
    UnsignedConcat(s, t);
    Pow256Add(|s|, |t|);
    assert (s + t)[0] == s[0];
    MinusTimesPower(Unsigned(s), Pow256(|s|), Pow256(|t|));
  }

  lemma MinusTimesPower(u: int, p: int, q: int)
    ensures (u - p) * q == u * q - p * q
  {
  }

  lemma {:induction false} Pow256Add(m: nat, n: nat)
    ensures Pow256(m + n) == Pow256(m) * Pow256(n)
  {
    if m > 0 {
      Pow256Add(m - 1, n);
      var x, y := Pow256(m - 1), Pow256(n);
      assert (256 * x) * y == 256 * (x * y);
    }
  }

  lemma Pow256Values()
    ensures Pow256(0) == 1 && Pow256(1) == 256 && Pow256(4) == TWO32 && Pow256(8) == TWO64
  {
    assert Pow256(4) == TWO32;
    Pow256Add(4, 4);
  }

  // ---------- Trimming ----------

  /** A leading byte that only repeats the sign. */
  predicate Redundant(s: seq<Byte>) {
    |s| >= 2 && ((s[0] == 0 && s[1] < 0x80) || (s[0] == 0xFF && s[1] >= 0x80))
  }

  lemma DropRedundant(s: seq<Byte>)
    requires Redundant(s) || (|s| == 1 && s[0] == 0)
    ensures Signed(s[1..]) == Signed(s)
  {
    var t := s[1..];
    assert s == [s[0]] + t;
    UnsignedPrepend(s[0], t);
    assert Unsigned([]) == 0;
  }

  /** No byte can be left out: nothing for zero, and no repetition of the sign. */
  predicate Minimal(s: seq<Byte>) {
    !Redundant(s) && s != [0]
  }

  /** What so many bytes can hold. */
  lemma SignedRange(s: seq<Byte>)
    ensures 0 - Pow256(|s|) <= 2 * Signed(s) < Pow256(|s|)
  {
    UnsignedBound(s);
    if |s| > 0 { TopBit(s); }
  }

  /** Without a byte to spare the value is beyond what one byte less can hold. */
  lemma MinimalIsLarge(s: seq<Byte>)
    requires Minimal(s) && |s| > 0
    ensures 2 * Signed(s) >= Pow256(|s| - 1) || 2 * Signed(s) < 0 - Pow256(|s| - 1)
  {
    hide Unsigned;
    var t := s[1..];
    assert s == [s[0]] + t;
    UnsignedPrepend(s[0], t);
    UnsignedBound(t);
    if |t| > 0 { TopBit(t); }
    var p := Pow256(|t|);
    if s[0] < 0x80 {
      if s[0] >= 1 { MulMonotone(1, s[0], p); }
    } else {
      if s[0] < 0xFF { MulMonotone(s[0], 0xFE, p); }
      assert |t| == 0 ==> Unsigned(t) == 0 by { if |t| == 0 { NoBytes(); assert t == []; } }
    }
  }

  lemma {:induction false} Pow256Grows(m: nat, n: nat)
    requires m <= n
    ensures Pow256(m) <= Pow256(n)
  {
    if m < n { Pow256Grows(m, n - 1); }
  }

  /** A second, and a nanosecond before the start, in bytes. */
  lemma InBytes()
    ensures Signed([0x3B, 0x9A, 0xCA, 0]) == BILLION && Minimal([0x3B, 0x9A, 0xCA, 0])
    ensures Signed([0xFF]) == -1 && Minimal([0xFF])
  {
    var s: seq<Byte> := [0x3B, 0x9A, 0xCA, 0];
    assert s == [0x3B] + [0x9A] + [0xCA] + [0];
    UnsignedAppend([0x3B], 0x9A);
    UnsignedAppend([0x3B] + [0x9A], 0xCA);
    UnsignedAppend([0x3B] + [0x9A] + [0xCA], 0);
    OneByte(0x3B);
    OneByte(0xFF);
    assert Pow256(1) == 256 * Pow256(0);
  }

  lemma OneByte(c: Byte)
    ensures Unsigned([c]) == c
  {
    assert [c][..0] == [];
  }

  /** It is the shortest way to write its value. */
  lemma MinimalIsShortest(s: seq<Byte>, t: seq<Byte>)
    requires Minimal(s) && Signed(t) == Signed(s)
    ensures |t| >= |s|
  {
    hide Signed;
    SignedRange(t);
    if |s| > 0 && |t| < |s| {
      MinimalIsLarge(s);
      Pow256Grows(|t|, |s| - 1);
    }
  }

  // ---------- Creating ----------

  /** Stores the low `count` bytes of a number, the least significant first, moving the cursor down. */
  method StoreBytes(x: int, count: nat, buf: array<Byte>, end: nat) returns (start: nat)
    requires count <= end <= buf.Length
    modifies buf
    ensures start == end - count && Unsigned(buf[start..end]) == x % Pow256(count)
    ensures buf[end..] == old(buf[end..])
  {
    hide Unsigned, Pow256;
    start := end;
    var i := 0;
    Pow256Values();
    assert buf[end..end] == [] && Unsigned([]) == 0 by { NoBytes(); }
    while i < count
      invariant 0 <= i <= count && start == end - i
      invariant Unsigned(buf[start..end]) == x % Pow256(i)
      invariant buf[end..] == old(buf[end..])
    {
      ghost var s := buf[start..end];
      start := start - 1;
      var c := (x / Shift(i)) % 256;
      buf[start] := c;
      assert buf[start..end] == [c] + s;
      UnsignedPrepend(c, s);
      NextByte(x, i);
      i := i + 1;
    }
  }

  lemma NoBytes()
    ensures Unsigned([]) == 0
  {
  }

  /** 2^(8 * i). */
  function Shift(i: nat): (r: nat)
    ensures r == Pow256(i) && r > 0
  {
    if i == 0 then 1 else 256 * Shift(i - 1)
  }

  lemma NextByte(x: int, i: nat)
    ensures x % Pow256(i + 1) == ((x / Pow256(i)) % 256) * Pow256(i) + x % Pow256(i)
  {
    var p := Pow256(i);
    var q, r := x / p, x % p;
    assert x == p * q + r;
    ByteOfQuotient(x, p, q, r);
  }

  lemma ByteOfQuotient(x: int, p: int, q: int, r: int)
    requires p > 0 && x == p * q + r && 0 <= r < p
    ensures x % (256 * p) == (q % 256) * p + r
  {
    var a, b := q / 256, q % 256;
    assert q == 256 * a + b;
    SplitTimes(256, p, a, b);
    MulMonotone(b, 255, p);
    ProductNat(b, p);
    QuotientIs(x, 256 * p, a, b * p + r);
  }

  /** Twelve bytes of a number whose top 64 bits are high and whose bottom 32 bits are those of low. */
  lemma TwelveBytes(top: seq<Byte>, bottom: seq<Byte>, high: int, low: int)
    requires |top| == 8 && |bottom| == 4 && -TWO63 <= high < TWO63
    requires Unsigned(top) == high % TWO64 && Unsigned(bottom) == low % TWO32
    ensures Signed(top + bottom) == high * TWO32 + low % TWO32
  {
    hide Unsigned, Pow256;
    Pow256Values();
    SignedConcat(top, bottom);
    TopBit(top);
  }

  /** The nanoseconds of a timestamp in the fewest bytes, or nothing if the nanoseconds are out of range. */
  method CreateTimestamp(sec: int, nsec: int) returns (ok: bool, bytes: seq<Byte>)
    requires -TWO63 <= sec < TWO63
    ensures ok <==> 0 <= nsec < BILLION
    ensures ok ==> 1 <= |bytes| <= 13 && bytes[0] == TYPE_TIMESTAMP == 9
    ensures ok ==> Signed(bytes[1..]) == sec * BILLION + nsec && Minimal(bytes[1..])
  {
    hide Signed, Unsigned, Pow256;
    if nsec < 0 || nsec >= BILLION {
      return false, [];
    }
    var buf := new Byte[13];
    Pow256Values();
    var low := (sec % TWO32) * BILLION + nsec;
    assert low < TWO64;
    var start := StoreBytes(low, 4, buf, 13);
    ghost var bottom := buf[9..13];
    var high := (sec / TWO32) * BILLION + low / TWO32;
    start := StoreBytes(high, 8, buf, 9);
    assert buf[9..13] == bottom by { assert buf[9..] == bottom; }
    assert buf[1..13] == buf[1..9] + buf[9..13];
    TwelveBytes(buf[1..9], bottom, high, low);
    InHalves(sec, nsec, low, high);
    assert buf[1..] == buf[1..13];
    start := TrimSign(buf, start);
    ghost var payload := buf[start..];
    start := start - 1;
    buf[start] := TYPE_TIMESTAMP;
    bytes := buf[start..];
    assert bytes[1..] == payload;
    ok := true;
  }

  lemma InHalves(sec: int, nsec: int, low: int, high: int)
    requires low == (sec % TWO32) * BILLION + nsec && high == (sec / TWO32) * BILLION + low / TWO32
    ensures high * TWO32 + low % TWO32 == sec * BILLION + nsec
  {
  }

  /** Moves the start past bytes that do not contribute to the value. */
  method TrimSign(buf: array<Byte>, start0: nat) returns (start: nat)
    requires 1 <= start0 < buf.Length
    ensures start0 <= start <= buf.Length
    ensures Signed(buf[start..]) == Signed(buf[start0..]) && Minimal(buf[start..])
  {
    hide Signed;
    start := start0;
    while buf.Length - start >= 2 && buf[start] == 0 && buf[start + 1] < 0x80
      invariant start0 <= start < buf.Length
      invariant Signed(buf[start..]) == Signed(buf[start0..])
    {
      DropRedundant(buf[start..]);
      assert buf[start..][1..] == buf[start + 1..];
      start := start + 1;
    }
    while buf.Length - start >= 2 && buf[start] == 0xFF && buf[start + 1] >= 0x80
      invariant start0 <= start < buf.Length
      invariant Signed(buf[start..]) == Signed(buf[start0..])
      invariant buf.Length - start >= 2 && buf[start] == 0 ==> buf[start + 1] >= 0x80
    {
      DropRedundant(buf[start..]);
      assert buf[start..][1..] == buf[start + 1..];
      start := start + 1;
    }
    if buf.Length - start == 1 && buf[start] == 0 {
      DropRedundant(buf[start..]);
      assert buf[start..][1..] == buf[start + 1..];
      start := start + 1;
    }
    assert buf.Length - start >= 2 ==> buf[start..][0] == buf[start] && buf[start..][1] == buf[start + 1];
    assert buf.Length - start == 1 ==> buf[start..][0] == buf[start];
  }

  // ---------- Getting ----------

  datatype Outcome = Ok(sec: int, nsec: int) | Invalid | OutOfRange

  /** What the getter should return for a timestamp of so many nanoseconds. */
  ghost function Split(nanoseconds: int): Outcome {
    var sec := nanoseconds / BILLION;
    if -TWO63 <= sec < TWO63 then Ok(sec, nanoseconds % BILLION) else OutOfRange
  }

  /** A 64-bit signed number that the given one wraps around to. */
  function Wrap(x: int): int {
    var y := x % TWO64;
    if y >= TWO63 then y - TWO64 else y
  }

  /** Twelve bytes of payload, padded with the sign. */
  method Pad(s: seq<Byte>) returns (payload: array<Byte>)
    requires |s| <= 12
    ensures fresh(payload) && payload.Length == 12 && Signed(payload[..]) == Signed(s)
  {
    hide Signed;
    payload := new Byte[12];
    var n := 12 - |s|;
    var i := 0;
    while i < |s|
      invariant 0 <= i <= |s|
      invariant payload[n..n + i] == s[..i]
    {
      payload[n + i] := s[i];
      assert payload[n..n + i + 1] == payload[n..n + i] + [s[i]];
      assert s[..i + 1] == s[..i] + [s[i]];
      i := i + 1;
    }
    assert payload[n..] == payload[n..n + |s|] == s;
    var pad: Byte := if |s| > 0 && s[0] >= 0x80 then 0xFF else 0;
    i := 0;
    while i < n
      invariant 0 <= i <= n
      invariant payload[n..] == s
      invariant forall j :: 0 <= j < i ==> payload[j] == pad
    {
      payload[i] := pad;
      i := i + 1;
    }
    Padded(payload[..], s, n, pad);
  }

  /** Repeating the sign in front does not change the value. */
  lemma {:induction false} Padded(t: seq<Byte>, s: seq<Byte>, n: nat, pad: Byte)
    requires |t| == n + |s| && t[n..] == s && forall j :: 0 <= j < n ==> t[j] == pad
    requires pad == if |s| > 0 && s[0] >= 0x80 then 0xFF else 0
    ensures Signed(t) == Signed(s)
  {
    if n > 0 {
      assert t[1..][n - 1..] == s;
      Padded(t[1..], s, n - 1, pad);
      hide Signed;
      if |t| > 1 {
        assert t[1] == if n > 1 then pad else s[0];
      }
      DropRedundant(t);
    } else {
      assert t == s;
    }
  }

  /** The top 64 bits, as a signed number, and the bottom 32 bits. */
  method TakeHalves(payload: array<Byte>) returns (high: int, low: int)
    requires payload.Length == 12
    ensures -TWO63 <= high < TWO63 && 0 <= low < TWO32 && high * TWO32 + low == Signed(payload[..])
  {
    hide Signed, Unsigned, Pow256;
    NoBytes();
    Pow256Values();
    high := 0;
    var i := 0;
    assert payload[..0] == [];
    while i < 8
      invariant 0 <= i <= 8 && high == Wrap(Unsigned(payload[..i]))
    {
      assert payload[..i + 1] == payload[..i] + [payload[i]];
      UnsignedAppend(payload[..i], payload[i]);
      WrapStep(Unsigned(payload[..i]), payload[i]);
      high := Wrap(high * 256 + payload[i]);
      i := i + 1;
    }
    low := 0;
    i := 8;
    assert payload[8..8] == [];
    while i < 12
      invariant 8 <= i <= 12 && low == Unsigned(payload[8..i])
    {
      assert payload[8..i + 1] == payload[8..i] + [payload[i]];
      UnsignedAppend(payload[8..i], payload[i]);
      low := low * 256 + payload[i];
      i := i + 1;
    }
    assert payload[..] == payload[..8] + payload[8..12];
    UnsignedBound(payload[..8]);
    UnsignedBound(payload[8..12]);
    TwelveBytes(payload[..8], payload[8..12], high, low);
  }

  lemma WrapStep(x: int, c: int)
    ensures Wrap(Wrap(x) * 256 + c) == Wrap(256 * x + c)
  {
  }

  /** What it does return: longer payloads are out of range without being looked at. */
  ghost function Got(bytes: seq<Byte>): Outcome {
    if |bytes| == 0 || bytes[0] != TYPE_TIMESTAMP then Invalid
    else if |bytes| > 13 then OutOfRange
    else Split(Signed(bytes[1..]))
  }

  /** Splits the nanoseconds with a division of the top 64 bits and one of the rest. */
  method GetTimestamp(bytes: seq<Byte>) returns (r: Outcome)
    ensures r == Got(bytes)
  {
    hide Signed;
    if |bytes| == 0 || bytes[0] != TYPE_TIMESTAMP {
      return Invalid;
    }
    var buf := bytes[1..];
    if |buf| > 12 {
      return OutOfRange;
    }
    var payload := Pad(buf);
    var high, low := TakeHalves(payload);
    r := DivideTwice(high, low);
  }

  /** The quotient towards zero and its remainder, as C divides. */
  function Truncated(x: int, d: int): (r: (int, int))
    requires d > 0
    ensures x == r.0 * d + r.1 && -d < r.1 < d && (x >= 0 ==> r.1 >= 0) && (x <= 0 ==> r.1 <= 0)
  {
    if x >= 0 then (x / d, x % d) else (-(-x / d), -(-x % d))
  }

  method DivideTwice(high0: int, low0: int) returns (r: Outcome)
    requires -TWO63 <= high0 < TWO63 && 0 <= low0 < TWO32
    ensures r == Split(high0 * TWO32 + low0)
  {
    var high, low := high0, low0;
    var (quotient, highRem) := Truncated(high, BILLION);
    high := quotient;
    if highRem < 0 {
      highRem := highRem + BILLION;
      high := high - 1;
    }
    Stages(high0, low0, high, highRem);
    if high < -TWO31 || high > TWO31 - 1 {
      return OutOfRange;
    }
    low := low + highRem * TWO32;
    assert low < TWO64;
    var nsec := low % BILLION;
    low := low / BILLION;
    if low > TWO63 - 1 || high * TWO32 > TWO63 - 1 - low {
      return OutOfRange;
    }
    r := Ok(low + high * TWO32, nsec);
  }

  /** Two floor divisions, the remainder of the first carried into the second, are one. */
  lemma Stages(high0: int, low0: int, high: int, rem: int)
    requires high0 == high * BILLION + rem && 0 <= rem < BILLION && 0 <= low0 < TWO32
    ensures var low := low0 + rem * TWO32; var x := high0 * TWO32 + low0;
      && x / BILLION == high * TWO32 + low / BILLION && x % BILLION == low % BILLION
      && 0 <= low / BILLION < TWO32
  {
    var low := low0 + rem * TWO32;
    assert high0 * TWO32 + low0 == BILLION * (high * TWO32 + low / BILLION) + low % BILLION;
    QuotientIs(high0 * TWO32 + low0, BILLION, high * TWO32 + low / BILLION, low % BILLION);
  }

  /** Among the longer payloads only those are misread whose value is in range after all. */
  lemma ReadAsSplit(bytes: seq<Byte>)
    requires |bytes| > 0 && bytes[0] == TYPE_TIMESTAMP
    ensures Got(bytes) == Split(Signed(bytes[1..])) <==>
      |bytes| <= 13 || !(-TWO63 * BILLION <= Signed(bytes[1..]) < TWO63 * BILLION)
    ensures Minimal(bytes[1..]) ==> Got(bytes) == Split(Signed(bytes[1..]))
  {
    hide Signed;
    var s := bytes[1..];
    InSeconds(Signed(s));
    if Minimal(s) && |s| > 12 {
      MinimalIsLarge(s);
      Pow256Values();
      Pow256Add(4, 8);
      Pow256Grows(12, |s| - 1);
    }
  }

  lemma InSeconds(nanoseconds: int)
    ensures -TWO63 <= nanoseconds / BILLION < TWO63 <==> -TWO63 * BILLION <= nanoseconds < TWO63 * BILLION
  {
  }

  /** Zero in thirteen bytes is one of those. */
  method LongZero() returns (r: Outcome)
    ensures r == OutOfRange && Split(Signed(seq(13, _ => 0))) == Ok(0, 0)
  {
    hide Signed;
    var zeros: seq<Byte> := seq(13, _ => 0);
    r := GetTimestamp([TYPE_TIMESTAMP] + zeros);
    Padded(zeros, [], 13, 0);
    assert Signed([]) == 0 by { NothingIsZero(); }
  }

  lemma NothingIsZero()
    ensures Signed([]) == 0
  {
  }

  /** After the first range check has passed the second one never fires. */
  lemma SecondCheckIdle(high0: int, low0: int, high: int, rem: int)
    requires high0 == high * BILLION + rem && 0 <= rem < BILLION && 0 <= low0 < TWO32
    requires -TWO31 <= high <= TWO31 - 1
    ensures var low := (low0 + rem * TWO32) / BILLION; low <= TWO63 - 1 && high * TWO32 <= TWO63 - 1 - low
  {
    Stages(high0, low0, high, rem);
  }

  // ---------- The round trip ----------

  /** Every timestamp survives being created and read again. */
  method RoundTrip(sec: int, nsec: int) returns (r: Outcome)
    requires -TWO63 <= sec < TWO63 && 0 <= nsec < BILLION
    ensures r == Ok(sec, nsec)
  {
    hide Signed;
    var ok, bytes := CreateTimestamp(sec, nsec);
    r := GetTimestamp(bytes);
    QuotientIs(sec * BILLION + nsec, BILLION, sec, nsec);
  }
}
