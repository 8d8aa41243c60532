/**
  Validation of strings as UTF-8 against RFC 3629: its grammar (section 4) and
  its encoding of scalar values (section 3).
 */
module Utf8 {
  import opened Subfield

  // ---------- Section 4: the grammar ----------

  ghost predicate Tail(c: Byte) {
    0x80 <= c <= 0xBF
  }

  /** The length of the character at the start of s, or zero if none of the grammar's forms matches. */
  ghost function CharLength(s: seq<Byte>): (n: nat)
    ensures n <= 4 && n <= |s|
  {
    if |s| >= 1 && s[0] <= 0x7F then 1
    else if |s| >= 2 && 0xC2 <= s[0] <= 0xDF && Tail(s[1]) then 2
    else if |s| >= 3 && Form3(s[0], s[1]) && Tail(s[2]) then 3
    else if |s| >= 4 && Form4(s[0], s[1]) && Tail(s[2]) && Tail(s[3]) then 4
    else 0
  }

  ghost predicate Form3(a: Byte, b: Byte) {
    || (a == 0xE0 && 0xA0 <= b <= 0xBF)
    || (0xE1 <= a <= 0xEC && Tail(b))
    || (a == 0xED && 0x80 <= b <= 0x9F)
    || (0xEE <= a <= 0xEF && Tail(b))
  }

  ghost predicate Form4(a: Byte, b: Byte) {
    || (a == 0xF0 && 0x90 <= b <= 0xBF)
    || (0xF1 <= a <= 0xF3 && Tail(b))
    || (a == 0xF4 && 0x80 <= b <= 0x8F)
  }

  /** A string of zero or more characters. */
  ghost predicate WellFormed(s: seq<Byte>) {
    |s| == 0 || (CharLength(s) > 0 && WellFormed(s[CharLength(s)..]))
  }

  // ---------- Section 3: the encoding ----------

  ghost predicate Scalar(cp: int) {
    0 <= cp <= 0x10FFFF && !(0xD800 <= cp <= 0xDFFF)
  }

  ghost function EncodeScalar(cp: int): seq<Byte>
    requires Scalar(cp)
  {
    if cp <= 0x7F then [cp]
    else if cp <= 0x7FF then [0xC0 + cp / 0x40, 0x80 + cp % 0x40]
    else if cp <= 0xFFFF then [0xE0 + cp / 0x1000, 0x80 + (cp / 0x40) % 0x40, 0x80 + cp % 0x40]
    else [0xF0 + cp / 0x4_0000, 0x80 + (cp / 0x1000) % 0x40, 0x80 + (cp / 0x40) % 0x40, 0x80 + cp % 0x40]
  }

  /** The examples of section 7 of RFC 3629, one of each length. */
  lemma SpelledOut()
    ensures EncodeScalar(0x41) == [0x41] && EncodeScalar(0x391) == [0xCE, 0x91]
    ensures EncodeScalar(0x65E5) == [0xE6, 0x97, 0xA5] && EncodeScalar(0x233B4) == [0xF0, 0xA3, 0x8E, 0xB4]
  {
  }

  /** The code point that a lead byte and continuation bytes make up. */
  ghost function Decode(s: seq<Byte>, n: nat): int
    requires 1 <= n <= 4 && n <= |s|
  {
    if n == 1 then s[0] as int
    else if n == 2 then Bits(s[0] as int - 0xC0, s[1])
    else if n == 3 then Bits(Bits(s[0] as int - 0xE0, s[1]), s[2])
    else Bits(Bits(Bits(s[0] as int - 0xF0, s[1]), s[2]), s[3])
  }

  /** Six more bits from a continuation byte. */
  ghost function Bits(x: int, c: Byte): int {
    x * 0x40 + (c as int - 0x80)
  }

  lemma BitsApart(x: int, c: Byte)
    requires Tail(c)
    ensures Bits(x, c) / 0x40 == x && Bits(x, c) % 0x40 == c as int - 0x80
  {
  }

  /** Every character of the grammar is the encoding of one scalar value. */
  lemma CharIsScalar(s: seq<Byte>)
    requires CharLength(s) > 0
    ensures var n := CharLength(s); Scalar(Decode(s, n)) && s[..n] == EncodeScalar(Decode(s, n))
  {
    var n := CharLength(s);
    if n == 2 {
      BitsApart(s[0] as int - 0xC0, s[1]);
    } else if n == 3 {
      ThreeBytes(s);
    } else if n == 4 {
      FourBytes(s);
    }
  }

  lemma ThreeBytes(s: seq<Byte>)
    requires CharLength(s) == 3
    ensures Scalar(Decode(s, 3)) && s[..3] == EncodeScalar(Decode(s, 3))
  {
    var x := s[0] as int - 0xE0;
    var y := Bits(x, s[1]);
    var cp := Bits(y, s[2]);
    BitsApart(x, s[1]);
    BitsApart(y, s[2]);
    Quotients(cp);
    assert cp / 0x1000 == x && cp / 0x40 == y;
    assert 0x7FF < cp <= 0xFFFF;
    assert s[..3] == [s[0], s[1], s[2]];
  }

  lemma FourBytes(s: seq<Byte>)
    requires CharLength(s) == 4
    ensures Scalar(Decode(s, 4)) && s[..4] == EncodeScalar(Decode(s, 4))
  {
    var x := s[0] as int - 0xF0;
    var y := Bits(x, s[1]);
    var z := Bits(y, s[2]);
    var cp := Bits(z, s[3]);
    BitsApart(x, s[1]);
    BitsApart(y, s[2]);
    BitsApart(z, s[3]);
    Quotients(cp);
    assert cp / 0x4_0000 == x && cp / 0x1000 == y && cp / 0x40 == z;
    assert 0xFFFF < cp <= 0x10FFFF;
    assert s[..4] == [s[0], s[1], s[2], s[3]];
  }

  lemma Quotients(cp: int)
    ensures cp / 0x1000 == (cp / 0x40) / 0x40 && cp / 0x4_0000 == ((cp / 0x40) / 0x40) / 0x40
  {
  }

  /** The encoding of every scalar value is a character of the grammar, whatever follows it. */
  lemma ScalarIsChar(cp: int, rest: seq<Byte>)
    requires Scalar(cp)
    ensures CharLength(EncodeScalar(cp) + rest) == |EncodeScalar(cp)|
  {
    var s := EncodeScalar(cp) + rest;
    if 0x7FF < cp <= 0xFFFF {
      assert s[0] == 0xE0 + cp / 0x1000 && s[1] == 0x80 + (cp / 0x40) % 0x40;
    } else if cp > 0xFFFF {
      assert s[0] == 0xF0 + cp / 0x4_0000 && s[1] == 0x80 + (cp / 0x1000) % 0x40;
    }
  }

  ghost function EncodeAll(cps: seq<int>): seq<Byte>
    requires forall i :: 0 <= i < |cps| ==> Scalar(cps[i])
  {
    if |cps| == 0 then [] else EncodeScalar(cps[0]) + EncodeAll(cps[1..])
  }

  lemma {:induction false} EncodedIsWellFormed(cps: seq<int>)
    requires forall i :: 0 <= i < |cps| ==> Scalar(cps[i])
    ensures WellFormed(EncodeAll(cps))
  {
    if |cps| > 0 {
      EncodedIsWellFormed(cps[1..]);
      var e, r := EncodeScalar(cps[0]), EncodeAll(cps[1..]);
      ScalarIsChar(cps[0], r);
      assert (e + r)[|e|..] == r;
    }
  }

  /** A well-formed string is the encoding of a sequence of scalar values. */
  lemma {:induction false} WellFormedIsEncoded(s: seq<Byte>) returns (cps: seq<int>)
    requires WellFormed(s)
    ensures (forall i :: 0 <= i < |cps| ==> Scalar(cps[i])) && s == EncodeAll(cps)
  {
    if |s| == 0 {
      cps := [];
    } else {
      var n := CharLength(s);
      CharIsScalar(s);
      var cps' := WellFormedIsEncoded(s[n..]);
      cps := [Decode(s, n)] + cps';
      assert cps[1..] == cps' && s == s[..n] + s[n..];
    }
  }

  // ---------- The validator ----------

  /** n continuation bytes after the lead byte have been consumed; b is the lead byte shifted by as many bits. */
  ghost predicate Consumed(s: seq<Byte>, n: int, b: int, codepoint: int) {
    && 0 <= n <= 3 && n < |s| && 0x80 <= b < 0x100
    && (n >= 1 ==> Tail(s[1])) && (n >= 2 ==> Tail(s[2])) && (n >= 3 ==> Tail(s[3]))
    && b == Shifted(s[0], n) && codepoint == Gathered(s, n)
  }

  ghost function Shifted(lead: int, n: int): int {
    if n == 0 then lead
    else if n == 1 then 2 * lead - 0x100
    else if n == 2 then 4 * lead - 0x300
    else 8 * lead - 0x700
  }

  /** Lead byte and continuation bytes, marks included, six bits apart. */
  ghost function Gathered(s: seq<Byte>, n: int): int
    requires 0 <= n <= 3 && n < |s|
  {
    var lead := s[0] as int;
    if n == 0 then lead
    else if n == 1 then lead * 0x40 + (s[1] as int - 0x80)
    else if n == 2 then lead * 0x1000 + (s[1] as int - 0x80) * 0x40 + (s[2] as int - 0x80)
    else lead * 0x4_0000 + (s[1] as int - 0x80) * 0x1000 + (s[2] as int - 0x80) * 0x40 + (s[3] as int - 0x80)
  }

  lemma ConsumeFirst(s: seq<Byte>)
    requires |s| > 0 && s[0] >= 0x80
    ensures Consumed(s, 0, s[0], s[0])
  {
  }

  /** A continuation byte does not start a character. */
  lemma NoLead(s: seq<Byte>, b: int, codepoint: int)
    requires Consumed(s, 0, b, codepoint) && (b * 2) % 256 < 0x80
    ensures CharLength(s) == 0
  {
    assert (b * 2) % 256 == 2 * b - 0x100;
  }

  /** One more continuation byte. */
  lemma ConsumeNext(s: seq<Byte>, n: int, b: int, codepoint: int)
    requires Consumed(s, n, b, codepoint) && (b * 2) % 256 >= 0x80 && n + 1 < |s| && n < 3 && Tail(s[n + 1])
    ensures Consumed(s, n + 1, (b * 2) % 256, codepoint * 0x40 + (s[n + 1] as int) % 0x40)
  {
    assert (b * 2) % 256 == 2 * b - 0x100;
    assert (s[n + 1] as int) % 0x40 == s[n + 1] as int - 0x80;
  }

  /** Without that byte no form of the grammar matches. */
  lemma NoNext(s: seq<Byte>, n: int, b: int, codepoint: int)
    requires Consumed(s, n, b, codepoint) && (b * 2) % 256 >= 0x80
    requires n + 1 == |s| || n == 3 || !Tail(s[n + 1])
    ensures CharLength(s) == 0
  {
    assert (b * 2) % 256 == 2 * b - 0x100;
  }

  /** The value below which n continuation bytes would be too many, and the bits they can hold. */
  function Mask(n: int): int {
    if n == 0 then 0x7F else if n == 1 then 0x7FF else if n == 2 then 0xFFFF else 0x1F_FFFF
  }

  /** Masking leaves the code point without the marks of the lead byte. */
  lemma Masked(s: seq<Byte>, n: int, b: int, codepoint: int)
    requires Consumed(s, n, b, codepoint) && b < 0xC0 && 1 <= n
    ensures codepoint % (Mask(n) + 1) == Decode(s, n + 1)
  {
    var lead := s[0] as int;
    if n == 1 {
      assert codepoint == Decode(s, 2) + 6 * 0x800;
    } else if n == 2 {
      assert codepoint == Decode(s, 3) + 14 * 0x1_0000;
    } else {
      assert codepoint == Decode(s, 4) + 30 * 0x20_0000;
    }
  }

  /** The checks on the code point are those of the grammar on the first two bytes. */
  lemma Checked(s: seq<Byte>, n: int, b: int, codepoint: int)
    requires Consumed(s, n, b, codepoint) && (b * 2) % 256 < 0x80 && 1 <= n
    ensures var cp := codepoint % (Mask(n) + 1);
      (cp > Mask(n - 1) && !(0xD800 <= cp <= 0xDFFF) && cp <= 0x10FFFF) <==> CharLength(s) == n + 1
    ensures CharLength(s) == n + 1 || CharLength(s) == 0
  {
    assert (b * 2) % 256 == 2 * b - 0x100;
    Masked(s, n, b, codepoint);
  }

  /** One character that does not start with an ASCII byte; consumes n + 1 bytes. */
  method ValidateChar(s: seq<Byte>) returns (ok: bool, n: nat)
    requires |s| > 0 && s[0] >= 0x80
    ensures ok <==> CharLength(s) > 0
    ensures ok ==> CharLength(s) == n + 1
  {
    hide CharLength, Decode, Gathered, Shifted;
    var b: int := s[0];
    var codepoint: int := s[0];
    n := 0;
    ghost var unshifted := b;
    ConsumeFirst(s);
    b := (b * 2) % 256;
    while b >= 0x80
      invariant 0 <= n <= 3 && n < |s|
      invariant Consumed(s, n, unshifted, codepoint) && b == (unshifted * 2) % 256
      decreases 4 - n
    {
      if n + 1 == |s| || n + 1 > 3 || !(0x80 <= s[n + 1] < 0xC0) {
        NoNext(s, n, unshifted, codepoint);
        return false, 0;
      }
      ConsumeNext(s, n, unshifted, codepoint);
      n := n + 1;
      codepoint := codepoint * 0x40 + (s[n] as int) % 0x40;
      unshifted := b;
      b := (b * 2) % 256;
    }
    if n == 0 {
      NoLead(s, unshifted, codepoint);
      return false, 0;
    }
    Checked(s, n, unshifted, codepoint);
    codepoint := codepoint % (Mask(n) + 1);
    ok := !(codepoint <= Mask(n - 1) || (codepoint >= 0xD800 && codepoint <= 0xDFFF) || codepoint > 0x10FFFF);
  }

  /** Accepts exactly the well-formed strings. */
  method ValidateString(s: seq<Byte>) returns (ok: bool)
    ensures ok <==> WellFormed(s)
  {
    var i := 0;
    assert s[0..] == s;
    while i < |s|
      invariant 0 <= i <= |s| && (WellFormed(s) <==> WellFormed(s[i..]))
    {
      var rest := s[i..];
      if rest[0] < 0x80 {
        assert rest[1..] == s[i + 1..];
        i := i + 1;
      } else {
        var good, n := ValidateChar(rest);
        if !good {
          return false;
        }
        assert rest[n + 1..] == s[i + n + 1..];
        i := i + n + 1;
      }
    }
    ok := true;
  }
}
