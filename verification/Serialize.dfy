/**
  Serialising in place: a recursive writer that advances an output cursor and
  appends to a table of descriptors.
 */
module Serialize {
  import opened Options
  import opened Subfield
  import opened Argdata

  /** s with e written over it at pos. */
  ghost function Overwrite(s: seq<Byte>, pos: nat, e: seq<Byte>): (r: seq<Byte>)
    requires pos + |e| <= |s|
    ensures |r| == |s|
  {
    s[..pos] + e + s[pos + |e|..]
  }

  /** Writing on from where the last write stopped. */
  lemma OverwriteOn(s: seq<Byte>, pos: nat, a: seq<Byte>, b: seq<Byte>)
    requires pos + |a| + |b| <= |s|
    ensures Overwrite(Overwrite(s, pos, a), pos + |a|, b) == Overwrite(s, pos, a + b)
  {
  }

  lemma OverwriteNothing(s: seq<Byte>, pos: nat)
    requires pos <= |s|
    ensures Overwrite(s, pos, []) == s
  {
  }

  method WriteBytes(s: seq<Byte>, buf: array<Byte>, pos: nat)
    requires pos + |s| <= buf.Length
    modifies buf
    ensures buf[..] == Overwrite(old(buf[..]), pos, s)
  {
    ghost var before := buf[..];
    var i := 0;
    while i < |s|
      invariant 0 <= i <= |s|
      invariant buf[..] == Overwrite(before, pos, s[..i])
    {
      buf[pos + i] := s[i];
      assert s[..i + 1] == s[..i] + [s[i]];
      i := i + 1;
    }
    assert s[..|s|] == s;
  }

  /** The place of a descriptor in the table, appended if it is not there. */
  method MapFd(fd: CInt, fds: array<CInt>, fdslen0: nat) returns (index: nat, fdslen: nat)
    requires fdslen0 < fds.Length
    modifies fds
    ensures fdslen <= fds.Length && (index, fds[..fdslen]) == Tabled(fd, old(fds[..fdslen0]))
  {
    ghost var table := fds[..fdslen0];
    var i := 0;
    while i < fdslen0
      invariant 0 <= i <= fdslen0 && fd !in table[..i]
      invariant fds[..fdslen0] == table
    {
      if fds[i] == fd {
        assert table[i] == fd;
        IndexIsFirst(fd, table, i);
        return i, fdslen0;
      }
      assert table[..i + 1] == table[..i] + [table[i]];
      i := i + 1;
    }
    assert table[..fdslen0] == table;
    fds[fdslen0] := fd;
    index, fdslen := fdslen0, fdslen0 + 1;
    assert fds[..fdslen] == table + [fd];
  }

  lemma IndexIsFirst(fd: CInt, table: seq<CInt>, i: nat)
    requires i < |table| && table[i] == fd && fd !in table[..i]
    ensures IndexOf(fd, table) == i
  {
    assert fd !in table[..IndexOf(fd, table)];
  }

  /** A number as four bytes, the most significant first. */
  method WriteFd(value: nat, buf: array<Byte>, pos: nat)
    requires pos + 4 <= buf.Length
    modifies buf
    ensures buf[..] == Overwrite(old(buf[..]), pos, BigEndian(value))
  {
    buf[pos] := (value / 0x100_0000) % 256;
    buf[pos + 1] := (value / 0x1_0000) % 256;
    buf[pos + 2] := (value / 256) % 256;
    buf[pos + 3] := value % 256;
  }

  /** One descriptor: its place in the table, or the mark of an invalid one. */
  method WriteDescriptor(fd: CInt, buf: array<Byte>, pos: nat, fds: array<CInt>, fdslen0: nat) returns (fdslen: nat)
    requires pos + 4 <= buf.Length && fdslen0 < fds.Length
    modifies buf, fds
    ensures var (e, table) := EncodeFd(fd, old(fds[..fdslen0]));
      buf[..] == Overwrite(old(buf[..]), pos, e) && fdslen <= fds.Length && fds[..fdslen] == table
  {
    fdslen := fdslen0;
    if fd < 0 {
      WriteFd(INVALID, buf, pos);
    } else {
      var index;
      index, fdslen := MapFd(fd, fds, fdslen0);
      WriteFd(index, buf, pos);
    }
  }

  /** A length at the cursor. */
  method WriteLength(length: nat, buf: array<Byte>, pos: nat) returns (next: nat)
    requires length < SIZE_LIMIT && pos + |Spelling(length)| <= buf.Length
    modifies buf
    ensures next == pos + |Spelling(length)| && buf[..] == Overwrite(old(buf[..]), pos, Spelling(length))
  {
    ghost var before := buf[..];
    next := EncodeSubfieldLength(length, buf, pos);
    assert buf[..] == buf[..pos] + buf[pos..next] + buf[next..];
    assert before[..pos] == old(buf[..pos]) && before[next..] == old(buf[next..]);
  }

  // ---------- Buffers ----------

  /** One field of a buffer: its length, then the field re-encoded. */
  method WriteField(x: seq<Byte>, convert: nat -> CInt, buf: array<Byte>, pos: nat, fds: array<CInt>, fdslen0: nat)
      returns (fdslen: nat)
    requires |x| < SIZE_LIMIT && pos + |Spelling(|x|)| + |x| <= buf.Length && fdslen0 + CountBuffer(x) <= fds.Length
    requires Good(fds[..fdslen0])
    modifies buf, fds
    ensures var (e, table) := EncodeBuffer(x, convert, old(fds[..fdslen0]));
      && |e| == |x| && fdslen <= fds.Length && fds[..fdslen] == table
      && buf[..] == Overwrite(old(buf[..]), pos, Spelling(|x|) + e)
    decreases |x|, 2
  {
    hide EncodeBuffer, CountBuffer, Good, Spelling, Overwrite;
    ghost var before := buf[..];
    var next := WriteLength(|x|, buf, pos);
    fdslen := WriteBuffer(x, convert, buf, next, fds, fdslen0);
    OverwriteOn(before, pos, Spelling(|x|), EncodeBuffer(x, convert, old(fds[..fdslen0])).0);
  }

  /** Re-encodes the fields of a buffer one by one and copies whatever does not parse. */
  method WriteFields(s: seq<Byte>, convert: nat -> CInt, buf: array<Byte>, pos: nat, fds: array<CInt>, fdslen0: nat)
      returns (fdslen: nat)
    requires pos + |s| <= buf.Length && |s| < SIZE_LIMIT && fdslen0 + CountFields(s) <= fds.Length
    requires Good(fds[..fdslen0])
    modifies buf, fds
    ensures var (e, table) := EncodeFields(s, convert, old(fds[..fdslen0]));
      |e| == |s| && buf[..] == Overwrite(old(buf[..]), pos, e) && fdslen <= fds.Length && fds[..fdslen] == table
    decreases |s|, 0
  {
    hide EncodeFields, EncodeBuffer, CountFields, CountBuffer, Good, ParseLength, Spelling, Overwrite;
    ghost var before, table0 := buf[..], fds[..fdslen0];
    EncodeFieldsKeeps(s, convert, table0);
    ghost var (all, final) := EncodeFields(s, convert, table0);
    fdslen := fdslen0;
    var i := 0;
    ghost var done := [];
    OverwriteNothing(before, pos);
    assert s[0..] == s;
    while true
      invariant 0 <= i <= |s| && |done| == i && fdslen <= fds.Length
      invariant buf[..] == Overwrite(before, pos, done)
      invariant Good(fds[..fdslen]) && fdslen + CountFields(s[i..]) <= fds.Length
      invariant var (e, table) := EncodeFields(s[i..], convert, fds[..fdslen]); done + e == all && table == final
      decreases |s| - i
    {
      ghost var rest, table := s[i..], fds[..fdslen];
      var ok, start, length := ParseSubfield(s[i..]);
      if !ok {
        NoMoreFields(rest, convert, table);
        break;
      }
      ghost var x := rest[start..start + length];
      FirstField(rest, convert, table, length, start);
      EncodeBufferKeeps(x, convert, table);
      ghost var e := EncodeBuffer(x, convert, table).0;
      ghost var r := EncodeFields(rest[start + length..], convert, EncodeBuffer(x, convert, table).1).0;
      SliceOfRest(s, i, start, start + length);
      fdslen := WriteField(s[i + start..i + start + length], convert, buf, pos + i, fds, fdslen);
      OverwriteOn(before, pos, done, Spelling(length) + e);
      assert done + (Spelling(length) + e + r) == (done + (Spelling(length) + e)) + r;
      done := done + (Spelling(length) + e);
      i := i + start + length;
    }
    WriteBytes(s[i..], buf, pos + i);
    OverwriteOn(before, pos, done, s[i..]);
  }

  lemma SliceOfRest(s: seq<Byte>, i: nat, a: nat, b: nat)
    requires a <= b && i + b <= |s|
    ensures s[i..][a..b] == s[i + a..i + b] && s[i..][b..] == s[i + b..]
  {
  }

  lemma NoMoreFields(s: seq<Byte>, convert: nat -> CInt, table: seq<CInt>)
    requires ParseLength(s).None?
    ensures EncodeFields(s, convert, table) == (s, table)
  {
  }

  lemma FirstField(s: seq<Byte>, convert: nat -> CInt, table: seq<CInt>, n: nat, k: nat)
    requires ParseLength(s) == Some((n, k)) && |s| < SIZE_LIMIT
    ensures k >= 1 && k == |Spelling(n)| && n < SIZE_LIMIT && k + n <= |s|
    ensures CountFields(s) == CountBuffer(s[k..k + n]) + CountFields(s[k + n..])
    ensures var (e, table') := EncodeBuffer(s[k..k + n], convert, table);
      var (r, table'') := EncodeFields(s[k + n..], convert, table');
      EncodeFields(s, convert, table) == (Spelling(n) + e + r, table'')
  {
    ParseIffSpelled(s, n, k);
  }

  method WriteBuffer(bytes: seq<Byte>, convert: nat -> CInt, buf: array<Byte>, pos: nat, fds: array<CInt>, fdslen0: nat)
      returns (fdslen: nat)
    requires pos + |bytes| <= buf.Length && |bytes| < SIZE_LIMIT && fdslen0 + CountBuffer(bytes) <= fds.Length
    requires Good(fds[..fdslen0])
    modifies buf, fds
    ensures var (e, table) := EncodeBuffer(bytes, convert, old(fds[..fdslen0]));
      |e| == |bytes| && buf[..] == Overwrite(old(buf[..]), pos, e) && fdslen <= fds.Length && fds[..fdslen] == table
    decreases |bytes|, 1
  {
    hide EncodeFields, CountFields, Good, Overwrite;
    ghost var before := buf[..];
    EncodeBufferKeeps(bytes, convert, fds[..fdslen0]);
    fdslen := fdslen0;
    OverwriteNothing(before, pos);
    if |bytes| == 0 {
      return;
    }
    buf[pos] := bytes[0];
    OneByte(before, pos, bytes[0]);
    if bytes[0] == TYPE_MAP || bytes[0] == TYPE_SEQ {
      EncodeFieldsKeeps(bytes[1..], convert, fds[..fdslen0]);
      ghost var e := EncodeFields(bytes[1..], convert, fds[..fdslen0]).0;
      fdslen := WriteFields(bytes[1..], convert, buf, pos + 1, fds, fdslen);
      OverwriteOn(before, pos, [bytes[0]], e);
    } else if bytes[0] == TYPE_FD && |bytes| == 5 {
      var fd := convert(FromBigEndian(bytes[1..]));
      ghost var e := EncodeFd(fd, fds[..fdslen0]).0;
      fdslen := WriteDescriptor(fd, buf, pos + 1, fds, fdslen);
      OverwriteOn(before, pos, [bytes[0]], e);
    } else {
      WriteBytes(bytes[1..], buf, pos + 1);
      OverwriteOn(before, pos, [bytes[0]], bytes[1..]);
      assert bytes == [bytes[0]] + bytes[1..];
    }
  }

  // ---------- Trees ----------

  method WriteNode(ad: Node, buf: array<Byte>, pos: nat, fds: array<CInt>, fdslen0: nat) returns (fdslen: nat)
    requires Length(ad) < SIZE_LIMIT && pos + Length(ad) <= buf.Length && fdslen0 + CountFds(ad) <= fds.Length
    requires Good(fds[..fdslen0])
    modifies buf, fds
    ensures var (e, table) := Encode(ad, old(fds[..fdslen0]));
      |e| == Length(ad) && buf[..] == Overwrite(old(buf[..]), pos, e) && fdslen <= fds.Length && fds[..fdslen] == table
    decreases ad, 0
  {
    hide EncodeBuffer, EncodeItems, EncodeEntries, CountBuffer, CountItems, CountEntries, Good, Overwrite;
    ghost var before, table0 := buf[..], fds[..fdslen0];
    EncodeKeeps(ad, table0);
    fdslen := fdslen0;
    match ad
    case Buffer(bytes, convert) =>
      fdslen := WriteBuffer(bytes, convert, buf, pos, fds, fdslen);
    case Binary(data) =>
      buf[pos] := TYPE_BINARY;
      OneByte(before, pos, TYPE_BINARY);
      WriteBytes(data, buf, pos + 1);
      OverwriteOn(before, pos, [TYPE_BINARY], data);
    case Map(entries) =>
      buf[pos] := TYPE_MAP;
      OneByte(before, pos, TYPE_MAP);
      EncodeEntriesKeeps(entries, table0);
      ghost var e := EncodeEntries(entries, table0).0;
      fdslen := WriteEntries(entries, buf, pos + 1, fds, fdslen);
      OverwriteOn(before, pos, [TYPE_MAP], e);
    case Seq(items) =>
      buf[pos] := TYPE_SEQ;
      OneByte(before, pos, TYPE_SEQ);
      EncodeItemsKeeps(items, table0);
      ghost var e := EncodeItems(items, table0).0;
      fdslen := WriteItems(items, buf, pos + 1, fds, fdslen);
      OverwriteOn(before, pos, [TYPE_SEQ], e);
    case Str(chars) =>
      WriteString(chars, buf, pos);
  }

  method WriteString(chars: seq<Byte>, buf: array<Byte>, pos: nat)
    requires pos + |chars| + 2 <= buf.Length
    modifies buf
    ensures buf[..] == Overwrite(old(buf[..]), pos, [TYPE_STR] + chars + [0])
  {
    hide Overwrite;
    ghost var before := buf[..];
    buf[pos] := TYPE_STR;
    OneByte(before, pos, TYPE_STR);
    WriteBytes(chars, buf, pos + 1);
    OverwriteOn(before, pos, [TYPE_STR], chars);
    ghost var before' := buf[..];
    buf[pos + 1 + |chars|] := 0;
    OneByte(before', pos + 1 + |chars|, 0);
    OverwriteOn(before, pos, [TYPE_STR] + chars, [0]);
  }

  lemma OneByte(s: seq<Byte>, pos: nat, c: Byte)
    requires pos < |s|
    ensures s[pos := c] == Overwrite(s, pos, [c])
  {
  }

  method WriteSubfield(ad: Node, buf: array<Byte>, pos: nat, fds: array<CInt>, fdslen0: nat)
      returns (next: nat, fdslen: nat)
    requires Length(ad) < SIZE_LIMIT && pos + SubfieldLength(ad) <= buf.Length && fdslen0 + CountFds(ad) <= fds.Length
    requires Good(fds[..fdslen0])
    modifies buf, fds
    ensures next == pos + SubfieldLength(ad)
    ensures var (e, table) := EncodeSubfield(ad, old(fds[..fdslen0]));
      |e| == SubfieldLength(ad) && buf[..] == Overwrite(old(buf[..]), pos, e) && fdslen <= fds.Length && fds[..fdslen] == table
    decreases ad, 1
  {
    hide Encode, CountFds, Good, Spelling, Length, Overwrite;
    ghost var before, table0 := buf[..], fds[..fdslen0];
    next := WriteLength(Length(ad), buf, pos);
    fdslen := WriteNode(ad, buf, next, fds, fdslen0);
    OverwriteOn(before, pos, Spelling(Length(ad)), Encode(ad, table0).0);
    next := next + Length(ad);
  }

  /** What is still to be written follows what has been. */
  ghost predicate Continues(done: seq<Byte>, rest: (seq<Byte>, seq<CInt>), all: (seq<Byte>, seq<CInt>)) {
    done + rest.0 == all.0 && rest.1 == all.1
  }

  method WriteItems(items: seq<Node>, buf: array<Byte>, pos: nat, fds: array<CInt>, fdslen0: nat) returns (fdslen: nat)
    requires ItemsLength(items) < SIZE_LIMIT && pos + ItemsLength(items) <= buf.Length
    requires fdslen0 + CountItems(items) <= fds.Length && Good(fds[..fdslen0])
    modifies buf, fds
    ensures var (e, table) := EncodeItems(items, old(fds[..fdslen0]));
      |e| == ItemsLength(items) && buf[..] == Overwrite(old(buf[..]), pos, e) && fdslen <= fds.Length && fds[..fdslen] == table
    decreases items, 2
  {
    hide EncodeItems, EncodeSubfield, ItemsLength, SubfieldLength, CountItems, CountFds, Good, Overwrite;
    ghost var before, table0 := buf[..], fds[..fdslen0];
    EncodeItemsKeeps(items, table0);
    ghost var all := EncodeItems(items, table0);
    fdslen := fdslen0;
    var cursor, i := pos, 0;
    ghost var done := [];
    OverwriteNothing(before, pos);
    assert items[0..] == items;
    while i < |items|
      invariant 0 <= i <= |items| && cursor == pos + |done| && fdslen <= fds.Length
      invariant |done| + ItemsLength(items[i..]) == ItemsLength(items)
      invariant buf[..] == Overwrite(before, pos, done)
      invariant Good(fds[..fdslen]) && fdslen + CountItems(items[i..]) <= fds.Length
      invariant Continues(done, EncodeItems(items[i..], fds[..fdslen]), all)
    {
      ghost var table := fds[..fdslen];
      FirstItem(items[i..], table);
      EncodeSubfieldKeeps(items[i], table);
      ghost var e := EncodeSubfield(items[i], table).0;
      cursor, fdslen := WriteSubfield(items[i], buf, cursor, fds, fdslen);
      OverwriteOn(before, pos, done, e);
      assert items[i..][1..] == items[i + 1..];
      ghost var r := EncodeItems(items[i + 1..], fds[..fdslen]).0;
      assert done + (e + r) == (done + e) + r;
      done := done + e;
      i := i + 1;
    }
    NoItems(items[i..], fds[..fdslen]);
    assert done == all.0;
  }

  lemma FirstItem(items: seq<Node>, table: seq<CInt>)
    requires |items| > 0
    ensures ItemsLength(items) == SubfieldLength(items[0]) + ItemsLength(items[1..])
    ensures CountItems(items) == CountFds(items[0]) + CountItems(items[1..])
    ensures Length(items[0]) <= SubfieldLength(items[0])
    ensures var (e, table') := EncodeSubfield(items[0], table); var (r, table'') := EncodeItems(items[1..], table');
      EncodeItems(items, table) == (e + r, table'')
  {
  }

  lemma NoItems(items: seq<Node>, table: seq<CInt>)
    requires |items| == 0
    ensures ItemsLength(items) == 0 && EncodeItems(items, table) == ([], table)
  {
  }

  method WriteEntry(entry: Entry, buf: array<Byte>, pos: nat, fds: array<CInt>, fdslen0: nat)
      returns (next: nat, fdslen: nat)
    requires EntryLength(entry) < SIZE_LIMIT && pos + EntryLength(entry) <= buf.Length
    requires fdslen0 + CountEntry(entry) <= fds.Length && Good(fds[..fdslen0])
    modifies buf, fds
    ensures next == pos + EntryLength(entry)
    ensures var (e, table) := EncodeEntry(entry, old(fds[..fdslen0]));
      |e| == EntryLength(entry) && buf[..] == Overwrite(old(buf[..]), pos, e) && fdslen <= fds.Length && fds[..fdslen] == table
    decreases entry, 2
  {
    hide EncodeSubfield, SubfieldLength, CountFds, Good, Overwrite;
    ghost var before, table0 := buf[..], fds[..fdslen0];
    EncodeEntryKeeps(entry, table0);
    EncodeSubfieldKeeps(entry.key, table0);
    LengthInSubfield(entry.key);
    LengthInSubfield(entry.value);
    ghost var (k, table1) := EncodeSubfield(entry.key, table0);
    ghost var v := EncodeSubfield(entry.value, table1).0;
    next, fdslen := WriteSubfield(entry.key, buf, pos, fds, fdslen0);
    next, fdslen := WriteSubfield(entry.value, buf, next, fds, fdslen);
    OverwriteOn(before, pos, k, v);
  }

  method WriteEntries(entries: seq<Entry>, buf: array<Byte>, pos: nat, fds: array<CInt>, fdslen0: nat)
      returns (fdslen: nat)
    requires EntriesLength(entries) < SIZE_LIMIT && pos + EntriesLength(entries) <= buf.Length
    requires fdslen0 + CountEntries(entries) <= fds.Length && Good(fds[..fdslen0])
    modifies buf, fds
    ensures var (e, table) := EncodeEntries(entries, old(fds[..fdslen0]));
      |e| == EntriesLength(entries) && buf[..] == Overwrite(old(buf[..]), pos, e) && fdslen <= fds.Length && fds[..fdslen] == table
    decreases entries, 3
  {
    hide EncodeEntries, EncodeEntry, EntriesLength, EntryLength, CountEntries, CountEntry, Good, Overwrite;
    ghost var before, table0 := buf[..], fds[..fdslen0];
    EncodeEntriesKeeps(entries, table0);
    ghost var all := EncodeEntries(entries, table0);
    fdslen := fdslen0;
    var cursor, i := pos, 0;
    ghost var done := [];
    OverwriteNothing(before, pos);
    assert entries[0..] == entries;
    while i < |entries|
      invariant 0 <= i <= |entries| && cursor == pos + |done| && fdslen <= fds.Length
      invariant |done| + EntriesLength(entries[i..]) == EntriesLength(entries)
      invariant buf[..] == Overwrite(before, pos, done)
      invariant Good(fds[..fdslen]) && fdslen + CountEntries(entries[i..]) <= fds.Length
      invariant Continues(done, EncodeEntries(entries[i..], fds[..fdslen]), all)
    {
      ghost var table := fds[..fdslen];
      FirstEntry(entries[i..], table);
      EncodeEntryKeeps(entries[i], table);
      ghost var e := EncodeEntry(entries[i], table).0;
      cursor, fdslen := WriteEntry(entries[i], buf, cursor, fds, fdslen);
      OverwriteOn(before, pos, done, e);
      assert entries[i..][1..] == entries[i + 1..];
      ghost var r := EncodeEntries(entries[i + 1..], fds[..fdslen]).0;
      assert done + (e + r) == (done + e) + r;
      done := done + e;
      i := i + 1;
    }
    NoEntries(entries[i..], fds[..fdslen]);
    assert done == all.0;
  }

  lemma FirstEntry(entries: seq<Entry>, table: seq<CInt>)
    requires |entries| > 0
    ensures EntriesLength(entries) == EntryLength(entries[0]) + EntriesLength(entries[1..])
    ensures CountEntries(entries) == CountEntry(entries[0]) + CountEntries(entries[1..])
    ensures var (e, table') := EncodeEntry(entries[0], table); var (r, table'') := EncodeEntries(entries[1..], table');
      EncodeEntries(entries, table) == (e + r, table'')
  {
  }

  lemma NoEntries(entries: seq<Entry>, table: seq<CInt>)
    requires |entries| == 0
    ensures EntriesLength(entries) == 0 && EncodeEntries(entries, table) == ([], table)
  {
  }

  /** Serialises a tree; the bytes and the table then show it again to whoever reads them together. */
  method SerializeNode(ad: Node, buf: array<Byte>, fds: array<CInt>) returns (nfds: nat)
    requires Length(ad) < SIZE_LIMIT && Length(ad) <= buf.Length && CountFds(ad) <= fds.Length
    modifies buf, fds
    ensures nfds <= CountFds(ad) && Good(fds[..nfds])
    ensures View(buf[..Length(ad)], Lookup(fds[..nfds])) == ViewOf(ad)
    ensures (buf[..Length(ad)], fds[..nfds]) == Encode(ad, [])
    ensures buf[Length(ad)..] == old(buf[Length(ad)..])
  {
    hide Encode, View, ViewOf, Lookup, CountFds, Length, Good;
    ghost var before := buf[..];
    NoDescriptors();
    assert fds[..0] == [];
    nfds := WriteNode(ad, buf, 0, fds, 0);
    RoundTrip(ad);
    assert buf[..Length(ad)] == Encode(ad, []).0;
  }

  lemma NoDescriptors()
    ensures Good([])
  {
  }

  // ---------- Counting ----------

  method CountFieldsOf(s: seq<Byte>) returns (count: nat)
    ensures count == CountFields(s)
    decreases |s|, 0
  {
    hide CountFields, CountBuffer, ParseLength;
    count := 0;
    var i := 0;
    assert s[0..] == s;
    while true
      invariant 0 <= i <= |s| && CountFields(s) == count + CountFields(s[i..])
      decreases |s| - i
    {
      var ok, start, length := ParseSubfield(s[i..]);
      if !ok {
        NothingCounted(s[i..]);
        return;
      }
      FirstCounted(s[i..], length, start);
      SliceOfRest(s, i, start, start + length);
      var n := CountBufferFds(s[i + start..i + start + length]);
      count := count + n;
      i := i + start + length;
    }
  }

  lemma NothingCounted(s: seq<Byte>)
    requires ParseLength(s).None?
    ensures CountFields(s) == 0
  {
  }

  lemma FirstCounted(s: seq<Byte>, n: nat, k: nat)
    requires ParseLength(s) == Some((n, k))
    ensures k >= 1 && k + n <= |s|
    ensures CountFields(s) == CountBuffer(s[k..k + n]) + CountFields(s[k + n..])
  {
    hide ParseLength, CountBuffer;
  }

  /** The number of places for descriptors in a serialised value, whatever the descriptors are. */
  method CountBufferFds(bytes: seq<Byte>) returns (count: nat)
    ensures count == CountBuffer(bytes)
    ensures forall convert: nat -> CInt :: count == Places(View(bytes, convert))
    decreases |bytes|, 1
  {
    if |bytes| == 0 {
      return 0;
    }
    if bytes[0] == TYPE_MAP || bytes[0] == TYPE_SEQ {
      count := CountFieldsOf(bytes[1..]);
    } else if bytes[0] == TYPE_FD && |bytes| - 1 == 4 {
      count := 1;
    } else {
      count := 0;
    }
    forall convert: nat -> CInt
      ensures count == Places(View(bytes, convert))
    {
      BufferPlaces(bytes, convert);
    }
  }

  /** The number of places for descriptors in a tree. */
  method CountNodeFds(ad: Node) returns (count: nat)
    ensures count == CountFds(ad) && count == Places(ViewOf(ad))
    decreases ad, 0
  {
    PlacesCounted(ad);
    match ad
    case Buffer(bytes, _) => count := CountBufferFds(bytes);
    case Binary(_) => count := 0;
    case Map(entries) =>
      count := 0;
      var i := 0;
      assert entries[0..] == entries;
      while i < |entries|
        invariant 0 <= i <= |entries| && CountEntries(entries) == count + CountEntries(entries[i..])
      {
        var k := CountNodeFds(entries[i].key);
        var v := CountNodeFds(entries[i].value);
        assert entries[i..][1..] == entries[i + 1..];
        count := count + k + v;
        i := i + 1;
      }
    case Seq(items) =>
      count := 0;
      var i := 0;
      assert items[0..] == items;
      while i < |items|
        invariant 0 <= i <= |items| && CountItems(items) == count + CountItems(items[i..])
      {
        var n := CountNodeFds(items[i]);
        assert items[i..][1..] == items[i + 1..];
        count := count + n;
        i := i + 1;
      }
    case Str(_) => count := 0;
  }
}
