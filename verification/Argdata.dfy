/**
  Argument data: trees of maps, sequences, strings, binary blocks and already
  serialised buffers. What a reader of serialised bytes sees, what serialising
  produces, and that the two agree.
 */
module Argdata {
  import opened Options
  import opened Subfield

  /** A C int; a file descriptor is valid when it is not negative. */
  type CInt = x: int | -0x8000_0000 <= x < 0x8000_0000

  const TYPE_BINARY: Byte := 1
  const TYPE_FD: Byte := 3
  const TYPE_MAP: Byte := 6
  const TYPE_SEQ: Byte := 7
  const TYPE_STR: Byte := 8

  datatype Entry = Entry(key: Node, value: Node)

  /** A buffer carries the function that turns the descriptor numbers in it into local ones. */
  datatype Node =
    | Buffer(bytes: seq<Byte>, convert: nat -> CInt)
    | Binary(data: seq<Byte>)
    | Map(entries: seq<Entry>)
    | Seq(items: seq<Node>)
    | Str(chars: seq<Byte>)

  // ---------- Lengths ----------

  function SpellingLength(n: nat): (r: nat)
    ensures r == |Spelling(n)|
  {
    1 + PrefixLength(n / 128)
  }

  function PrefixLength(n: nat): (r: nat)
    ensures r == |Prefix(n)|
  {
    if n == 0 then 0 else 1 + PrefixLength(n / 128)
  }

  /** The length field of a node, as its constructor computes it. */
  function Length(ad: Node): nat
    decreases ad, 0
  {
    match ad
    case Buffer(bytes, _) => |bytes|
    case Binary(data) => 1 + |data|
    case Map(entries) => 1 + EntriesLength(entries)
    case Seq(items) => 1 + ItemsLength(items)
    case Str(chars) => |chars| + 2
  }

  function SubfieldLength(ad: Node): nat
    decreases ad, 1
  {
    SpellingLength(Length(ad)) + Length(ad)
  }

  function ItemsLength(items: seq<Node>): nat
    decreases items, 2
  {
    if |items| == 0 then 0 else SubfieldLength(items[0]) + ItemsLength(items[1..])
  }

  function EntryLength(entry: Entry): nat
    decreases entry, 2
  {
    SubfieldLength(entry.key) + SubfieldLength(entry.value)
  }

  function EntriesLength(entries: seq<Entry>): nat
    decreases entries, 3
  {
    if |entries| == 0 then 0 else EntryLength(entries[0]) + EntriesLength(entries[1..])
  }

  // ---------- Descriptor numbers ----------

  ghost function BigEndian(x: nat): seq<Byte> {
    [(x / 0x100_0000) % 256, (x / 0x1_0000) % 256, (x / 256) % 256, x % 256]
  }

  function FromBigEndian(s: seq<Byte>): (r: nat)
    requires |s| == 4
  {
    (s[0] as int) * 0x100_0000 + (s[1] as int) * 0x1_0000 + (s[2] as int) * 256 + s[3]
  }

  lemma BigEndianInverse(x: nat)
    requires x < 0x1_0000_0000
    ensures FromBigEndian(BigEndian(x)) == x
  {
    var a := x / 256;
    var b := a / 256;
    var c := b / 256;
    assert x / 0x1_0000 == b && x / 0x100_0000 == c;
    assert x == 256 * a + x % 256 && a == 256 * b + a % 256 && b == 256 * c + b % 256 && c % 256 == c;
  }

  const INVALID: nat := 0xFFFF_FFFF

  // ---------- What a reader sees ----------

  /**
    Values as the accessors present them: a descriptor is a local number or
    invalid, a map or sequence is its fields and whatever does not parse.
   */
  datatype Value =
    | Leaf(bytes: seq<Byte>)
    | Fd(fd: CInt)
    | BadFd
    | Fields(tag: Byte, fields: seq<Value>, tail: seq<Byte>)

  ghost function View(bytes: seq<Byte>, convert: nat -> CInt): Value
    decreases |bytes|, 1
  {
    if |bytes| == 0 then Leaf([])
    else if bytes[0] == TYPE_MAP || bytes[0] == TYPE_SEQ then
      Fields(bytes[0], ViewFields(bytes[1..], convert), TailOf(bytes[1..]))
    else if bytes[0] == TYPE_FD && |bytes| == 5 then ViewFd(convert(FromBigEndian(bytes[1..])))
    else Leaf(bytes)
  }

  ghost function ViewFd(fd: CInt): Value {
    if fd < 0 then BadFd else Fd(fd)
  }

  ghost function ViewFields(s: seq<Byte>, convert: nat -> CInt): seq<Value>
    decreases |s|, 0
  {
    match ParseLength(s)
    case None => []
    case Some((n, k)) => [View(s[k..k + n], convert)] + ViewFields(s[k + n..], convert)
  }

  /** The bytes after the last field that parses. */
  ghost function TailOf(s: seq<Byte>): seq<Byte> {
    match ParseLength(s)
    case None => s
    case Some((n, k)) => TailOf(s[k + n..])
  }

  /** Fields one after the other, each after its length. */
  ghost function Joined(fields: seq<seq<Byte>>): seq<Byte> {
    if |fields| == 0 then [] else Spelling(|fields[0]|) + fields[0] + Joined(fields[1..])
  }

  /** A map or sequence in a buffer: its fields in order, and then what does not start with a field. */
  lemma {:induction false} FieldsAreJoined(s: seq<Byte>, convert: nat -> CInt) returns (fields: seq<seq<Byte>>)
    ensures s == Joined(fields) + TailOf(s) && forall n :: !StartsWith(TailOf(s), n)
    ensures |fields| == |ViewFields(s, convert)|
    ensures forall i :: 0 <= i < |fields| ==> ViewFields(s, convert)[i] == View(fields[i], convert)
    decreases |s|
  {
    hide ParseLength, View, StartsWith, Spelling;
    match ParseLength(s)
    case None =>
      fields := [];
      forall n ensures !StartsWith(s, n) {
        NothingSpelled(s, n);
      }
    case Some((n, k)) =>
      var rest := FieldsAreJoined(s[k + n..], convert);
      fields := [s[k..k + n]] + rest;
      assert fields[1..] == rest;
      FirstSpelled(s, n, k);
  }

  lemma NothingSpelled(s: seq<Byte>, n: nat)
    requires ParseLength(s) == None
    ensures !StartsWith(s, n)
  {
    hide ParseLength, StartsWith;
    if StartsWith(s, n) {
      ParseIffSpelled(s, n, |Spelling(n)|);
    }
  }

  lemma FirstSpelled(s: seq<Byte>, n: nat, k: nat)
    requires ParseLength(s) == Some((n, k))
    ensures s == Spelling(n) + s[k..k + n] + s[k + n..]
  {
    hide ParseLength, Spelling;
    ParseIffSpelled(s, n, k);
  }

  /** A descriptor is the number that its four bytes stand for here, or invalid. */
  lemma DescriptorShown(convert: nat -> CInt)
    ensures View([3, 1, 2, 3, 4], convert) == if convert(0x0102_0304) < 0 then BadFd else Fd(convert(0x0102_0304))
  {
    var s: seq<Byte> := [3, 1, 2, 3, 4];
    assert s[1..] == [1, 2, 3, 4];
  }

  ghost function ViewOf(ad: Node): Value {
    match ad
    case Buffer(bytes, convert) => View(bytes, convert)
    case Binary(data) => Leaf([TYPE_BINARY] + data)
    case Map(entries) => Fields(TYPE_MAP, ViewEntries(entries), [])
    case Seq(items) => Fields(TYPE_SEQ, ViewItems(items), [])
    case Str(chars) => Leaf([TYPE_STR] + chars + [0])
  }

  ghost function ViewItems(items: seq<Node>): seq<Value> {
    if |items| == 0 then [] else [ViewOf(items[0])] + ViewItems(items[1..])
  }

  ghost function ViewEntry(entry: Entry): seq<Value> {
    [ViewOf(entry.key), ViewOf(entry.value)]
  }

  ghost function ViewEntries(entries: seq<Entry>): seq<Value> {
    if |entries| == 0 then [] else ViewEntry(entries[0]) + ViewEntries(entries[1..])
  }

  // ---------- Serialising ----------

  /** The descriptor's place in the table, which grows by it if it is new. */
  ghost function Tabled(fd: CInt, table: seq<CInt>): (nat, seq<CInt>) {
    if fd in table then (IndexOf(fd, table), table) else (|table|, table + [fd])
  }

  ghost function IndexOf(fd: CInt, table: seq<CInt>): (i: nat)
    requires fd in table
    ensures i < |table| && table[i] == fd && fd !in table[..i]
  {
    if table[0] == fd then 0 else 1 + IndexOf(fd, table[1..])
  }

  ghost function EncodeFd(fd: CInt, table: seq<CInt>): (seq<Byte>, seq<CInt>) {
    if fd < 0 then (BigEndian(INVALID), table)
    else var (i, table') := Tabled(fd, table); (BigEndian(i), table')
  }

  ghost function EncodeBuffer(bytes: seq<Byte>, convert: nat -> CInt, table: seq<CInt>): (seq<Byte>, seq<CInt>)
    decreases |bytes|, 1
  {
    if |bytes| == 0 then ([], table)
    else if bytes[0] == TYPE_MAP || bytes[0] == TYPE_SEQ then
      var (e, table') := EncodeFields(bytes[1..], convert, table);
      ([bytes[0]] + e, table')
    else if bytes[0] == TYPE_FD && |bytes| == 5 then
      var (e, table') := EncodeFd(convert(FromBigEndian(bytes[1..])), table);
      ([bytes[0]] + e, table')
    else (bytes, table)
  }

  ghost function EncodeFields(s: seq<Byte>, convert: nat -> CInt, table: seq<CInt>): (seq<Byte>, seq<CInt>)
    decreases |s|, 0
  {
    match ParseLength(s)
    case None => (s, table)
    case Some((n, k)) =>
      var (e, table') := EncodeBuffer(s[k..k + n], convert, table);
      var (r, table'') := EncodeFields(s[k + n..], convert, table');
      (Spelling(n) + e + r, table'')
  }

  ghost function Encode(ad: Node, table: seq<CInt>): (seq<Byte>, seq<CInt>)
    decreases ad, 0
  {
    match ad
    case Buffer(bytes, convert) => EncodeBuffer(bytes, convert, table)
    case Binary(data) => ([TYPE_BINARY] + data, table)
    case Map(entries) => var (e, table') := EncodeEntries(entries, table); ([TYPE_MAP] + e, table')
    case Seq(items) => var (e, table') := EncodeItems(items, table); ([TYPE_SEQ] + e, table')
    case Str(chars) => ([TYPE_STR] + chars + [0], table)
  }

  ghost function EncodeSubfield(ad: Node, table: seq<CInt>): (seq<Byte>, seq<CInt>)
    decreases ad, 1
  {
    var (e, table') := Encode(ad, table);
    (Spelling(Length(ad)) + e, table')
  }

  ghost function EncodeItems(items: seq<Node>, table: seq<CInt>): (seq<Byte>, seq<CInt>)
    decreases items, 2
  {
    if |items| == 0 then ([], table)
    else
      var (e, table') := EncodeSubfield(items[0], table);
      var (r, table'') := EncodeItems(items[1..], table');
      (e + r, table'')
  }

  ghost function EncodeEntry(entry: Entry, table: seq<CInt>): (seq<Byte>, seq<CInt>)
    decreases entry, 2
  {
    var (k, table') := EncodeSubfield(entry.key, table);
    var (v, table'') := EncodeSubfield(entry.value, table');
    (k + v, table'')
  }

  ghost function EncodeEntries(entries: seq<Entry>, table: seq<CInt>): (seq<Byte>, seq<CInt>)
    decreases entries, 3
  {
    if |entries| == 0 then ([], table)
    else
      var (e, table') := EncodeEntry(entries[0], table);
      var (r, table'') := EncodeEntries(entries[1..], table');
      (e + r, table'')
  }

  // ---------- Counting descriptors ----------

  ghost function CountBuffer(bytes: seq<Byte>): nat
    decreases |bytes|, 1
  {
    if |bytes| == 0 then 0
    else if bytes[0] == TYPE_MAP || bytes[0] == TYPE_SEQ then CountFields(bytes[1..])
    else if bytes[0] == TYPE_FD && |bytes| == 5 then 1
    else 0
  }

  ghost function CountFields(s: seq<Byte>): nat
    decreases |s|, 0
  {
    match ParseLength(s)
    case None => 0
    case Some((n, k)) => CountBuffer(s[k..k + n]) + CountFields(s[k + n..])
  }

  ghost function CountFds(ad: Node): nat {
    match ad
    case Buffer(bytes, _) => CountBuffer(bytes)
    case Binary(_) => 0
    case Map(entries) => CountEntries(entries)
    case Seq(items) => CountItems(items)
    case Str(_) => 0
  }

  ghost function CountItems(items: seq<Node>): nat {
    if |items| == 0 then 0 else CountFds(items[0]) + CountItems(items[1..])
  }

  ghost function CountEntry(entry: Entry): nat {
    CountFds(entry.key) + CountFds(entry.value)
  }

  ghost function CountEntries(entries: seq<Entry>): nat {
    if |entries| == 0 then 0 else CountEntry(entries[0]) + CountEntries(entries[1..])
  }

  /** The places of a value where a descriptor stands, valid or not. */
  ghost function Places(v: Value): nat {
    match v
    case Leaf(_) => 0
    case Fd(_) => 1
    case BadFd => 1
    case Fields(_, fields, _) => PlacesIn(fields)
  }

  ghost function PlacesIn(vs: seq<Value>): nat {
    if |vs| == 0 then 0 else Places(vs[0]) + PlacesIn(vs[1..])
  }

  lemma {:induction false} PlacesConcat(a: seq<Value>, b: seq<Value>)
    ensures PlacesIn(a + b) == PlacesIn(a) + PlacesIn(b)
  {
    if |a| == 0 {
      assert a + b == b;
    } else {
      assert (a + b)[1..] == a[1..] + b;
      PlacesConcat(a[1..], b);
    }
  }

  lemma NoPlaces()
    ensures PlacesIn([]) == 0
  {
  }

  lemma PlacesOfFirst(v: Value, vs: seq<Value>)
    ensures PlacesIn([v] + vs) == Places(v) + PlacesIn(vs)
  {
    assert ([v] + vs)[1..] == vs;
  }

  /** The count is the number of places that a reader sees. */
  lemma {:induction false} BufferPlaces(bytes: seq<Byte>, convert: nat -> CInt)
    ensures CountBuffer(bytes) == Places(View(bytes, convert))
    decreases |bytes|, 1
  {
    if |bytes| > 0 && (bytes[0] == TYPE_MAP || bytes[0] == TYPE_SEQ) { FieldPlaces(bytes[1..], convert); }
  }

  lemma {:induction false} FieldPlaces(s: seq<Byte>, convert: nat -> CInt)
    ensures CountFields(s) == PlacesIn(ViewFields(s, convert))
    decreases |s|, 0
  {
    hide ParseLength, View, CountBuffer, Places, PlacesIn;
    match ParseLength(s)
    case None =>
      NoPlaces();
    case Some((n, k)) =>
      BufferPlaces(s[k..k + n], convert);
      FieldPlaces(s[k + n..], convert);
      PlacesOfFirst(View(s[k..k + n], convert), ViewFields(s[k + n..], convert));
  }

  lemma {:induction false} PlacesCounted(ad: Node)
    ensures CountFds(ad) == Places(ViewOf(ad))
    decreases ad, 0
  {
    match ad
    case Buffer(bytes, convert) => BufferPlaces(bytes, convert);
    case Binary(_) =>
    case Map(entries) => EntriesPlaces(entries);
    case Seq(items) => ItemPlaces(items);
    case Str(_) =>
  }

  lemma {:induction false} ItemPlaces(items: seq<Node>)
    ensures CountItems(items) == PlacesIn(ViewItems(items))
    decreases items, 2
  {
    if |items| > 0 {
      PlacesCounted(items[0]);
      ItemPlaces(items[1..]);
      PlacesOfFirst(ViewOf(items[0]), ViewItems(items[1..]));
    }
  }

  lemma {:induction false} EntryPlaces(entry: Entry)
    ensures CountEntry(entry) == PlacesIn(ViewEntry(entry))
    decreases entry, 2
  {
    PlacesCounted(entry.key);
    PlacesCounted(entry.value);
    var k, v := ViewOf(entry.key), ViewOf(entry.value);
    assert [k, v] == [k] + ([v] + []);
    PlacesOfFirst(v, []);
    PlacesOfFirst(k, [v] + []);
  }

  lemma {:induction false} EntriesPlaces(entries: seq<Entry>)
    ensures CountEntries(entries) == PlacesIn(ViewEntries(entries))
    decreases entries, 3
  {
    if |entries| > 0 {
      EntryPlaces(entries[0]);
      EntriesPlaces(entries[1..]);
      PlacesConcat(ViewEntry(entries[0]), ViewEntries(entries[1..]));
    }
  }

  // ---------- The bytes themselves ----------

  /** A sequence, a map, binary data and two descriptors, byte by byte. */
  lemma OnTheWire()
    ensures Encode(Seq([Str([97])]), []) == ([7, 0x83, 8, 97, 0], [])
    ensures Encode(Map([Entry(Str([97]), Binary([5, 4]))]), []) == ([6, 0x83, 8, 97, 0, 0x83, 1, 5, 4], [])
    ensures EncodeBuffer([3, 0, 0, 0, 0], _ => 9, [2]) == ([3, 0, 0, 0, 1], [2, 9])
    ensures EncodeBuffer([3, 0, 0, 0, 0], _ => -1, [2]) == ([3, 0xFF, 0xFF, 0xFF, 0xFF], [2])
  {
    var str, data := Str([97]), Binary([5, 4]);
    StrBytes([97]);
    BinaryBytes([5, 4]);
    var s: seq<Byte>, d: seq<Byte> := [0x83, 8, 97, 0], [0x83, 1, 5, 4];
    assert EncodeSubfield(str, []).0 == s && EncodeSubfield(data, []).0 == d;
    OneItem(str, []);
    OneEntry(Entry(str, data), []);
    assert [7] + s == [7, 0x83, 8, 97, 0];
    assert [6] + (s + d) == [6, 0x83, 8, 97, 0, 0x83, 1, 5, 4];
    DescriptorBytes(_ => 9, [2]);
    DescriptorBytes(_ => -1, [2]);
    var table: seq<CInt> := [2];
    assert table + [9] == [2, 9];
  }

  lemma StrBytes(chars: seq<Byte>)
    requires |chars| < 126
    ensures EncodeSubfield(Str(chars), []) == ([130 + |chars|] + ([8] + chars + [0]), [])
  {
    ShortSpelling(|chars| + 2);
    var ad := Str(chars);
    assert Length(ad) == |chars| + 2;
  }

  lemma BinaryBytes(data: seq<Byte>)
    requires |data| < 127
    ensures EncodeSubfield(Binary(data), []) == ([129 + |data|] + ([1] + data), [])
  {
    ShortSpelling(|data| + 1);
    var ad := Binary(data);
    assert Length(ad) == |data| + 1;
  }

  lemma DescriptorBytes(convert: nat -> CInt, table: seq<CInt>)
    requires |table| == 1 && convert(0) !in table
    ensures EncodeBuffer([3, 0, 0, 0, 0], convert, table)
         == if convert(0) < 0 then ([3, 0xFF, 0xFF, 0xFF, 0xFF], table) else ([3, 0, 0, 0, 1], table + [convert(0)])
  {
    var bytes: seq<Byte> := [3, 0, 0, 0, 0];
    assert FromBigEndian(bytes[1..]) == 0;
    assert BigEndian(1) == [0, 0, 0, 1] && BigEndian(INVALID) == [0xFF, 0xFF, 0xFF, 0xFF];
    assert [3] + [0, 0, 0, 1] == [3, 0, 0, 0, 1];
    assert [3] + [0xFF, 0xFF, 0xFF, 0xFF] == [3, 0xFF, 0xFF, 0xFF, 0xFF];
  }

  lemma ShortSpelling(n: nat)
    requires n < 128
    ensures Spelling(n) == [0x80 + n]
  {
  }

  lemma OneItem(ad: Node, table: seq<CInt>)
    ensures EncodeItems([ad], table) == EncodeSubfield(ad, table)
  {
    assert [ad][1..] == [];
    var e := EncodeSubfield(ad, table).0;
    assert e + [] == e;
  }

  lemma OneEntry(entry: Entry, table: seq<CInt>)
    ensures EncodeEntries([entry], table) == EncodeEntry(entry, table)
  {
    assert [entry][1..] == [];
    var e := EncodeEntry(entry, table).0;
    assert e + [] == e;
  }

  // ---------- What serialising keeps ----------

  /** A table of valid descriptors without repetition. */
  ghost predicate Good(table: seq<CInt>) {
    && (forall i :: 0 <= i < |table| ==> table[i] >= 0)
    && forall i, j :: 0 <= i < j < |table| ==> table[i] != table[j]
  }

  /** The result has the given length; the table grew at its end, by no more than the count, and stayed good. */
  ghost predicate Kept(r: (seq<Byte>, seq<CInt>), length: int, table: seq<CInt>, count: int) {
    |r.0| == length && table <= r.1 && Good(r.1) && |r.1| <= |table| + count
  }

  lemma EncodeFdKeeps(fd: CInt, table: seq<CInt>)
    requires Good(table)
    ensures Kept(EncodeFd(fd, table), 4, table, 1)
  {
  }

  lemma {:induction false} EncodeBufferKeeps(bytes: seq<Byte>, convert: nat -> CInt, table: seq<CInt>)
    requires Good(table)
    ensures Kept(EncodeBuffer(bytes, convert, table), |bytes|, table, CountBuffer(bytes))
    decreases |bytes|, 1
  {
    if |bytes| > 0 {
      if bytes[0] == TYPE_MAP || bytes[0] == TYPE_SEQ {
        EncodeFieldsKeeps(bytes[1..], convert, table);
      } else if bytes[0] == TYPE_FD && |bytes| == 5 {
        EncodeFdKeeps(convert(FromBigEndian(bytes[1..])), table);
      }
    }
  }

  lemma {:induction false} EncodeFieldsKeeps(s: seq<Byte>, convert: nat -> CInt, table: seq<CInt>)
    requires Good(table)
    ensures Kept(EncodeFields(s, convert, table), |s|, table, CountFields(s))
    decreases |s|, 0
  {
    match ParseLength(s)
    case None =>
    case Some((n, k)) =>
      ParseIffSpelled(s, n, k);
      EncodeBufferKeeps(s[k..k + n], convert, table);
      var (e, table') := EncodeBuffer(s[k..k + n], convert, table);
      EncodeFieldsKeeps(s[k + n..], convert, table');
  }

  /** Serialising writes exactly `length` bytes for every tree, and tables no more descriptors than are counted. */
  lemma {:induction false} EncodeKeeps(ad: Node, table: seq<CInt>)
    requires Good(table)
    ensures Kept(Encode(ad, table), Length(ad), table, CountFds(ad))
    decreases ad, 0
  {
    match ad
    case Buffer(bytes, convert) => EncodeBufferKeeps(bytes, convert, table);
    case Binary(_) =>
    case Map(entries) => EncodeEntriesKeeps(entries, table);
    case Seq(items) => EncodeItemsKeeps(items, table);
    case Str(_) =>
  }

  lemma {:induction false} EncodeSubfieldKeeps(ad: Node, table: seq<CInt>)
    requires Good(table)
    ensures Kept(EncodeSubfield(ad, table), SubfieldLength(ad), table, CountFds(ad))
    decreases ad, 1
  {
    EncodeKeeps(ad, table);
  }

  lemma {:induction false} EncodeItemsKeeps(items: seq<Node>, table: seq<CInt>)
    requires Good(table)
    ensures Kept(EncodeItems(items, table), ItemsLength(items), table, CountItems(items))
    decreases items, 2
  {
    if |items| > 0 {
      EncodeSubfieldKeeps(items[0], table);
      EncodeItemsKeeps(items[1..], EncodeSubfield(items[0], table).1);
    }
  }

  lemma {:induction false} EncodeEntryKeeps(entry: Entry, table: seq<CInt>)
    requires Good(table)
    ensures Kept(EncodeEntry(entry, table), EntryLength(entry), table, CountEntry(entry))
    decreases entry, 2
  {
    EncodeSubfieldKeeps(entry.key, table);
    EncodeSubfieldKeeps(entry.value, EncodeSubfield(entry.key, table).1);
  }

  lemma {:induction false} EncodeEntriesKeeps(entries: seq<Entry>, table: seq<CInt>)
    requires Good(table)
    ensures Kept(EncodeEntries(entries, table), EntriesLength(entries), table, CountEntries(entries))
    decreases entries, 3
  {
    if |entries| > 0 {
      EncodeEntryKeeps(entries[0], table);
      EncodeEntriesKeeps(entries[1..], EncodeEntry(entries[0], table).1);
    }
  }

  // ---------- Reading back ----------

  /** How the receiver of a table finds its descriptors. */
  ghost function Lookup(received: seq<CInt>): nat -> CInt {
    (i: nat) => if i < |received| then received[i] else -1
  }

  /** The sender's table and the descriptors received for it, place by place. */
  ghost predicate Received(table: seq<CInt>, received: seq<CInt>) {
    Good(table) && |received| == |table| && forall i :: 0 <= i < |received| ==> received[i] >= 0
  }

  /** A value with every descriptor replaced by the one received for it. */
  ghost function Renamed(v: Value, table: seq<CInt>, received: seq<CInt>): Value
    requires Received(table, received)
  {
    match v
    case Leaf(_) => v
    case Fd(fd) => if fd in table then ViewFd(received[IndexOf(fd, table)]) else BadFd
    case BadFd => BadFd
    case Fields(tag, fields, tail) => Fields(tag, RenamedAll(fields, table, received), tail)
  }

  ghost function RenamedAll(vs: seq<Value>, table: seq<CInt>, received: seq<CInt>): seq<Value>
    requires Received(table, received)
  {
    if |vs| == 0 then [] else [Renamed(vs[0], table, received)] + RenamedAll(vs[1..], table, received)
  }

  lemma RenamedCons(v: Value, vs: seq<Value>, table: seq<CInt>, received: seq<CInt>)
    requires Received(table, received)
    ensures RenamedAll([v] + vs, table, received) == [Renamed(v, table, received)] + RenamedAll(vs, table, received)
  {
    assert ([v] + vs)[1..] == vs;
  }

  /** A spelt field in front of others is the first field. */
  lemma FieldStep(n: nat, x: seq<Byte>, rest: seq<Byte>, convert: nat -> CInt)
    requires |x| == n < SIZE_LIMIT
    ensures var s := Spelling(n) + x + rest;
      ViewFields(s, convert) == [View(x, convert)] + ViewFields(rest, convert) && TailOf(s) == TailOf(rest)
  {
    var s, k := Spelling(n) + x + rest, |Spelling(n)|;
    ParseInvertsSpelling(n, x, rest);
    assert s[k..k + n] == x && s[k + n..] == rest;
  }

  /** A table of distinct valid descriptors is shorter than the number that marks an invalid one. */
  lemma GoodIsShort(table: seq<CInt>)
    requires Good(table)
    ensures |table| <= 0x8000_0000
  {
    DistinctBelow(table, 0x8000_0000);
  }

  lemma {:induction false} DistinctBelow(s: seq<CInt>, n: nat)
    requires forall i :: 0 <= i < |s| ==> 0 <= s[i] < n
    requires forall i, j :: 0 <= i < j < |s| ==> s[i] != s[j]
    ensures |s| <= n
    decreases n
  {
    if |s| > 0 {
      if n - 1 in s {
        var i :| 0 <= i < |s| && s[i] == n - 1;
        var t := s[..i] + s[i + 1..];
        assert forall j :: 0 <= j < |t| ==> t[j] == if j < i then s[j] else s[j + 1];
        DistinctBelow(t, n - 1);
      } else {
        DistinctBelow(s, n - 1);
      }
    }
  }

  /** The same descriptor has the same place in the final table. */
  lemma PlaceStays(fd: CInt, table: seq<CInt>, final: seq<CInt>)
    requires Good(final) && table <= final && fd in table
    ensures fd in final && IndexOf(fd, final) == IndexOf(fd, table)
  {
    var i, j := IndexOf(fd, table), IndexOf(fd, final);
    assert final[i] == fd && final[j] == fd;
  }

  lemma EncodeFdView(fd: CInt, table: seq<CInt>, final: seq<CInt>, received: seq<CInt>)
    requires Good(table) && EncodeFd(fd, table).1 <= final && Received(final, received)
    ensures var e := EncodeFd(fd, table).0;
      |e| == 4 && ViewFd(Lookup(received)(FromBigEndian(e))) == Renamed(ViewFd(fd), final, received)
  {
    GoodIsShort(final);
    if fd < 0 {
      BigEndianInverse(INVALID);
    } else {
      var (i, table') := Tabled(fd, table);
      assert table'[i] == fd && fd in table';
      EncodeFdKeeps(fd, table);
      PlaceStays(fd, table', final);
      assert final[i] == fd;
      BigEndianInverse(i);
    }
  }

  lemma {:induction false} EncodeBufferView(bytes: seq<Byte>, convert: nat -> CInt, table: seq<CInt>,
                                            final: seq<CInt>, received: seq<CInt>)
    requires |bytes| < SIZE_LIMIT && Good(table) && Received(final, received)
    requires EncodeBuffer(bytes, convert, table).1 <= final
    ensures View(EncodeBuffer(bytes, convert, table).0, Lookup(received)) == Renamed(View(bytes, convert), final, received)
    decreases |bytes|, 1
  {
    if |bytes| > 0 {
      if bytes[0] == TYPE_MAP || bytes[0] == TYPE_SEQ {
        EncodeFieldsView(bytes[1..], convert, table, final, received);
        var e := EncodeFields(bytes[1..], convert, table).0;
        assert ([bytes[0]] + e)[1..] == e;
      } else if bytes[0] == TYPE_FD && |bytes| == 5 {
        FdBufferView(bytes, convert, table, final, received);
      }
    }
  }

  lemma FdBufferView(bytes: seq<Byte>, convert: nat -> CInt, table: seq<CInt>, final: seq<CInt>, received: seq<CInt>)
    requires |bytes| == 5 && bytes[0] == TYPE_FD && Good(table) && Received(final, received)
    requires EncodeBuffer(bytes, convert, table).1 <= final
    ensures View(EncodeBuffer(bytes, convert, table).0, Lookup(received)) == Renamed(View(bytes, convert), final, received)
  {
    hide EncodeFd, FromBigEndian, EncodeFields;
    var fd := convert(FromBigEndian(bytes[1..]));
    EncodeFdView(fd, table, final, received);
    var e := EncodeFd(fd, table).0;
    assert ([bytes[0]] + e)[1..] == e;
  }

  lemma {:induction false} EncodeFieldsView(s: seq<Byte>, convert: nat -> CInt, table: seq<CInt>,
                                            final: seq<CInt>, received: seq<CInt>)
    requires |s| < SIZE_LIMIT && Good(table) && Received(final, received)
    requires EncodeFields(s, convert, table).1 <= final
    ensures var e := EncodeFields(s, convert, table).0;
      && ViewFields(e, Lookup(received)) == RenamedAll(ViewFields(s, convert), final, received)
      && TailOf(e) == TailOf(s)
    decreases |s|, 1
  {
    hide View, EncodeBuffer, Renamed, Good;
    match ParseLength(s)
    case None =>
    case Some((n, k)) => FirstFieldView(s, convert, table, final, received, n, k);
  }

  lemma {:induction false} FirstFieldView(s: seq<Byte>, convert: nat -> CInt, table: seq<CInt>,
                                          final: seq<CInt>, received: seq<CInt>, n: nat, k: nat)
    requires ParseLength(s) == Some((n, k)) && |s| < SIZE_LIMIT && Good(table) && Received(final, received)
    requires EncodeFields(s, convert, table).1 <= final
    ensures var e := EncodeFields(s, convert, table).0;
      && ViewFields(e, Lookup(received)) == RenamedAll(ViewFields(s, convert), final, received)
      && TailOf(e) == TailOf(s)
    decreases |s|, 0
  {
    hide View, ViewFields, TailOf, EncodeBuffer, EncodeFields, Renamed, RenamedAll, Good, ParseLength, Spelling,
      CountBuffer, CountFields;
    var x, rest := s[k..k + n], s[k + n..];
    var (e, table') := EncodeBuffer(x, convert, table);
    EncodeBufferKeeps(x, convert, table);
    EncodeFieldsKeeps(rest, convert, table');
    var r := EncodeFields(rest, convert, table').0;
    UnfoldFields(s, convert, table, n, k);
    EncodeBufferView(x, convert, table, final, received);
    EncodeFieldsView(rest, convert, table', final, received);
    FieldStep(n, e, r, Lookup(received));
    RenamedCons(View(x, convert), ViewFields(rest, convert), final, received);
  }

  lemma UnfoldFields(s: seq<Byte>, convert: nat -> CInt, table: seq<CInt>, n: nat, k: nat)
    requires ParseLength(s) == Some((n, k))
    ensures var x, rest := s[k..k + n], s[k + n..]; var (e, table') := EncodeBuffer(x, convert, table);
      && ViewFields(s, convert) == [View(x, convert)] + ViewFields(rest, convert)
      && TailOf(s) == TailOf(rest)
      && EncodeFields(s, convert, table) == (Spelling(n) + e + EncodeFields(rest, convert, table').0,
                                             EncodeFields(rest, convert, table').1)
  {
    hide View, EncodeBuffer, Spelling;
  }

  /** Subfields, put in front of more serialised fields, read back as the fields in front. */
  lemma {:induction false} EncodeSubfieldView(ad: Node, table: seq<CInt>, rest: seq<Byte>,
                                              final: seq<CInt>, received: seq<CInt>)
    requires Length(ad) < SIZE_LIMIT && Good(table) && Received(final, received)
    requires EncodeSubfield(ad, table).1 <= final
    ensures var e := EncodeSubfield(ad, table).0;
      && ViewFields(e + rest, Lookup(received))
         == [Renamed(ViewOf(ad), final, received)] + ViewFields(rest, Lookup(received))
      && TailOf(e + rest) == TailOf(rest)
    decreases ad, 1
  {
    EncodeView(ad, table, final, received);
    EncodeKeeps(ad, table);
    FieldStep(Length(ad), Encode(ad, table).0, rest, Lookup(received));
  }

  lemma {:induction false} EncodeItemsView(items: seq<Node>, table: seq<CInt>, final: seq<CInt>, received: seq<CInt>)
    requires ItemsLength(items) < SIZE_LIMIT && Good(table) && Received(final, received)
    requires EncodeItems(items, table).1 <= final
    ensures var e := EncodeItems(items, table).0;
      ViewFields(e, Lookup(received)) == RenamedAll(ViewItems(items), final, received) && TailOf(e) == []
    decreases items, 2
  {
    hide View, ViewFields, ViewOf, TailOf, EncodeSubfield, Renamed, RenamedAll, Good, CountFds, CountItems;
    if |items| == 0 {
      NoFields(Lookup(received), final, received);
    } else {
      var (e, table') := EncodeSubfield(items[0], table);
      EncodeSubfieldKeeps(items[0], table);
      EncodeItemsKeeps(items[1..], table');
      EncodeItemsView(items[1..], table', final, received);
      EncodeSubfieldView(items[0], table, EncodeItems(items[1..], table').0, final, received);
      RenamedCons(ViewOf(items[0]), ViewItems(items[1..]), final, received);
    }
  }

  lemma NoFields(convert: nat -> CInt, table: seq<CInt>, received: seq<CInt>)
    requires Received(table, received)
    ensures ViewFields([], convert) == [] && TailOf([]) == [] && RenamedAll([], table, received) == []
  {
  }

  lemma LengthInSubfield(ad: Node)
    ensures Length(ad) <= SubfieldLength(ad)
  {
  }

  lemma {:induction false} EncodeEntryView(entry: Entry, table: seq<CInt>, rest: seq<Byte>,
                                           final: seq<CInt>, received: seq<CInt>)
    requires EntryLength(entry) < SIZE_LIMIT && Good(table) && Received(final, received)
    requires EncodeEntry(entry, table).1 <= final
    ensures var e := EncodeEntry(entry, table).0;
      && ViewFields(e + rest, Lookup(received))
         == [Renamed(ViewOf(entry.key), final, received), Renamed(ViewOf(entry.value), final, received)]
            + ViewFields(rest, Lookup(received))
      && TailOf(e + rest) == TailOf(rest)
    decreases entry, 2
  {
    hide View, ViewFields, ViewOf, TailOf, EncodeSubfield, SubfieldLength, Renamed, Good, CountFds;
    var (k, table') := EncodeSubfield(entry.key, table);
    var (v, table'') := EncodeSubfield(entry.value, table');
    EncodeSubfieldKeeps(entry.key, table);
    EncodeSubfieldKeeps(entry.value, table');
    LengthInSubfield(entry.key);
    LengthInSubfield(entry.value);
    EncodeSubfieldView(entry.value, table', rest, final, received);
    EncodeSubfieldView(entry.key, table, v + rest, final, received);
    assert (k + v) + rest == k + (v + rest);
  }

  lemma RenamedEntry(entry: Entry, vs: seq<Value>, table: seq<CInt>, received: seq<CInt>)
    requires Received(table, received)
    ensures RenamedAll(ViewEntry(entry) + vs, table, received)
         == [Renamed(ViewOf(entry.key), table, received), Renamed(ViewOf(entry.value), table, received)]
            + RenamedAll(vs, table, received)
  {
    hide ViewOf, Renamed;
    var k, v := ViewOf(entry.key), ViewOf(entry.value);
    RenamedCons(k, [v] + vs, table, received);
    RenamedCons(v, vs, table, received);
    assert ViewEntry(entry) + vs == [k] + ([v] + vs);
  }

  lemma {:induction false} EncodeEntriesView(entries: seq<Entry>, table: seq<CInt>, final: seq<CInt>, received: seq<CInt>)
    requires EntriesLength(entries) < SIZE_LIMIT && Good(table) && Received(final, received)
    requires EncodeEntries(entries, table).1 <= final
    ensures var e := EncodeEntries(entries, table).0;
      ViewFields(e, Lookup(received)) == RenamedAll(ViewEntries(entries), final, received) && TailOf(e) == []
    decreases entries, 3
  {
    hide View, ViewFields, ViewOf, TailOf, EncodeEntry, ViewEntry, Renamed, RenamedAll, Good, CountEntry, CountEntries;
    if |entries| == 0 {
      NoFields(Lookup(received), final, received);
    } else {
      var (e, table') := EncodeEntry(entries[0], table);
      EncodeEntryKeeps(entries[0], table);
      EncodeEntriesKeeps(entries[1..], table');
      EncodeEntriesView(entries[1..], table', final, received);
      EncodeEntryView(entries[0], table, EncodeEntries(entries[1..], table').0, final, received);
      RenamedEntry(entries[0], ViewEntries(entries[1..]), final, received);
    }
  }

  /** Reading serialised bytes through the received table shows the tree, with received descriptors for the sent ones. */
  lemma {:induction false} EncodeView(ad: Node, table: seq<CInt>, final: seq<CInt>, received: seq<CInt>)
    requires Length(ad) < SIZE_LIMIT && Good(table) && Received(final, received)
    requires Encode(ad, table).1 <= final
    ensures View(Encode(ad, table).0, Lookup(received)) == Renamed(ViewOf(ad), final, received)
    decreases ad, 0
  {
    match ad
    case Buffer(bytes, convert) => EncodeBufferView(bytes, convert, table, final, received);
    case Binary(_) =>
    case Map(entries) =>
      EncodeEntriesView(entries, table, final, received);
      var e := EncodeEntries(entries, table).0;
      assert ([TYPE_MAP] + e)[1..] == e;
    case Seq(items) =>
      EncodeItemsView(items, table, final, received);
      var e := EncodeItems(items, table).0;
      assert ([TYPE_SEQ] + e)[1..] == e;
    case Str(_) =>
  }

  // ---------- The round trip ----------

  /** All valid descriptors of a value. */
  ghost function FdsOf(v: Value): set<CInt> {
    match v
    case Leaf(_) => {}
    case Fd(fd) => {fd}
    case BadFd => {}
    case Fields(_, fields, _) => FdsOfAll(fields)
  }

  ghost function FdsOfAll(vs: seq<Value>): set<CInt> {
    if |vs| == 0 then {} else FdsOf(vs[0]) + FdsOfAll(vs[1..])
  }

  /** Renaming with the table itself changes nothing in a value whose descriptors are all tabled. */
  lemma {:induction false} RenamedBySelf(v: Value, table: seq<CInt>)
    requires Received(table, table) && forall fd :: fd in FdsOf(v) ==> fd in table
    ensures Renamed(v, table, table) == v
  {
    match v
    case Leaf(_) =>
    case Fd(fd) => assert fd in FdsOf(v);
    case BadFd =>
    case Fields(_, fields, _) => RenamedAllBySelf(fields, table);
  }

  lemma {:induction false} RenamedAllBySelf(vs: seq<Value>, table: seq<CInt>)
    requires Received(table, table) && forall fd :: fd in FdsOfAll(vs) ==> fd in table
    ensures RenamedAll(vs, table, table) == vs
  {
    if |vs| > 0 {
      RenamedBySelf(vs[0], table);
      RenamedAllBySelf(vs[1..], table);
      assert vs == [vs[0]] + vs[1..];
    }
  }

  // ---------- What is in the table ----------

  lemma FdTabled(fd': CInt, table: seq<CInt>, fd: CInt)
    ensures fd in EncodeFd(fd', table).1 <==> fd in table || fd in FdsOf(ViewFd(fd'))
  {
  }

  /** The table that serialising makes holds the descriptors of the tree and what was there before, nothing else. */
  lemma {:induction false} BufferFdsTabled(bytes: seq<Byte>, convert: nat -> CInt, table: seq<CInt>, fd: CInt)
    ensures fd in EncodeBuffer(bytes, convert, table).1 <==> fd in table || fd in FdsOf(View(bytes, convert))
    decreases |bytes|, 1
  {
    if |bytes| > 0 && (bytes[0] == TYPE_MAP || bytes[0] == TYPE_SEQ) {
      FieldsFdsTabled(bytes[1..], convert, table, fd);
    } else if |bytes| == 5 && bytes[0] == TYPE_FD {
      FdTabled(convert(FromBigEndian(bytes[1..])), table, fd);
    }
  }

  lemma {:induction false} FieldsFdsTabled(s: seq<Byte>, convert: nat -> CInt, table: seq<CInt>, fd: CInt)
    ensures fd in EncodeFields(s, convert, table).1 <==> fd in table || fd in FdsOfAll(ViewFields(s, convert))
    decreases |s|, 0
  {
    hide View, EncodeBuffer, FdsOf, FdsOfAll, ParseLength;
    FdsOfNone();
    match ParseLength(s)
    case None =>
    case Some((n, k)) =>
      BufferFdsTabled(s[k..k + n], convert, table, fd);
      FieldsFdsTabled(s[k + n..], convert, EncodeBuffer(s[k..k + n], convert, table).1, fd);
      FdsOfCons(View(s[k..k + n], convert), ViewFields(s[k + n..], convert));
  }

  lemma FdsOfNone()
    ensures FdsOfAll([]) == {}
  {
  }

  lemma FdsOfCons(v: Value, vs: seq<Value>)
    ensures FdsOfAll([v] + vs) == FdsOf(v) + FdsOfAll(vs)
  {
    assert ([v] + vs)[1..] == vs;
  }

  lemma {:induction false} FdsTabled(ad: Node, table: seq<CInt>, fd: CInt)
    ensures fd in Encode(ad, table).1 <==> fd in table || fd in FdsOf(ViewOf(ad))
    decreases ad, 0
  {
    match ad
    case Buffer(bytes, convert) => BufferFdsTabled(bytes, convert, table, fd);
    case Binary(_) =>
    case Map(entries) => EntriesFdsTabled(entries, table, fd);
    case Seq(items) => ItemsFdsTabled(items, table, fd);
    case Str(_) =>
  }

  lemma {:induction false} ItemsFdsTabled(items: seq<Node>, table: seq<CInt>, fd: CInt)
    ensures fd in EncodeItems(items, table).1 <==> fd in table || fd in FdsOfAll(ViewItems(items))
    decreases items, 2
  {
    hide ViewOf, Encode, FdsOf, FdsOfAll;
    FdsOfNone();
    if |items| > 0 {
      FdsTabled(items[0], table, fd);
      ItemsFdsTabled(items[1..], EncodeSubfield(items[0], table).1, fd);
      FdsOfCons(ViewOf(items[0]), ViewItems(items[1..]));
    }
  }

  lemma {:induction false} EntriesFdsTabled(entries: seq<Entry>, table: seq<CInt>, fd: CInt)
    ensures fd in EncodeEntries(entries, table).1 <==> fd in table || fd in FdsOfAll(ViewEntries(entries))
    decreases entries, 3
  {
    hide ViewOf, Encode, FdsOf, FdsOfAll;
    FdsOfNone();
    if |entries| > 0 {
      var entry, vs := entries[0], ViewEntries(entries[1..]);
      EntryFdsTabled(entry, table, fd);
      EntriesFdsTabled(entries[1..], EncodeEntry(entry, table).1, fd);
      FdsOfCons(ViewOf(entry.value), vs);
      FdsOfCons(ViewOf(entry.key), [ViewOf(entry.value)] + vs);
      assert ViewEntries(entries) == [ViewOf(entry.key)] + ([ViewOf(entry.value)] + vs);
    }
  }

  lemma {:induction false} EntryFdsTabled(entry: Entry, table: seq<CInt>, fd: CInt)
    ensures fd in EncodeEntry(entry, table).1
       <==> fd in table || fd in FdsOf(ViewOf(entry.key)) || fd in FdsOf(ViewOf(entry.value))
    decreases entry, 2
  {
    hide ViewOf, Encode, FdsOf;
    FdsTabled(entry.key, table, fd);
    FdsTabled(entry.value, EncodeSubfield(entry.key, table).1, fd);
  }

  /** Reading through a table shows no descriptors but those in the table. */
  lemma {:induction false} ShownIsHeld(bytes: seq<Byte>, held: seq<CInt>, fd: CInt)
    requires fd in FdsOf(View(bytes, Lookup(held)))
    ensures fd in held
    decreases |bytes|, 1
  {
    if |bytes| > 0 && (bytes[0] == TYPE_MAP || bytes[0] == TYPE_SEQ) {
      ShownFieldIsHeld(bytes[1..], held, fd);
    }
  }

  lemma {:induction false} ShownFieldIsHeld(s: seq<Byte>, held: seq<CInt>, fd: CInt)
    requires fd in FdsOfAll(ViewFields(s, Lookup(held)))
    ensures fd in held
    decreases |s|, 0
  {
    hide View, FdsOf, FdsOfAll, ParseLength;
    FdsOfNone();
    match ParseLength(s)
    case None =>
    case Some((n, k)) =>
      FdsOfCons(View(s[k..k + n], Lookup(held)), ViewFields(s[k + n..], Lookup(held)));
      if fd in FdsOf(View(s[k..k + n], Lookup(held))) {
        ShownIsHeld(s[k..k + n], held, fd);
      } else {
        ShownFieldIsHeld(s[k + n..], held, fd);
      }
  }

  /** Serialise, then read back through the table made: the same value, descriptors included. */
  lemma RoundTrip(ad: Node)
    requires Length(ad) < SIZE_LIMIT
    ensures var (bytes, fds) := Encode(ad, []);
      && |bytes| == Length(ad) && Good(fds) && |fds| <= CountFds(ad)
      && View(bytes, Lookup(fds)) == ViewOf(ad)
  {
    var (bytes, fds) := Encode(ad, []);
    EncodeKeeps(ad, []);
    EncodeView(ad, [], fds, fds);
    forall fd | fd in FdsOf(ViewOf(ad))
      ensures fd in fds
    {
      FdsTabled(ad, [], fd);
    }
    RenamedBySelf(ViewOf(ad), fds);
  }

  /** The same through descriptors that were passed to another process and arrived under other numbers. */
  lemma RoundTripRenamed(ad: Node, received: seq<CInt>)
    requires Length(ad) < SIZE_LIMIT && Received(Encode(ad, []).1, received)
    ensures var (bytes, fds) := Encode(ad, []);
      View(bytes, Lookup(received)) == Renamed(ViewOf(ad), fds, received)
    ensures forall fd :: fd in FdsOf(ViewOf(ad)) ==> fd in Encode(ad, []).1
  {
    EncodeKeeps(ad, []);
    EncodeView(ad, [], Encode(ad, []).1, received);
    forall fd | fd in FdsOf(ViewOf(ad))
      ensures fd in Encode(ad, []).1
    {
      FdsTabled(ad, [], fd);
    }
  }

  /** With only the first n descriptors of the table the value shown is the same exactly if there are no more. */
  lemma ShownWithFirst(ad: Node, n: nat)
    requires Length(ad) < SIZE_LIMIT
    ensures var (bytes, fds) := Encode(ad, []);
      View(bytes, Lookup(if |fds| <= n then fds else fds[..n])) == ViewOf(ad) <==> |fds| <= n
  {
    hide View, ViewOf, Encode, FdsOf;
    var (bytes, fds) := Encode(ad, []);
    RoundTrip(ad);
    if n < |fds| {
      FdsTabled(ad, [], fds[n]);
      if fds[n] in FdsOf(View(bytes, Lookup(fds[..n]))) {
        ShownIsHeld(bytes, fds[..n], fds[n]);
      }
    }
  }
}
