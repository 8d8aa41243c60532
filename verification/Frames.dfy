/**
  Messages on a socket: an eight-byte length, the data, and descriptors that
  travel with the first byte. A socket is a queue of bytes.
 */
module Frames {
  import opened Subfield
  import opened Argdata
  import opened DigitLoops

  datatype Message = Message(data: seq<Byte>, fds: seq<CInt>)

  /** A byte in flight and the descriptors attached to it. */
  datatype Cell = Cell(byte: Byte, fds: seq<CInt>)

  ghost function Header(n: nat): (r: seq<Byte>)
    ensures |r| == 8
  {
    BigEndian(n / TWO32) + BigEndian(n % TWO32)
  }

  function HeaderLength(h: seq<Byte>): nat
    requires |h| == 8
  {
    FromBigEndian(h[..4]) * TWO32 + FromBigEndian(h[4..])
  }

  /** The most significant byte comes first. */
  lemma HeaderSpelledOut()
    ensures Header(0x0102_0304_0506_0708) == [1, 2, 3, 4, 5, 6, 7, 8]
  {
    assert BigEndian(0x0102_0304) == [1, 2, 3, 4] && BigEndian(0x0506_0708) == [5, 6, 7, 8];
  }

  lemma HeaderInverse(n: nat)
    requires n < SIZE_LIMIT
    ensures HeaderLength(Header(n)) == n
  {
    BigEndianInverse(n / TWO32);
    BigEndianInverse(n % TWO32);
    assert Header(n)[..4] == BigEndian(n / TWO32) && Header(n)[4..] == BigEndian(n % TWO32);
  }

  /** The bytes of a message on the wire. */
  ghost function Bytes(m: Message): (r: seq<Byte>)
    ensures |r| == 8 + |m.data|
  {
    Header(|m.data|) + m.data
  }

  /** Bytes of which the first carries descriptors. */
  ghost function Cells(bytes: seq<Byte>, fds: seq<CInt>): (r: seq<Cell>)
    ensures |r| == |bytes|
  {
    seq(|bytes|, i requires 0 <= i < |bytes| => Cell(bytes[i], if i == 0 then fds else []))
  }

  ghost function Frame(m: Message): (r: seq<Cell>)
    ensures |r| == 8 + |m.data|
  {
    Cells(Bytes(m), m.fds)
  }

  ghost function Stream(ms: seq<Message>): seq<Cell> {
    if |ms| == 0 then [] else Stream(ms[..|ms| - 1]) + Frame(ms[|ms| - 1])
  }

  lemma StreamAppend(ms: seq<Message>, m: Message)
    ensures Stream(ms + [m]) == Stream(ms) + Frame(m)
  {
    assert (ms + [m])[..|ms|] == ms;
  }

  /** Sending part of the bytes leaves the rest, without descriptors. */
  lemma CellsSplit(bytes: seq<Byte>, fds: seq<CInt>, n: nat)
    requires 1 <= n <= |bytes|
    ensures Cells(bytes, fds) == Cells(bytes[..n], fds) + Cells(bytes[n..], [])
  {
  }

  ghost function BytesOf(cells: seq<Cell>): (r: seq<Byte>)
    ensures |r| == |cells|
  {
    seq(|cells|, i requires 0 <= i < |cells| => cells[i].byte)
  }

  /** The stream, split after the first k messages. */
  lemma {:induction false} StreamSplit(ms: seq<Message>, k: nat)
    requires k < |ms|
    ensures exists rest :: Stream(ms) == Stream(ms[..k]) + Frame(ms[k]) + rest
  {
    if k == |ms| - 1 {
      assert Stream(ms) == Stream(ms[..k]) + Frame(ms[k]) + [];
    } else {
      var n := |ms| - 1;
      StreamSplit(ms[..n], k);
      assert ms[..n][..k] == ms[..k];
      var rest :| Stream(ms[..n]) == Stream(ms[..k]) + Frame(ms[k]) + rest;
      assert Stream(ms) == Stream(ms[..k]) + Frame(ms[k]) + (rest + Frame(ms[n]));
    }
  }

  lemma StreamLonger(ms: seq<Message>, k: nat)
    requires k < |ms|
    ensures |Stream(ms[..k])| + 8 + |ms[k].data| <= |Stream(ms)|
  {
    hide Stream, Frame;
    StreamSplit(ms, k);
    var rest :| Stream(ms) == Stream(ms[..k]) + Frame(ms[k]) + rest;
    assert |Stream(ms)| == |Stream(ms[..k])| + |Frame(ms[k])| + |rest|;
  }

  /**
    The next cells of a queue that continues the stream j cells into message k
    are those of the message, as long as they stay inside it.
   */
  lemma NextCells(ms: seq<Message>, k: nat, j: nat, queue: seq<Cell>, pending: seq<Cell>, n: nat)
    requires k < |ms| && n <= |queue| && j + n <= |Frame(ms[k])|
    requires Stream(ms[..k]) + Frame(ms[k])[..j] + queue + pending == Stream(ms)
    ensures queue[..n] == Frame(ms[k])[j..j + n]
    ensures Stream(ms[..k]) + Frame(ms[k])[..j] + queue[..n] == Stream(ms[..k]) + Frame(ms[k])[..j + n]
  {
    hide Stream, Frame;
    StreamSplit(ms, k);
    var rest :| Stream(ms) == Stream(ms[..k]) + Frame(ms[k]) + rest;
    SameContinuation(Stream(ms[..k]), Frame(ms[k]), rest, j, queue, pending, n);
  }

  lemma SameContinuation(a: seq<Cell>, f: seq<Cell>, rest: seq<Cell>, j: nat, queue: seq<Cell>, pending: seq<Cell>, n: nat)
    requires j + n <= |f| && n <= |queue| && a + f[..j] + queue + pending == a + f + rest
    ensures queue[..n] == f[j..j + n] && a + f[..j] + queue[..n] == a + f[..j + n]
  {
    forall i | 0 <= i < n
      ensures queue[i] == f[j + i]
    {
      assert (a + f[..j] + queue + pending)[|a| + j + i] == queue[i];
      assert (a + f + rest)[|a| + j + i] == f[j + i];
    }
    assert f[..j + n] == f[..j] + f[j..j + n];
  }

  /** There is always a message behind a queue that is not empty. */
  lemma MoreMessages(ms: seq<Message>, k: nat, queue: seq<Cell>, pending: seq<Cell>)
    requires k <= |ms| && Stream(ms[..k]) + queue + pending == Stream(ms) && |queue| > 0
    ensures k < |ms|
  {
    assert ms[..|ms|] == ms;
    assert |Stream(ms[..k]) + queue + pending| == |Stream(ms[..k])| + |queue| + |pending|;
  }
}
