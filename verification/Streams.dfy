/**
  A writer and a reader of framed messages over a socket that may transfer any
  number of bytes at a time, or fail and be tried again.
 */
module Streams {
  import opened Options
  import opened Subfield
  import opened Argdata
  import opened Serialize
  import opened Frames
  import opened DigitLoops

  /** What the kernel returns at the k-th call: so many bytes at most, or failure. */
  function Result(schedule: seq<nat>, k: nat): nat {
    if k < |schedule| then schedule[k] else 0
  }

  function Min(x: nat, y: nat): nat {
    if x < y then x else y
  }

  /** None of the calls from k0 to k fails. */
  ghost predicate Steady(schedule: seq<nat>, k0: nat, k: nat) {
    forall c :: k0 <= c < k ==> Result(schedule, c) > 0
  }

  /** The calls from k0 to k: none fails, or the last one does and nothing comes after it. */
  ghost predicate Called(schedule: seq<nat>, k0: nat, k: nat, failed: bool) {
    if failed then k0 < k && Steady(schedule, k0, k - 1) && Result(schedule, k - 1) == 0
    else k0 <= k && Steady(schedule, k0, k)
  }

  lemma CalledNone(schedule: seq<nat>, k: nat)
    ensures Called(schedule, k, k, false)
  {
  }

  lemma CalledOnce(schedule: seq<nat>, k0: nat, k: nat)
    requires Called(schedule, k0, k, false)
    ensures Called(schedule, k0, k + 1, Result(schedule, k) == 0)
  {
  }

  lemma CalledMore(schedule: seq<nat>, k0: nat, k1: nat, k: nat, failed: bool)
    requires Called(schedule, k0, k1, false) && Called(schedule, k1, k, failed)
    ensures Called(schedule, k0, k, failed)
  {
  }

  datatype Status = Failed | NotSocket | EndOfFile | Got

  /** A byte queue with descriptors attached to bytes; only a socket can carry descriptors. */
  class Socket {
    const isSocket: bool
    var queue: seq<Cell>
    var closed: bool
    ghost var past: seq<Cell>

    ghost predicate Valid()
      reads this
    {
      !isSocket ==> forall i :: 0 <= i < |queue| ==> queue[i].fds == []
    }

    constructor (isSocket: bool)
      ensures Valid() && queue == [] && past == [] && !closed && this.isSocket == isSocket
    {
      this.isSocket := isSocket;
      queue, closed, past := [], false, [];
    }

    /** sendmsg() or write(): takes some of the bytes; the descriptors go with the first. */
    method Send(bytes: seq<Byte>, fds: seq<CInt>, result: nat) returns (n: nat)
      requires Valid() && |bytes| > 0
      modifies this`queue
      ensures Valid() && n == if result == 0 || (|fds| > 0 && !isSocket) then 0 else Min(result, |bytes|)
      ensures queue == old(queue) + (if n == 0 then [] else Cells(bytes[..n], fds))
    {
      if result == 0 || (|fds| > 0 && !isSocket) {
        return 0;
      }
      n := Min(result, |bytes|);
      queue := queue + MakeCells(bytes[..n], fds);
    }

    /** read(): takes some of the bytes; descriptors attached to them are lost. */
    method Read(max: nat, result: nat) returns (status: Status, bytes: seq<Byte>)
      requires Valid() && max > 0
      modifies this`queue, this`past
      ensures Valid() && |bytes| == Min(result, Min(max, |old(queue)|)) && queue == old(queue)[|bytes|..]
      ensures past == old(past) + old(queue)[..|bytes|] && bytes == BytesOf(old(queue)[..|bytes|])
      ensures status == if result == 0 then Failed else if old(queue) != [] then Got else if closed then EndOfFile else Failed
    {
      if result == 0 {
        return Failed, [];
      }
      if |queue| == 0 {
        return (if closed then EndOfFile else Failed), [];
      }
      var n := Min(result, Min(max, |queue|));
      bytes := seq(n, i requires 0 <= i < n && n <= |queue| reads this => queue[i].byte);
      past := past + queue[..n];
      queue := queue[n..];
      status := Got;
    }

    /** recvmsg(): like read(), and hands over at most maxFds of the descriptors attached to the first byte. */
    method ReceiveMessage(max: nat, maxFds: nat, result: nat)
        returns (status: Status, bytes: seq<Byte>, fds: seq<CInt>, truncated: bool)
      requires Valid() && max > 0
      modifies this`queue, this`past
      ensures Valid() && |bytes| == (if isSocket then Min(result, Min(max, |old(queue)|)) else 0)
      ensures queue == old(queue)[|bytes|..]
      ensures past == old(past) + old(queue)[..|bytes|] && bytes == BytesOf(old(queue)[..|bytes|])
      ensures status == if !isSocket then NotSocket else if result == 0 then Failed
                        else if old(queue) != [] then Got else if closed then EndOfFile else Failed
      ensures status == Got ==> fds == Clip(old(queue)[0].fds, maxFds) && (truncated <==> |old(queue)[0].fds| > maxFds)
      ensures status != Got ==> fds == []
    {
      fds, truncated := [], false;
      if !isSocket {
        return NotSocket, [], fds, truncated;
      }
      if |queue| > 0 {
        fds := Clip(queue[0].fds, maxFds);
        truncated := |queue[0].fds| > maxFds;
      }
      status, bytes := Read(max, result);
      if status != Got {
        fds := [];
      }
    }
  }

  function MakeCells(bytes: seq<Byte>, fds: seq<CInt>): (r: seq<Cell>)
    ensures r == Cells(bytes, fds)
  {
    seq(|bytes|, i requires 0 <= i < |bytes| => Cell(bytes[i], if i == 0 then fds else []))
  }

  function Clip(fds: seq<CInt>, max: nat): (r: seq<CInt>)
    ensures |r| <= max && r <= fds && (|fds| <= max ==> r == fds)
  {
    if |fds| <= max then fds else fds[..max]
  }

  // ---------- The writer ----------

  ghost function MessageOf(ad: Node): Message {
    var (bytes, fds) := Encode(ad, []);
    Message(bytes, fds)
  }

  ghost function Messages(nodes: seq<Node>): (r: seq<Message>)
    ensures |r| == |nodes|
  {
    seq(|nodes|, i requires 0 <= i < |nodes| => MessageOf(nodes[i]))
  }

  class Writer {
    var next: Option<Node>
    var data: seq<Byte>
    var control: seq<CInt>
    ghost var nodes: seq<Node>

    /** Everything that has gone into the socket, and what is still to go, is the frames of the messages in order. */
    ghost predicate Valid(socket: Socket)
      reads this, socket
    {
      && socket.past + socket.queue + Cells(data, control) == Stream(Messages(nodes))
      && (|data| == 0 ==> control == [])
      && (next.Some? ==> |data| == 0 && Length(next.value) < SIZE_LIMIT)
      && forall i :: 0 <= i < |nodes| ==> Length(nodes[i]) < SIZE_LIMIT
    }

    constructor (socket: Socket)
      requires socket.past == [] && socket.queue == []
      ensures Valid(socket) && nodes == [] && next == None && data == []
    {
      next, data, control, nodes := None, [], [], [];
    }

    /** Starts a transmission; the previous one must be over. */
    method Set(ad: Node, socket: Socket)
      requires Valid(socket) && data == [] && next == None && Length(ad) < SIZE_LIMIT
      modifies this`next
      ensures Valid(socket) && next == Some(ad)
    {
      next := Some(ad);
    }

    /** Serialises the message that is to be sent, if any, behind its header. */
    method Prepare(socket: Socket)
      requires Valid(socket)
      modifies this
      ensures Valid(socket) && next == None && |data| == old(Unsent()) && (control != [] <==> old(Carrying()))
      ensures data == [] ==> control == []
      ensures nodes == if old(next).Some? then old(nodes) + [old(next).value] else old(nodes)
    {
      hide Encode, Stream, Frame, MessageOf;
      if next.None? {
        return;
      }
      var ad := next.value;
      data, control := FrameMessage(ad);
      next := None;
      StreamAppend(Messages(nodes), MessageOf(ad));
      assert Messages(nodes + [ad]) == Messages(nodes) + [MessageOf(ad)];
      nodes := nodes + [ad];
    }

    /** Bytes that are still to be sent, of the frame in flight or of the message to come. */
    ghost function Unsent(): nat
      reads this
    {
      |data| + if next.Some? then 8 + Length(next.value) else 0
    }

    /** Whether descriptors are still to be sent. */
    ghost predicate Carrying()
      reads this
    {
      control != [] || (next.Some? && MessageOf(next.value).fds != [])
    }

    /** One call that sends some of what is in flight, the descriptors with the first byte. */
    method SendPart(socket: Socket, result: nat) returns (n: nat)
      requires Valid(socket) && socket.Valid() && next == None && |data| > 0
      modifies this`data, this`control, socket`queue
      ensures Valid(socket) && socket.Valid()
      ensures n == if result == 0 || (old(control) != [] && !socket.isSocket) then 0 else Min(result, |old(data)|)
      ensures |data| == |old(data)| - n && control == (if n == 0 then old(control) else [])
      ensures data == [] ==> control == []
      ensures old(socket.queue) <= socket.queue && |socket.queue| == |old(socket.queue)| + n
    {
      hide Stream, MessageOf;
      n := socket.Send(data, control, result);
      if n > 0 {
        CellsSplit(data, control, n);
        data := data[n..];
        control := [];
      }
    }

    /**
      Sends until everything is gone or the kernel refuses. Unless a call fails,
      or there are descriptors and no socket to carry them, everything goes out.
     */
    method Push(socket: Socket, schedule: seq<nat>) returns (ok: bool, ghost calls: nat, ghost failed: bool)
      requires Valid(socket) && socket.Valid()
      modifies this, socket`queue
      ensures Valid(socket) && socket.Valid() && next == None && (ok <==> data == [])
      ensures nodes == if old(next).Some? then old(nodes) + [old(next).value] else old(nodes)
      ensures old(socket.queue) <= socket.queue && |data| + |socket.queue| == old(Unsent()) + |old(socket.queue)|
      ensures calls <= |socket.queue| - |old(socket.queue)| + 1
      ensures Carrying() <==> old(Carrying()) && socket.queue == old(socket.queue)
      ensures socket.isSocket || !old(Carrying()) ==> Called(schedule, 0, calls, failed) && (ok <==> !failed)
      ensures !socket.isSocket && old(Carrying()) ==> !ok && socket.queue == old(socket.queue)
    {
      hide Stream, MessageOf, Called, Valid;
      ghost var unsent, carrying, stuck := Unsent(), Carrying(), Carrying() && !socket.isSocket;
      Prepare(socket);
      ghost var sent := nodes;
      var k := 0;
      calls, failed := 0, false;
      CalledNone(schedule, 0);
      while |data| > 0
        invariant Valid(socket) && socket.Valid() && next == None && nodes == sent && !failed
        invariant old(socket.queue) <= socket.queue && |data| + |socket.queue| == unsent + |old(socket.queue)|
        invariant calls == k <= |socket.queue| - |old(socket.queue)| && Called(schedule, 0, k, false)
        invariant data == [] ==> control == []
        invariant stuck ==> control != [] && socket.queue == old(socket.queue)
        invariant !stuck ==> control == [] || socket.isSocket
        invariant control != [] <==> carrying && socket.queue == old(socket.queue)
        modifies this`data, this`control, socket`queue
        decreases |data|
      {
        var n := SendPart(socket, Result(schedule, k));
        CalledOnce(schedule, 0, k);
        calls, failed := k + 1, Result(schedule, k) == 0;
        if n == 0 {
          return false, calls, failed;
        }
        k := k + 1;
      }
      ok := true;
    }
  }

  /** The serialised tree behind its length, and its table of descriptors. */
  method FrameMessage(ad: Node) returns (data: seq<Byte>, control: seq<CInt>)
    requires Length(ad) < SIZE_LIMIT
    ensures Cells(data, control) == Frame(MessageOf(ad)) && |data| == 8 + Length(ad) && control == MessageOf(ad).fds
  {
    hide View, ViewOf, Encode, Lookup, Good, CountFds, BigEndian, Length;
    var count := CountNodeFds(ad);
    var length := Length(ad);
    var buffer := new Byte[length];
    var table := new CInt[count];
    var nfds := SerializeNode(ad, buffer, table);
    var header := MakeHeader(length);
    assert buffer[..length] == buffer[..];
    data := header + buffer[..];
    control := table[..nfds];
  }

  method MakeHeader(length: nat) returns (header: seq<Byte>)
    requires length < SIZE_LIMIT
    ensures header == Header(length)
  {
    var high, low := length / TWO32, length % TWO32;
    header := [(high / 0x100_0000) % 256, (high / 0x1_0000) % 256, (high / 256) % 256, high % 256,
               (low / 0x100_0000) % 256, (low / 0x1_0000) % 256, (low / 256) % 256, low % 256];
  }

  // ---------- The reader ----------

  /** What the reader receives of a message when it accepts at most maxFds descriptors. */
  ghost function Clipped(m: Message, maxFds: nat): Message {
    Message(m.data, Clip(m.fds, maxFds))
  }

  /** The valid descriptors in a table. */
  ghost function Held(fds: seq<CInt>): multiset<CInt> {
    if |fds| == 0 then multiset{}
    else Held(fds[..|fds| - 1]) + (if fds[|fds| - 1] >= 0 then multiset{fds[|fds| - 1]} else multiset{})
  }

  /** The valid descriptors of all these messages. */
  ghost function HeldInAll(ms: seq<Message>): multiset<CInt> {
    if |ms| == 0 then multiset{} else HeldInAll(ms[..|ms| - 1]) + Held(ms[|ms| - 1].fds)
  }

  lemma HeldInOneMore(ms: seq<Message>, m: Message)
    ensures HeldInAll(ms + [m]) == HeldInAll(ms) + Held(m.fds)
  {
    assert (ms + [m])[..|ms|] == ms;
  }

  /** The first place where a table has a descriptor. */
  ghost function First(fds: seq<CInt>, fd: CInt): (i: nat)
    requires fd in fds
    ensures i < |fds| && fds[i] == fd && fd !in fds[..i]
  {
    if fds[0] == fd then 0 else
      assert fd in fds[1..];
      var i := 1 + First(fds[1..], fd);
      assert fds[..i] == [fds[0]] + fds[1..][..i - 1];
      i
  }

  lemma FirstIs(fds: seq<CInt>, fd: CInt, i: nat)
    requires i < |fds| && fds[i] == fd && fd !in fds[..i]
    ensures fd in fds && First(fds, fd) == i
  {
    var j := First(fds, fd);
    assert fd !in fds[..j] && fd !in fds[..i];
  }

  /** A table after one of its descriptors was handed over. */
  ghost function Without(fds: seq<CInt>, fd: CInt): seq<CInt> {
    if fd in fds then fds[First(fds, fd) := -1] else fds
  }

  lemma WithoutIs(fds: seq<CInt>, fd: CInt, i: nat)
    requires i < |fds| && fds[i] == fd && fd !in fds[..i]
    ensures Without(fds, fd) == fds[i := -1]
  {
    hide First;
    FirstIs(fds, fd, i);
  }

  lemma NoneWithout(fds: seq<CInt>, fd: CInt)
    requires fd !in fds
    ensures Without(fds, fd) == fds
  {
  }

  /**
    In the middle of message k, or before it: what was taken from the socket is
    the first k frames and a part of the next, and header and data hold that part.
   */
  ghost predicate InFrame(past: seq<Cell>, all: seq<Message>, k: nat, header: seq<Byte>, data: seq<Byte>,
                          fds: seq<CInt>, maxFds: nat)
  {
    var j := |header| + |data|;
    && k <= |all| && |header| <= 8 && (|header| < 8 ==> data == [])
    && (j == 0 ==> past == Stream(all[..k]) && fds == [])
    && (j > 0 ==> && k < |all| && j <= |Frame(all[k])| && past == Stream(all[..k]) + Frame(all[k])[..j]
                  && header + data == Bytes(all[k])[..j] && fds == Clip(all[k].fds, maxFds))
  }

  lemma BetweenFrames(past: seq<Cell>, all: seq<Message>, k: nat, maxFds: nat)
    requires k <= |all| && past == Stream(all[..k])
    ensures InFrame(past, all, k, [], [], [], maxFds)
  {
  }

  /** A table of which some descriptors have been released. */
  ghost predicate Released(fds: seq<CInt>, original: seq<CInt>) {
    |fds| == |original| && forall i :: 0 <= i < |fds| ==> fds[i] == -1 || fds[i] == original[i]
  }

  lemma ReleasedMore(fds: seq<CInt>, original: seq<CInt>, i: nat)
    requires Released(fds, original) && i < |fds|
    ensures Released(fds[i := -1], original)
  {
  }

  /** Header and data grow by what is read, inside the frame. */
  lemma Grown(past: seq<Cell>, all: seq<Message>, k: nat, header: seq<Byte>, data: seq<Byte>, fds: seq<CInt>,
              maxFds: nat, queue: seq<Cell>, pending: seq<Cell>, n: nat, header': seq<Byte>, data': seq<Byte>)
    requires InFrame(past, all, k, header, data, fds, maxFds) && |header| + |data| > 0 && n <= |queue|
    requires past + queue + pending == Stream(all) && |header| + |data| + n <= |Frame(all[k])|
    requires header' + data' == header + data + BytesOf(queue[..n]) && |header'| <= 8 && (|header'| < 8 ==> data' == [])
    ensures InFrame(past + queue[..n], all, k, header', data', fds, maxFds)
  {
    hide Stream;
    var j, f := |header| + |data|, Frame(all[k]);
    NextCells(all, k, j, queue, pending, n);
    BytesOfFrame(all[k], j, n);
    assert |header' + data'| == |header'| + |data'|;
  }

  lemma BytesOfFrame(m: Message, j: nat, n: nat)
    requires j + n <= |Frame(m)|
    ensures BytesOf(Frame(m)[j..j + n]) == Bytes(m)[j..j + n]
    ensures Bytes(m)[..j] + BytesOf(Frame(m)[j..j + n]) == Bytes(m)[..j + n]
  {
  }

  /** The first bytes of a message bring its descriptors. */
  lemma Begun(past: seq<Cell>, all: seq<Message>, k: nat, queue: seq<Cell>, pending: seq<Cell>, n: nat, maxFds: nat)
    requires InFrame(past, all, k, [], [], [], maxFds) && 1 <= n <= |queue| && n <= 8
    requires past + queue + pending == Stream(all)
    ensures InFrame(past + queue[..n], all, k, BytesOf(queue[..n]), [], Clip(queue[0].fds, maxFds), maxFds)
    ensures k < |all| && queue[0].fds == all[k].fds
  {
    hide Stream, Frame, Bytes, BytesOf;
    MoreMessages(all, k, queue, pending);
    FirstCell(all[k]);
    FirstCells(past, all, k, queue, pending, n);
    var h := BytesOf(queue[..n]);
    assert h + [] == h;
  }

  lemma FirstCells(past: seq<Cell>, all: seq<Message>, k: nat, queue: seq<Cell>, pending: seq<Cell>, n: nat)
    requires k < |all| && past == Stream(all[..k]) && 1 <= n <= |queue| && n <= |Frame(all[k])|
    requires past + queue + pending == Stream(all)
    ensures queue[0] == Frame(all[k])[0] && past + queue[..n] == Stream(all[..k]) + Frame(all[k])[..n]
    ensures BytesOf(queue[..n]) == Bytes(all[k])[..n]
  {
    hide Stream, Frame, Bytes, BytesOf;
    var f := Frame(all[k]);
    assert past + f[..0] == past;
    NextCells(all, k, 0, queue, pending, n);
    BytesOfFrame(all[k], 0, n);
    assert queue[..n] == f[0..n];
    assert Bytes(all[k])[0..n] == Bytes(all[k])[..n];
    assert queue[0] == queue[..n][0];
  }

  lemma FirstCell(m: Message)
    ensures |Frame(m)| >= 8 && Frame(m)[0].fds == m.fds
  {
  }

  /** A complete header announces the length of the data. */
  lemma Announced(past: seq<Cell>, all: seq<Message>, k: nat, header: seq<Byte>, data: seq<Byte>, fds: seq<CInt>,
                  maxFds: nat)
    requires InFrame(past, all, k, header, data, fds, maxFds) && |header| == 8
    requires k < |all| ==> |all[k].data| < SIZE_LIMIT
    ensures k < |all| && HeaderLength(header) == |all[k].data| && |data| <= |all[k].data|
    ensures |data| == |all[k].data| ==> data == all[k].data && past == Stream(all[..k + 1])
  {
    hide Stream, BigEndian, HeaderLength;
    var m := all[k];
    HeaderInverse(|m.data|);
    assert header == (header + data)[..8] == Bytes(m)[..8] == Header(|m.data|);
    assert data == (header + data)[8..] == Bytes(m)[8..8 + |data|];
    if |data| == |m.data| {
      assert Frame(m)[..8 + |data|] == Frame(m);
      assert all[..k + 1] == all[..k] + [m];
      StreamAppend(all[..k], m);
    }
  }

  datatype Outcome = Done | Again | TooLarge | Broken

  /** What happens where the bytes end: wait for more, unless there are none to come. */
  ghost function Cut(closed: bool): Outcome {
    if closed then Broken else Again
  }

  /**
    How a call ends that no failure interrupts, j bytes into message m with n
    bytes in the queue: the queue runs dry, or the message has more descriptors
    or more data than accepted, or it is complete.
   */
  ghost function Ending(j: nat, m: Message, n: nat, closed: bool, carries: bool, maxData: nat, maxFds: nat): Outcome {
    if j == 0 && n == 0 then (if closed then Done else Again)
    else if j == 0 && carries && |m.fds| > maxFds then TooLarge
    else if j + n < 8 then Cut(closed)
    else if |m.data| > maxData then TooLarge
    else if j + n < 8 + |m.data| then Cut(closed)
    else Done
  }

  /** Each ending on its own: the four conditions exclude each other, and one of them holds. */
  lemma EndingIs(j: nat, m: Message, n: nat, closed: bool, carries: bool, maxData: nat, maxFds: nat)
    ensures var end, there := Ending(j, m, n, closed, carries, maxData, maxFds), j + n;
      var large := (j == 0 < there && carries && |m.fds| > maxFds) || (there >= 8 && |m.data| > maxData);
      && (end == TooLarge <==> large)
      && (end == Broken <==> closed && !large && 0 < there < 8 + |m.data|)
      && (end == Again <==> !closed && !large && there < 8 + |m.data|)
      && (end == Done <==> (closed && there == 0) || (!large && there >= 8 + |m.data|))
  {
  }

  /** Where the call that receives descriptors is the last one. */
  lemma EndingAtFirst(m: Message, n: nat, closed: bool, maxData: nat, maxFds: nat)
    ensures n == 0 ==> Ending(0, m, n, closed, true, maxData, maxFds) == if closed then Done else Again
    ensures n > 0 && |m.fds| > maxFds ==> Ending(0, m, n, closed, true, maxData, maxFds) == TooLarge
  {
  }

  /** Where it is not, or not made, the end is as far as before. */
  lemma EndingAfterFirst(j: nat, h: nat, m: Message, n: nat, closed: bool, carries: bool, maxData: nat, maxFds: nat)
    requires j <= h <= j + n && (if j == 0 && carries then 0 < h && |m.fds| <= maxFds else h == j)
    ensures Ending(j, m, n, closed, carries, maxData, maxFds) == Ending(h, m, n - (h - j), closed, false, maxData, maxFds)
  {
  }

  lemma EndingInHeader(h: nat, m: Message, n: nat, closed: bool, maxData: nat, maxFds: nat)
    ensures h + n < 8 ==>
      Ending(h, m, n, closed, false, maxData, maxFds) == if h == 0 && n == 0 && closed then Done else Cut(closed)
  {
  }

  /** With the header complete the end is as far as before. */
  lemma EndingInData(h: nat, d: nat, m: Message, n: nat, closed: bool, maxData: nat, maxFds: nat)
    requires h <= 8 <= h + n
    ensures Ending(h + d, m, n, closed, false, maxData, maxFds)
         == Ending(8 + d, m, n - (8 - h), closed, false, maxData, maxFds)
  {
  }

  lemma EndingOfData(d: nat, m: Message, n: nat, closed: bool, maxData: nat, maxFds: nat)
    ensures Ending(8 + d, m, n, closed, false, maxData, maxFds)
         == if |m.data| > maxData then TooLarge else if d + n < |m.data| then Cut(closed) else Done
  {
  }

  /** The next message, if there is one. */
  ghost function Upcoming(all: seq<Message>, k: nat): Message {
    if k < |all| then all[k] else Message([], [])
  }

  lemma UpcomingIs(all: seq<Message>, k: nat)
    requires k < |all|
    ensures Upcoming(all, k) == all[k]
  {
  }

  lemma NothingTaken(past: seq<Cell>, queue: seq<Cell>, n: nat)
    requires n == 0
    ensures past + queue[..n] == past && queue[n..] == queue
  {
  }

  /** The queue is what it was without its first n cells. */
  ghost predicate Taken(before: seq<Cell>, after: seq<Cell>, n: int) {
    0 <= n <= |before| && after == before[n..]
  }

  lemma TakenMore(before: seq<Cell>, queue: seq<Cell>, n: int, m: nat)
    requires Taken(before, queue, n) && m <= |queue|
    ensures Taken(before, queue[m..], n + m)
  {
  }

  lemma TakenTwice(before: seq<Cell>, queue: seq<Cell>, after: seq<Cell>, n: int, m: int)
    requires Taken(before, queue, n) && Taken(queue, after, m)
    ensures Taken(before, after, n + m)
  {
    TakenMore(before, queue, n, m);
  }

  lemma TakenNone(queue: seq<Cell>)
    ensures Taken(queue, queue, 0)
  {
  }

  lemma TakenLength(before: seq<Cell>, after: seq<Cell>, n: int)
    requires Taken(before, after, n)
    ensures 0 <= n <= |before| && |after| == |before| - n
  {
  }

  /** Taking cells from the queue does not change the stream. */
  lemma StillWhole(past: seq<Cell>, queue: seq<Cell>, pending: seq<Cell>, n: nat)
    requires n <= |queue|
    ensures (past + queue[..n]) + queue[n..] + pending == past + queue + pending
  {
    assert queue == queue[..n] + queue[n..];
  }

  lemma NoneHeld()
    ensures Held([]) == multiset{}
  {
  }

  lemma HeaderGrown(past: seq<Cell>, all: seq<Message>, k: nat, header: seq<Byte>, data: seq<Byte>, fds: seq<CInt>,
                    maxFds: nat, queue: seq<Cell>, pending: seq<Cell>, n: nat)
    requires InFrame(past, all, k, header, data, fds, maxFds) && |header| < 8 && 1 <= n <= |queue| && |header| + n <= 8
    requires past + queue + pending == Stream(all)
    requires header == [] ==> maxFds == 0 || queue[0].fds == []
    ensures InFrame(past + queue[..n], all, k, header + BytesOf(queue[..n]), data, fds, maxFds)
  {
    hide Stream, Frame, Bytes, BytesOf;
    var h := header + BytesOf(queue[..n]);
    assert h + data == h && header + data + BytesOf(queue[..n]) == h;
    if header == [] {
      Begun(past, all, k, queue, pending, n, maxFds);
      assert h == BytesOf(queue[..n]);
    } else {
      FirstCell(all[k]);
      Grown(past, all, k, header, data, fds, maxFds, queue, pending, n, h, data);
    }
  }

  lemma DataGrown(past: seq<Cell>, all: seq<Message>, k: nat, header: seq<Byte>, data: seq<Byte>, fds: seq<CInt>,
                  maxFds: nat, queue: seq<Cell>, pending: seq<Cell>, n: nat)
    requires InFrame(past, all, k, header, data, fds, maxFds) && |header| == 8 && n <= |queue|
    requires k < |all| && |data| + n <= |all[k].data| && past + queue + pending == Stream(all)
    ensures InFrame(past + queue[..n], all, k, header, data + BytesOf(queue[..n]), fds, maxFds)
  {
    hide Stream, Bytes, BytesOf;
    assert header + (data + BytesOf(queue[..n])) == header + data + BytesOf(queue[..n]);
    Grown(past, all, k, header, data, fds, maxFds, queue, pending, n, header, data + BytesOf(queue[..n]));
  }

  class Reader {
    const maxData: nat
    const maxFds: nat
    var finished: bool
    var header: seq<Byte>
    var data: seq<Byte>
    var fds: seq<CInt>
    ghost var delivered: seq<Message>
    ghost var received: multiset<CInt>
    ghost var closed: multiset<CInt>
    ghost var released: multiset<CInt>

    /** Every descriptor received is held, was closed, or was released, and only once. */
    ghost predicate Accounted()
      reads this
    {
      received == Held(fds) + closed + released
    }

    /** The descriptors received are those accepted of the messages delivered and of the one under way. */
    ghost predicate Complete()
      reads this
    {
      received == HeldInAll(delivered) + (if finished then multiset{} else Held(fds))
    }

    /** The messages delivered are the first ones sent, in order, with their own descriptors. */
    ghost predicate InOrder(all: seq<Message>)
      reads this
    {
      |delivered| <= |all| && forall i :: 0 <= i < |delivered| ==> delivered[i] == Clipped(all[i], maxFds)
    }

    ghost predicate Valid(past: seq<Cell>, all: seq<Message>)
      reads this
    {
      var k := |delivered|;
      && InOrder(all) && Accounted() && Complete()
      && (forall i :: 0 <= i < |all| ==> |all[i].data| < SIZE_LIMIT)
      && (!finished ==> InFrame(past, all, k, header, data, fds, maxFds))
      && (finished ==> past == Stream(all[..k]))
      && (finished ==> || (header == [] && fds == [])
                       || (|header| == 8 && k > 0 && data == delivered[k - 1].data && Released(fds, delivered[k - 1].fds)))
    }

    constructor (maxData: nat, maxFds: nat, socket: Socket)
      requires socket.past == []
      ensures Valid(socket.past, []) && !finished && delivered == [] && header == [] && data == [] && fds == []
      ensures received == multiset{} && closed == multiset{} && released == multiset{}
      ensures this.maxData == maxData && this.maxFds == maxFds
    {
      this.maxData, this.maxFds := maxData, maxFds;
      finished, header, data, fds := false, [], [], [];
      delivered, received, closed, released := [], multiset{}, multiset{}, multiset{};
    }

    /** Closes every descriptor that is still held. */
    method CloseAll()
      requires Accounted()
      modifies this`fds, this`closed
      ensures fds == [] && Accounted() && closed == old(closed) + Held(old(fds))
    {
      hide Held;
      var i := 0;
      ghost var table, before := fds, closed;
      HeldPrefix(table, 0);
      while i < |fds|
        invariant 0 <= i <= |table| && fds == table && closed == before + Held(table[..i])
      {
        HeldPrefix(table, i + 1);
        if fds[i] >= 0 {
          closed := closed + multiset{fds[i]};
        }
        i := i + 1;
      }
      assert table[..i] == table && table[..0] == [];
      fds := [];
    }

    /** Bytes of the current message that have been received. */
    ghost function Filled(): nat
      reads this
    {
      |header| + |data|
    }

    /** Bytes of the message to be delivered next that have been received. */
    ghost function Partial(): nat
      reads this
    {
      if finished then 0 else Filled()
    }

    /** Inside a message the header comes first. */
    lemma HeaderFirst(socket: Socket, all: seq<Message>, pending: seq<Cell>)
      requires Reading(socket, all, pending) && !finished
      ensures |header| <= 8 && (|header| < 8 ==> data == [])
    {
    }

    /** Before the first byte of a message nothing of it is there. */
    lemma NothingYet(socket: Socket, all: seq<Message>, pending: seq<Cell>)
      requires Reading(socket, all, pending) && !finished && header == []
      ensures data == [] && fds == [] && socket.past == Stream(all[..|delivered|]) && Held(fds) == multiset{}
      ensures InFrame(socket.past, all, |delivered|, [], [], [], maxFds)
    {
    }

    /** Gives up the message that was delivered before. */
    method Drop(socket: Socket, ghost all: seq<Message>, ghost pending: seq<Cell>)
      requires Reading(socket, all, pending) && finished
      modifies this`finished, this`header, this`data, this`fds, this`closed
      ensures Reading(socket, all, pending) && !finished && header == [] && data == [] && fds == []
      ensures closed == old(closed) + Held(old(fds))
    {
      hide Stream, InFrame, Held, HeldInAll, Released;
      NoneHeld();
      BetweenFrames(socket.past, all, |delivered|, maxFds);
      header := [];
      data := [];
      CloseAll();
      finished := false;
    }

    /** The same if a message was delivered. */
    method Discard(socket: Socket, ghost all: seq<Message>, ghost pending: seq<Cell>)
      requires Reading(socket, all, pending)
      modifies this`finished, this`header, this`data, this`fds, this`closed
      ensures Reading(socket, all, pending) && !finished && Filled() == old(Partial())
      ensures |header| <= 8 && (|header| < 8 ==> data == [])
      ensures closed == old(closed) + (if old(finished) then Held(old(fds)) else multiset{})
      ensures fds == if old(finished) then [] else old(fds)
    {
      hide Reading, Held;
      if finished {
        Drop(socket, all, pending);
      } else {
        HeaderFirst(socket, all, pending);
      }
    }

    /** Hands a descriptor over to the caller, for good. */
    method ReleaseFd(fd: CInt, socket: Socket, ghost all: seq<Message>) returns (found: bool)
      requires Valid(socket.past, all) && finished && fd >= 0
      modifies this`fds, this`released
      ensures Valid(socket.past, all) && (found <==> fd in old(fds))
      ensures fds == Without(old(fds), fd)
      ensures released == old(released) + (if found then multiset{fd} else multiset{})
    {
      hide Stream, Held, HeldInAll, InFrame, First, Without, Released;
      var i := IndexOf(fd);
      found := i < |fds|;
      if found {
        WithoutIs(fds, fd, i);
        HeldUpdate(fds, i);
        if |header| == 8 { ReleasedMore(fds, delivered[|delivered| - 1].fds, i); }
        released := released + multiset{fd};
        fds := fds[i := -1];
      } else {
        NoneWithout(fds, fd);
      }
    }

    method IndexOf(fd: CInt) returns (i: nat)
      ensures i <= |fds| && fd !in fds[..i] && (i < |fds| ==> fds[i] == fd) && (i < |fds| <==> fd in fds)
    {
      i := 0;
      while i < |fds| && fds[i] != fd
        invariant i <= |fds| && fd !in fds[..i]
      {
        assert fds[..i + 1] == fds[..i] + [fds[i]];
        i := i + 1;
      }
      assert i == |fds| ==> fds[..i] == fds;
    }

    /** The socket is where the reader stopped, and everything behind continues the stream. */
    ghost predicate Reading(socket: Socket, all: seq<Message>, pending: seq<Cell>)
      reads this, socket
    {
      Valid(socket.past, all) && socket.Valid() && socket.past + socket.queue + pending == Stream(all)
    }

    /** Before the first byte of a message: receives it together with the descriptors. */
    method ReceiveFirst(socket: Socket, result: nat, ghost all: seq<Message>, ghost pending: seq<Cell>)
        returns (stop: bool, outcome: Outcome)
      requires Reading(socket, all, pending) && !finished && header == [] && maxFds > 0
      modifies this`finished, this`header, this`fds, this`received, socket`queue, socket`past
      ensures Reading(socket, all, pending) && data == []
      ensures Taken(old(socket.queue), socket.queue, |header|) && |header| <= 8
      ensures finished <==> stop && outcome == Done
      ensures !socket.isSocket ==> !stop && header == []
      ensures socket.isSocket && result == 0 ==> stop && outcome == Again && header == []
      ensures socket.isSocket && result > 0 && old(socket.queue) == [] ==>
        stop && outcome == (if socket.closed then Done else Again) && header == []
      ensures socket.isSocket && result > 0 && old(socket.queue) != [] ==>
        && header != [] && |delivered| < |all| && outcome == TooLarge
        && (stop <==> |all[|delivered|].fds| > maxFds)
    {
      hide Stream, Frame, Bytes, BytesOf, InFrame, Held, HeldInAll;
      NothingYet(socket, all, pending);
      var status, bytes, got, truncated := socket.ReceiveMessage(8, maxFds, result);
      stop, outcome := true, Again;
      match status
      case Failed =>
        NothingTaken(old(socket.past), old(socket.queue), |bytes|);
      case NotSocket =>
        NothingTaken(old(socket.past), old(socket.queue), |bytes|);
        stop := false;
      case EndOfFile =>
        NothingTaken(old(socket.past), old(socket.queue), |bytes|);
        finished := true;
        outcome := Done;
      case Got =>
        Begun(old(socket.past), all, |delivered|, old(socket.queue), pending, |bytes|, maxFds);
        StillWhole(old(socket.past), old(socket.queue), pending, |bytes|);
        fds := got;
        received := received + Held(fds);
        header := bytes;
        stop, outcome := truncated, TooLarge;
    }

    /** The stream ends between messages. */
    method FinishEmpty(socket: Socket, ghost all: seq<Message>, ghost pending: seq<Cell>)
      requires Reading(socket, all, pending) && !finished && header == []
      modifies this`finished
      ensures Reading(socket, all, pending) && finished
    {
      hide Stream, Held, HeldInAll;
      NoneHeld();
      finished := true;
    }

    /** One read of header bytes. */
    method ReadHeaderPart(socket: Socket, result: nat, ghost all: seq<Message>, ghost pending: seq<Cell>)
        returns (status: Status)
      requires Reading(socket, all, pending) && !finished && |header| < 8
      requires header == [] ==> maxFds == 0 || !socket.isSocket
      modifies this`header, socket`queue, socket`past
      ensures Reading(socket, all, pending) && |header| <= 8
      ensures status == if result == 0 then Failed else if old(socket.queue) != [] then Got
                        else if socket.closed then EndOfFile else Failed
      ensures Taken(old(socket.queue), socket.queue, |header| - |old(header)|)
      ensures status == Got <==> |header| > |old(header)|
      ensures status != Got ==> header == old(header)
    {
      hide Stream, Frame, Bytes, BytesOf, Held, HeldInAll;
      var bytes;
      status, bytes := socket.Read(8 - |header|, result);
      if status == Got {
        HeaderGrown(old(socket.past), all, |delivered|, header, data, fds, maxFds, old(socket.queue), pending, |bytes|);
      } else {
        NothingTaken(old(socket.past), old(socket.queue), |bytes|);
      }
      StillWhole(old(socket.past), old(socket.queue), pending, |bytes|);
      header := header + bytes;
    }

    /** The rest of the header, or all of it where descriptors cannot come along. */
    method ReadHeader(socket: Socket, schedule: seq<nat>, k0: nat, ghost all: seq<Message>, ghost pending: seq<Cell>)
        returns (stop: bool, outcome: Outcome, k: nat, ghost failed: bool)
      requires Reading(socket, all, pending) && !finished && |header| <= 8
      requires header == [] ==> maxFds == 0 || !socket.isSocket
      modifies this`header, this`finished, socket`queue, socket`past
      ensures Reading(socket, all, pending) && |header| <= 8
      ensures Taken(old(socket.queue), socket.queue, |header| - |old(header)|)
      ensures finished <==> stop && outcome == Done
      ensures Called(schedule, k0, k, failed) && k <= k0 + (|header| - |old(header)|) + 1
      ensures !stop ==> |header| == 8 && k <= k0 + (|header| - |old(header)|)
      ensures failed ==> stop && outcome == Again
      ensures !failed ==> (stop <==> |old(header)| + |old(socket.queue)| < 8)
      ensures !failed && stop ==>
        outcome == Ending(|old(header)|, Upcoming(all, |delivered|), |old(socket.queue)|, socket.closed,
                          false, maxData, maxFds)
      ensures !failed && stop ==> (outcome == Broken ==> socket.closed) && (outcome == Again ==> !socket.closed)
      ensures stop && outcome == Done ==> header == [] && old(socket.queue) == [] && socket.closed
      ensures stop && !failed ==> socket.queue == []
      ensures stop ==> outcome != TooLarge
    {
      hide Stream, Taken, Called, Reading, Valid, Ending, Upcoming;
      k := k0;
      EndingInHeader(|header|, Upcoming(all, |delivered|), |socket.queue|, socket.closed, maxData, maxFds);
      TakenNone(socket.queue);
      CalledNone(schedule, k0);
      failed := false;
      while |header| < 8
        invariant Reading(socket, all, pending) && !finished && |header| <= 8
        invariant Taken(old(socket.queue), socket.queue, |header| - |old(header)|)
        invariant k0 <= k <= k0 + (|header| - |old(header)|) && Called(schedule, k0, k, false) && !failed
        invariant header == [] ==> maxFds == 0 || !socket.isSocket
        decreases 8 - |header|
      {
        ghost var before, queue := header, socket.queue;
        var status := ReadHeaderPart(socket, Result(schedule, k), all, pending);
        TakenTwice(old(socket.queue), queue, socket.queue, |before| - |old(header)|, |header| - |before|);
        TakenLength(old(socket.queue), queue, |before| - |old(header)|);
        CalledOnce(schedule, k0, k);
        failed := Result(schedule, k) == 0;
        k := k + 1;
        if status == Failed {
          return true, Again, k, failed;
        } else if status == EndOfFile {
          if |header| == 0 {
            FinishEmpty(socket, all, pending);
            return true, Done, k, failed;
          }
          return true, Broken, k, failed;
        }
      }
      TakenLength(old(socket.queue), socket.queue, |header| - |old(header)|);
      stop, outcome := false, Done;
    }

    /** One read of data bytes. */
    method ReadDataPart(socket: Socket, length: nat, result: nat, ghost all: seq<Message>, ghost pending: seq<Cell>)
        returns (status: Status)
      requires Reading(socket, all, pending) && !finished && |header| == 8
      requires |delivered| < |all| && |data| < length == |all[|delivered|].data|
      modifies this`data, socket`queue, socket`past
      ensures Reading(socket, all, pending) && |data| <= length
      ensures status == if result == 0 then Failed else if old(socket.queue) != [] then Got
                        else if socket.closed then EndOfFile else Failed
      ensures Taken(old(socket.queue), socket.queue, |data| - |old(data)|)
      ensures status == Got <==> |data| > |old(data)|
      ensures status != Got ==> data == old(data)
    {
      hide Stream, Frame, Bytes, BytesOf, Held, HeldInAll;
      var bytes;
      status, bytes := socket.Read(length - |data|, result);
      DataGrown(old(socket.past), all, |delivered|, header, data, fds, maxFds, old(socket.queue), pending, |bytes|);
      StillWhole(old(socket.past), old(socket.queue), pending, |bytes|);
      data := data + bytes;
    }

    /** The length that a complete header announces. */
    method DataLength(socket: Socket, ghost all: seq<Message>, ghost pending: seq<Cell>) returns (length: nat)
      requires Reading(socket, all, pending) && !finished && |header| == 8
      ensures |delivered| < |all| && |data| <= length == |all[|delivered|].data|
    {
      Announced(socket.past, all, |delivered|, header, data, fds, maxFds);
      length := HeaderLength(header);
    }

    /** All the data is there: the message is delivered. */
    method Deliver(socket: Socket, ghost all: seq<Message>, ghost pending: seq<Cell>)
      requires Reading(socket, all, pending) && !finished && |header| == 8
      requires |delivered| < |all| && |data| == |all[|delivered|].data|
      modifies this`finished, this`delivered
      ensures Reading(socket, all, pending) && finished
      ensures delivered == old(delivered) + [Clipped(all[|old(delivered)|], maxFds)]
      ensures fds == Clip(all[|old(delivered)|].fds, maxFds)
    {
      hide Stream, Frame, Bytes, Held, HeldInAll, HeaderLength;
      Announced(socket.past, all, |delivered|, header, data, fds, maxFds);
      HeldInOneMore(delivered, Clipped(all[|delivered|], maxFds));
      delivered := delivered + [Clipped(all[|delivered|], maxFds)];
      finished := true;
    }

    /** The data that the header announces. */
    method ReadData(socket: Socket, schedule: seq<nat>, k0: nat, ghost all: seq<Message>, ghost pending: seq<Cell>)
        returns (outcome: Outcome, k: nat, ghost failed: bool)
      requires Reading(socket, all, pending) && !finished && |header| == 8
      modifies this`data, this`finished, this`delivered, socket`queue, socket`past
      ensures Reading(socket, all, pending) && |old(delivered)| < |all|
      ensures Taken(old(socket.queue), socket.queue, |data| - |old(data)|)
      ensures finished <==> outcome == Done
      ensures outcome != Done ==> delivered == old(delivered)
      ensures outcome == Done ==> delivered == old(delivered) + [Clipped(all[|old(delivered)|], maxFds)]
      ensures outcome == Done ==>
        |data| == |all[|old(delivered)|].data| <= maxData && fds == Clip(all[|old(delivered)|].fds, maxFds)
      ensures Called(schedule, k0, k, failed) && k <= k0 + (|data| - |old(data)|) + 1
      ensures failed ==> outcome == Again
      ensures !failed ==>
        outcome == Ending(8 + |old(data)|, Upcoming(all, |old(delivered)|), |old(socket.queue)|, socket.closed,
                          false, maxData, maxFds)
      ensures !failed ==> (outcome == Broken ==> socket.closed) && (outcome == Again ==> !socket.closed)
      ensures !failed && outcome != Done && outcome != TooLarge ==> socket.queue == []
    {
      hide Stream, Clipped, Clip, Taken, Called, Reading, Valid, Ending, Upcoming;
      var length := DataLength(socket, all, pending);
      k := k0;
      UpcomingIs(all, |delivered|);
      EndingOfData(|data|, all[|delivered|], |socket.queue|, socket.closed, maxData, maxFds);
      TakenNone(socket.queue);
      CalledNone(schedule, k0);
      failed := false;
      if length > maxData {
        return TooLarge, k, failed;
      }
      while |data| < length
        invariant Reading(socket, all, pending) && !finished && delivered == old(delivered) && |data| <= length
        invariant Taken(old(socket.queue), socket.queue, |data| - |old(data)|)
        invariant k0 <= k <= k0 + (|data| - |old(data)|) && Called(schedule, k0, k, false) && !failed
        decreases length - |data|
      {
        ghost var before, queue := data, socket.queue;
        var status := ReadDataPart(socket, length, Result(schedule, k), all, pending);
        TakenTwice(old(socket.queue), queue, socket.queue, |before| - |old(data)|, |data| - |before|);
        TakenLength(old(socket.queue), queue, |before| - |old(data)|);
        CalledOnce(schedule, k0, k);
        failed := Result(schedule, k) == 0;
        k := k + 1;
        if status == Failed {
          return Again, k, failed;
        } else if status == EndOfFile {
          return Broken, k, failed;
        }
      }
      TakenLength(old(socket.queue), socket.queue, |data| - |old(data)|);
      Deliver(socket, all, pending);
      outcome := Done;
    }

    /** The rest of a message, apart from the call that receives descriptors. */
    method ReadMessage(socket: Socket, schedule: seq<nat>, k0: nat, ghost all: seq<Message>, ghost pending: seq<Cell>)
        returns (outcome: Outcome, k: nat, ghost failed: bool)
      requires Reading(socket, all, pending) && !finished && |header| <= 8 && (|header| < 8 ==> data == [])
      requires header == [] ==> maxFds == 0 || !socket.isSocket
      modifies this`header, this`data, this`finished, this`delivered, socket`queue, socket`past
      ensures Reading(socket, all, pending) && (finished <==> outcome == Done)
      ensures outcome != Done ==> delivered == old(delivered)
      ensures outcome == Done && header == [] ==>
        delivered == old(delivered) && old(socket.queue) == [] && socket.closed && Filled() == 0
      ensures outcome == Done && header != [] ==>
        && |old(delivered)| < |all| && delivered == old(delivered) + [Clipped(all[|old(delivered)|], maxFds)]
        && Filled() == 8 + |all[|old(delivered)|].data| <= 8 + maxData && fds == Clip(all[|old(delivered)|].fds, maxFds)
      ensures Taken(old(socket.queue), socket.queue, Filled() - old(Filled()))
      ensures Called(schedule, k0, k, failed) && k <= k0 + Filled() - old(Filled()) + 1
      ensures failed ==> outcome == Again
      ensures !failed ==>
        outcome == Ending(old(Filled()), Upcoming(all, |old(delivered)|), |old(socket.queue)|, socket.closed,
                          false, maxData, maxFds)
      ensures !failed ==> (outcome == Broken ==> socket.closed) && (outcome == Again ==> !socket.closed)
      ensures !failed && (outcome == Again || outcome == Broken) ==> socket.queue == []
      ensures outcome == TooLarge ==> Filled() > 0
    {
      hide Stream, Clipped, Clip, Called, Taken, Ending, Cut, Reading, Valid, Upcoming;
      ghost var h, d, n := |header|, |data|, |socket.queue|;
      var stop;
      stop, outcome, k, failed := ReadHeader(socket, schedule, k0, all, pending);
      if stop {
        return outcome, k, failed;
      }
      ghost var k1, queue := k, socket.queue;
      TakenLength(old(socket.queue), queue, 8 - h);
      EndingInData(h, d, Upcoming(all, |delivered|), n, socket.closed, maxData, maxFds);
      outcome, k, failed := ReadData(socket, schedule, k, all, pending);
      TakenTwice(old(socket.queue), queue, socket.queue, 8 - h, |data| - d);
      CalledMore(schedule, k0, k1, k, failed);
    }

    /**
      Calls that count for nothing: asking a file that is no socket for
      descriptors fails, and the reader goes on without.
     */
    ghost function Wasted(socket: Socket): nat
      reads this
    {
      if Partial() == 0 && maxFds > 0 && !socket.isSocket then 1 else 0
    }

    /** The next message, once nothing is left of the last one. */
    method Resume(socket: Socket, schedule: seq<nat>, ghost all: seq<Message>, ghost pending: seq<Cell>)
        returns (outcome: Outcome, ghost calls: nat, ghost failed: bool)
      requires Reading(socket, all, pending) && !finished && |header| <= 8 && (|header| < 8 ==> data == [])
      modifies this`header, this`data, this`fds, this`finished, this`delivered, this`received, socket`queue, socket`past
      ensures Reading(socket, all, pending) && (finished <==> outcome == Done)
      ensures outcome != Done ==> delivered == old(delivered)
      ensures outcome == Done && header == [] ==>
        delivered == old(delivered) && old(socket.queue) == [] && socket.closed && Filled() == 0
      ensures outcome == Done && header != [] ==>
        && |old(delivered)| < |all| && delivered == old(delivered) + [Clipped(all[|old(delivered)|], maxFds)]
        && Filled() == 8 + |all[|old(delivered)|].data| <= 8 + maxData && fds == Clip(all[|old(delivered)|].fds, maxFds)
      ensures Taken(old(socket.queue), socket.queue, Filled() - old(Filled()))
      ensures Called(schedule, old(Wasted(socket)), calls, failed) && calls <= Filled() - old(Filled()) + 2
      ensures failed ==> outcome == Again
      ensures !failed ==>
        outcome == Ending(old(Filled()), Upcoming(all, |old(delivered)|), |old(socket.queue)|, socket.closed,
                          socket.isSocket && maxFds > 0, maxData, maxFds)
      ensures !failed && (outcome == Again || outcome == Broken) ==> socket.queue == []
      ensures outcome == TooLarge ==> Filled() > 0
    {
      hide Stream, Clipped, Clip, Held, Taken, Called, Reading, Valid, Ending, Cut, Upcoming;
      ghost var j, m, n, carries := Filled(), Upcoming(all, |delivered|), |socket.queue|, socket.isSocket && maxFds > 0;
      EndingAtFirst(m, n, socket.closed, maxData, maxFds);
      var k := 0;
      ghost var queue := socket.queue;
      TakenNone(queue);
      CalledNone(schedule, 0);
      CalledNone(schedule, 1);
      if |header| == 0 && maxFds > 0 {
        var stop;
        stop, outcome := ReceiveFirst(socket, Result(schedule, k), all, pending);
        CalledOnce(schedule, 0, 0);
        k := k + 1;
        queue := socket.queue;
        TakenLength(old(socket.queue), queue, |header|);
        if header != [] {
          UpcomingIs(all, |delivered|);
        }
        if stop {
          return outcome, k, Result(schedule, 0) == 0;
        }
      }
      ghost var k1, filled := k, Filled();
      EndingAfterFirst(j, filled, m, n, socket.closed, carries, maxData, maxFds);
      outcome, k, failed := ReadMessage(socket, schedule, k, all, pending);
      TakenLength(queue, socket.queue, Filled() - filled);
      TakenTwice(old(socket.queue), queue, socket.queue, filled - j, Filled() - filled);
      CalledMore(schedule, old(Wasted(socket)), k1, k, failed);
      calls := k;
    }

    /**
      Reads the next message, as far as the socket gives it. Done means that the
      next message in order was delivered, or that the stream ended between
      messages; otherwise a later call goes on where this one stopped. Only a
      call that fails keeps the reader from getting as far as the queue goes.
     */
    method Pull(socket: Socket, schedule: seq<nat>, ghost all: seq<Message>, ghost pending: seq<Cell>)
        returns (outcome: Outcome, ghost calls: nat, ghost failed: bool)
      requires Reading(socket, all, pending)
      modifies this, socket`queue, socket`past
      ensures Reading(socket, all, pending) && (finished <==> outcome == Done)
      ensures outcome != Done ==> delivered == old(delivered)
      ensures outcome == Done && header == [] ==>
        delivered == old(delivered) && old(socket.queue) == [] && socket.closed && Filled() == 0
      ensures outcome == Done && header != [] ==>
        && |old(delivered)| < |all| && delivered == old(delivered) + [Clipped(all[|old(delivered)|], maxFds)]
        && Filled() == 8 + |all[|old(delivered)|].data| <= 8 + maxData && fds == Clip(all[|old(delivered)|].fds, maxFds)
      ensures released == old(released)
      ensures closed == old(closed) + (if old(finished) then Held(old(fds)) else multiset{})
      ensures Taken(old(socket.queue), socket.queue, Filled() - old(Partial()))
      ensures Called(schedule, old(Wasted(socket)), calls, failed) && calls <= Filled() - old(Partial()) + 2
      ensures failed ==> outcome == Again
      ensures !failed ==>
        outcome == Ending(old(Partial()), Upcoming(all, |old(delivered)|), |old(socket.queue)|, socket.closed,
                          socket.isSocket && maxFds > 0, maxData, maxFds)
      ensures !failed && (outcome == Again || outcome == Broken) ==> socket.queue == []
      ensures outcome == TooLarge ==> Filled() > 0
      ensures !failed ==>
        var there, m := old(Partial()) + |old(socket.queue)|, Upcoming(all, |old(delivered)|);
        var large := || (old(Partial()) == 0 < there && socket.isSocket && |m.fds| > maxFds > 0)
                     || (there >= 8 && |m.data| > maxData);
        && (outcome == TooLarge <==> large)
        && (outcome == Broken <==> socket.closed && !large && 0 < there < 8 + |m.data|)
        && (outcome == Again <==> !socket.closed && !large && there < 8 + |m.data|)
        && (outcome == Done <==> (socket.closed && there == 0) || (!large && there >= 8 + |m.data|))
    {
      hide Stream, Clipped, Clip, Held, Taken, Called, Reading, Valid, Ending, Cut, Upcoming;
      EndingIs(Partial(), Upcoming(all, |delivered|), |socket.queue|, socket.closed, socket.isSocket && maxFds > 0,
               maxData, maxFds);
      Discard(socket, all, pending);
      outcome, calls, failed := Resume(socket, schedule, all, pending);
    }

    /** Closes what is left when the reader is destroyed. */
    method Free()
      requires Accounted()
      modifies this`fds, this`closed
      ensures received == closed + released && closed == old(closed) + Held(old(fds))
    {
      CloseAll();
      NoneHeld();
    }

    /** Between deliveries the table is that of the message under way, if any. */
    lemma TableUnderWay(socket: Socket, all: seq<Message>, pending: seq<Cell>)
      requires Reading(socket, all, pending) && (finished ==> header == [])
      ensures Partial() == 0 ==> fds == []
      ensures Partial() > 0 ==> |delivered| < |all| && fds == Clip(all[|delivered|].fds, maxFds)
    {
    }
  }

  lemma HeldPrefix(fds: seq<CInt>, i: nat)
    requires i <= |fds|
    ensures Held(fds[..0]) == multiset{}
    ensures i > 0 ==>
      Held(fds[..i]) == Held(fds[..i - 1]) + (if fds[i - 1] >= 0 then multiset{fds[i - 1]} else multiset{})
  {
    if i > 0 {
      assert fds[..i][..i - 1] == fds[..i - 1];
    }
  }

  lemma {:induction false} HeldUpdate(fds: seq<CInt>, i: nat)
    requires i < |fds| && fds[i] >= 0
    ensures Held(fds) == Held(fds[i := -1]) + multiset{fds[i]}
  {
    var n := |fds| - 1;
    if i < n {
      HeldUpdate(fds[..n], i);
      assert fds[i := -1][..n] == fds[..n][i := -1];
    } else {
      assert fds[i := -1][..n] == fds[..n];
    }
  }
}
