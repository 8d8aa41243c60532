/**
  Whole runs: any interleaving of calls to a writer and a reader at the two
  ends of a socket, with any partial transfers and failures.
 */
module StreamRuns {
  import opened Options
  import opened Subfield
  import opened Argdata
  import opened Frames
  import opened Streams

  datatype Action =
    | Set(ad: Node)
    | Push(schedule: seq<nat>)
    | Pull(schedule: seq<nat>)
    | Release(fd: CInt)
    | CloseWriter

  // ---------- Both ends together ----------

  /** The reader is as valid for a stream that goes on with more messages. */
  lemma MoreToCome(reader: Reader, past: seq<Cell>, all: seq<Message>, m: Message)
    requires reader.Valid(past, all) && |m.data| < SIZE_LIMIT
    ensures reader.Valid(past, all + [m])
  {
    hide Stream, Frame, Bytes;
    var k := |reader.delivered|;
    assert (all + [m])[..k] == all[..k];
  }

  lemma DataFits(ad: Node)
    requires Length(ad) < SIZE_LIMIT
    ensures |MessageOf(ad).data| == Length(ad)
  {
    EncodeKeeps(ad, []);
  }

  /** The invariant holds at both ends of one socket. */
  ghost predicate Connected(writer: Writer, socket: Socket, reader: Reader)
    reads writer, socket, reader
  {
    && writer.Valid(socket)
    && reader.Reading(socket, Messages(writer.nodes), Cells(writer.data, writer.control))
  }

  /** What has been put in the writer's hands: started or about to start. */
  ghost function Accepted(writer: Writer): seq<Node>
    reads writer
  {
    writer.nodes + (if writer.next.Some? then [writer.next.value] else [])
  }

  /** What a socket carries and a reader accepts. */
  datatype Setting = Setting(isSocket: bool, maxData: nat, maxFds: nat)

  ghost predicate Has(setting: Setting, socket: Socket, reader: Reader)
  {
    setting == Setting(socket.isSocket, reader.maxData, reader.maxFds)
  }

  /**
    How far both ends are, in messages and bytes, and what has become of the
    descriptors: the reader's table, those it has shut and those handed over.
   */
  datatype Snapshot = Snapshot(accepted: seq<Node>, unsent: nat, carrying: bool, queued: nat, closed: bool,
                               delivered: nat, partial: nat, finished: bool,
                               table: seq<CInt>, shut: multiset<CInt>, released: multiset<CInt>)

  const START: Snapshot := Snapshot([], 0, false, 0, false, 0, 0, false, [], multiset{}, multiset{})

  ghost function Now(writer: Writer, socket: Socket, reader: Reader): Snapshot
    reads writer, socket, reader
  {
    Snapshot(Accepted(writer), writer.Unsent(), writer.Carrying(), |socket.queue|, socket.closed,
             |reader.delivered|, reader.Partial(), reader.finished, reader.fds, reader.closed, reader.released)
  }

  // ---------- What each call does ----------

  /** A message is accepted exactly if no other is under way and it is not too long. */
  ghost function AfterSet(s: Snapshot, ad: Node): Snapshot {
    if s.unsent == 0 && Length(ad) < SIZE_LIMIT
    then s.(accepted := s.accepted + [ad], unsent := 8 + Length(ad), carrying := MessageOf(ad).fds != [])
    else s
  }

  /** Bytes move from the writer to the socket: all of them, unless a call fails or descriptors cannot go. */
  ghost predicate Pushed(setting: Setting, schedule: seq<nat>, s: Snapshot, t: Snapshot) {
    && t.unsent <= s.unsent && t.unsent + t.queued == s.unsent + s.queued
    && t == s.(unsent := t.unsent, queued := t.queued, carrying := s.carrying && t.unsent == s.unsent)
    && (!setting.isSocket && s.carrying ==> t.unsent == s.unsent)
    && ((setting.isSocket || !s.carrying) && Steady(schedule, 0, s.unsent) ==> t.unsent == 0)
  }

  ghost function Coming(s: Snapshot): Message {
    if s.delivered < |s.accepted| then MessageOf(s.accepted[s.delivered]) else Message([], [])
  }

  /** How a call of the reader ends that no failure interrupts. */
  ghost function EndingOf(setting: Setting, s: Snapshot): Outcome {
    Ending(s.partial, Coming(s), s.queued, s.closed, setting.isSocket && setting.maxFds > 0,
           setting.maxData, setting.maxFds)
  }

  lemma EndingOfIs(setting: Setting, s: Snapshot)
    ensures var end, there, m := EndingOf(setting, s), s.partial + s.queued, Coming(s);
      var large := || (s.partial == 0 < there && setting.isSocket && |m.fds| > setting.maxFds > 0)
                   || (there >= 8 && |m.data| > setting.maxData);
      && (end == TooLarge <==> large)
      && (end == Broken <==> s.closed && !large && 0 < there < 8 + |m.data|)
      && (end == Again <==> !s.closed && !large && there < 8 + |m.data|)
      && (end == Done <==> (s.closed && there == 0) || (!large && there >= 8 + |m.data|))
  {
    hide Ending, Coming;
    EndingIs(s.partial, Coming(s), s.queued, s.closed, setting.isSocket && setting.maxFds > 0,
             setting.maxData, setting.maxFds);
  }

  /** What the reader still holds of the message it delivered last. */
  ghost function Leftover(s: Snapshot): multiset<CInt> {
    if s.finished then Held(s.table) else multiset{}
  }

  /**
    What a pull does to the descriptors: what is left of the last message is
    shut, nothing else is, and the table is that of the message now delivered or
    under way, as far as accepted.
   */
  ghost predicate Handled(setting: Setting, s: Snapshot, t: Snapshot) {
    && t.shut == s.shut + Leftover(s) && t.released == s.released
    && t.table == if t.delivered != s.delivered || t.partial > 0 then Clip(Coming(s).fds, setting.maxFds) else []
  }

  /** Bytes move from the socket to the reader, up to the end of the next message, which is then delivered. */
  ghost predicate Pulled(setting: Setting, schedule: seq<nat>, s: Snapshot, t: Snapshot) {
    var taken := s.queued - t.queued;
    && taken >= 0 && Handled(setting, s, t)
    && t == s.(queued := t.queued, delivered := t.delivered, partial := t.partial, finished := t.finished,
               table := t.table, shut := t.shut)
    && (t.delivered == s.delivered ==> t.partial == s.partial + taken)
    && (t.delivered == s.delivered && t.finished ==> s.queued == 0 && s.partial == 0 && s.closed)
    && (t.delivered != s.delivered ==>
          && t.delivered == s.delivered + 1 <= |s.accepted| && t.partial == 0 && t.finished
          && s.partial + taken == 8 + Length(s.accepted[s.delivered]) <= 8 + setting.maxData)
    && (Steady(schedule, 0, s.queued + 2) ==>
          var ending := EndingOf(setting, s);
          && (t.finished <==> ending == Done)
          && (t.delivered == s.delivered + 1 <==> ending == Done && s.partial + s.queued > 0)
          && (ending == Again || ending == Broken ==> t.queued == 0)
          && (ending == TooLarge ==> t.partial > 0))
  }

  /** A descriptor of a delivered message is handed over, once. */
  ghost function AfterRelease(s: Snapshot, fd: CInt): Snapshot {
    if s.finished && fd >= 0 && fd in s.table
    then s.(table := Without(s.table, fd), released := s.released + multiset{fd})
    else s
  }

  /** What an action does to both ends. */
  ghost predicate Follows(setting: Setting, action: Action, s: Snapshot, t: Snapshot) {
    match action
    case Set(ad) => t == AfterSet(s, ad)
    case Push(schedule) => Pushed(setting, schedule, s, t)
    case Pull(schedule) => Pulled(setting, schedule, s, t)
    case Release(fd) => t == AfterRelease(s, fd)
    case CloseWriter => t == s.(closed := true)
  }

  method PushStep(writer: Writer, socket: Socket, reader: Reader, schedule: seq<nat>, ghost setting: Setting)
      returns (ok: bool)
    requires Connected(writer, socket, reader) && Has(setting, socket, reader)
    modifies writer, socket`queue
    ensures Connected(writer, socket, reader)
    ensures Pushed(setting, schedule, old(Now(writer, socket, reader)), Now(writer, socket, reader))
    ensures ok <==> writer.Unsent() == 0
  {
    hide Stream, Cells, MessageOf, Reader.Valid;
    ghost var all := Messages(writer.nodes);
    if writer.next.Some? {
      var ad := writer.next.value;
      DataFits(ad);
      MoreToCome(reader, socket.past, all, MessageOf(ad));
      assert Messages(writer.nodes + [ad]) == all + [MessageOf(ad)];
    }
    ghost var calls, failed;
    ok, calls, failed := writer.Push(socket, schedule);
  }

  /** Behind the last message that was started there is nothing. */
  lemma NothingBehind(writer: Writer, socket: Socket, reader: Reader)
    requires Connected(writer, socket, reader) && |reader.delivered| == |writer.nodes|
    ensures socket.queue == [] && reader.Partial() == 0
  {
    hide Stream, Frame, MessageOf;
    var all, k := Messages(writer.nodes), |reader.delivered|;
    assert all[..k] == all;
  }

  /** What is next for the reader is what is next of all that was accepted, or nothing is there yet. */
  lemma NextIsComing(writer: Writer, socket: Socket, reader: Reader, setting: Setting)
    requires Connected(writer, socket, reader) && Has(setting, socket, reader)
    ensures |reader.delivered| <= |writer.nodes|
    ensures |reader.delivered| < |writer.nodes| ==>
      |Messages(writer.nodes)[|reader.delivered|].data| == Length(Accepted(writer)[|reader.delivered|])
    ensures EndingOf(setting, Now(writer, socket, reader))
         == Ending(reader.Partial(), Upcoming(Messages(writer.nodes), |reader.delivered|), |socket.queue|, socket.closed,
                   socket.isSocket && reader.maxFds > 0, reader.maxData, reader.maxFds)
  {
    hide Stream, Cells, MessageOf;
    if |reader.delivered| == |writer.nodes| {
      NothingBehind(writer, socket, reader);
    } else {
      DataFits(writer.nodes[|reader.delivered|]);
    }
  }

  /** All that was accepted is on its way or there already: the next message is whole, or there is none. */
  lemma NextIsWhole(writer: Writer, socket: Socket, reader: Reader)
    requires Connected(writer, socket, reader) && writer.Unsent() == 0
    ensures var s := Now(writer, socket, reader);
      s.partial + s.queued == 0 || s.partial + s.queued >= 8 + |Coming(s).data|
  {
    hide Stream, Frame, MessageOf;
    var all, k := Messages(writer.nodes), |reader.delivered|;
    if k < |all| {
      assert socket.past + socket.queue == socket.past + socket.queue + Cells(writer.data, writer.control);
      StreamLonger(all, k);
    } else {
      NothingBehind(writer, socket, reader);
    }
  }

  lemma IsPulled(setting: Setting, schedule: seq<nat>, s: Snapshot, t: Snapshot, wasted: nat, calls: nat, failed: bool,
                 outcome: Outcome)
    requires t == s.(queued := t.queued, delivered := t.delivered, partial := t.partial, finished := t.finished,
                     table := t.table, shut := t.shut)
    requires t.queued <= s.queued && Handled(setting, s, t) && (t.finished <==> outcome == Done)
    requires t.delivered == s.delivered ==> t.partial == s.partial + (s.queued - t.queued)
    requires t.delivered == s.delivered && outcome == Done ==> s.queued == 0 && s.partial == 0 && s.closed
    requires t.delivered != s.delivered ==>
      && outcome == Done && t.delivered == s.delivered + 1 <= |s.accepted| && t.partial == 0
      && s.partial + (s.queued - t.queued) == 8 + Length(s.accepted[s.delivered]) <= 8 + setting.maxData
    requires wasted <= 1 && Called(schedule, wasted, calls, failed) && calls <= s.queued - t.queued + 2
    requires !failed ==> outcome == EndingOf(setting, s) && (outcome == Again || outcome == Broken ==> t.queued == 0)
    requires outcome == TooLarge ==> t.partial > 0
    ensures Pulled(setting, schedule, s, t)
    ensures Steady(schedule, 0, s.queued + 2) ==> outcome == EndingOf(setting, s)
  {
    hide Length, Handled;
  }

  /** The table after a pull. */
  lemma IsHandled(writer: Writer, socket: Socket, reader: Reader, setting: Setting, s: Snapshot)
    requires Connected(writer, socket, reader) && Has(setting, socket, reader)
    requires s.accepted == Accepted(writer) && |reader.delivered| <= |writer.nodes|
    requires reader.closed == s.shut + Leftover(s) && reader.released == s.released
    requires |reader.delivered| == s.delivered ==> (reader.finished ==> reader.header == [])
    requires |reader.delivered| != s.delivered ==>
      && |reader.delivered| == s.delivered + 1
      && reader.fds == Clip(Messages(writer.nodes)[s.delivered].fds, setting.maxFds)
    ensures Handled(setting, s, Now(writer, socket, reader))
  {
    hide Stream, Cells, MessageOf, Clip, Held, Reader.Reading;
    if |reader.delivered| == s.delivered {
      reader.TableUnderWay(socket, Messages(writer.nodes), Cells(writer.data, writer.control));
    }
  }

  method PullOnce(writer: Writer, socket: Socket, reader: Reader, schedule: seq<nat>, ghost setting: Setting)
      returns (outcome: Outcome)
    requires Connected(writer, socket, reader) && Has(setting, socket, reader)
    modifies reader, socket`queue, socket`past
    ensures Connected(writer, socket, reader)
    ensures Pulled(setting, schedule, old(Now(writer, socket, reader)), Now(writer, socket, reader))
    ensures Steady(schedule, 0, |old(socket.queue)| + 2) ==>
      outcome == EndingOf(setting, old(Now(writer, socket, reader)))
  {
    hide Stream, Cells, MessageOf, Length, Called, Taken, Ending, EndingOf, Pulled, Handled, Steady, Reader.Valid,
      Clipped, Clip, Held;
    ghost var calls, failed;
    ghost var s, wasted := Now(writer, socket, reader), reader.Wasted(socket);
    NextIsComing(writer, socket, reader, setting);
    outcome, calls, failed := reader.Pull(socket, schedule, Messages(writer.nodes), Cells(writer.data, writer.control));
    TakenLength(old(socket.queue), socket.queue, reader.Filled() - s.partial);
    IsHandled(writer, socket, reader, setting, s);
    IsPulled(setting, schedule, s, Now(writer, socket, reader), wasted, calls, failed, outcome);
  }

  /** A message is reported broken only if the connection was closed before all of it had been sent. */
  method PullStep(writer: Writer, socket: Socket, reader: Reader, schedule: seq<nat>, ghost setting: Setting)
      returns (outcome: Outcome)
    requires Connected(writer, socket, reader) && Has(setting, socket, reader)
    modifies reader, socket`queue, socket`past
    ensures Connected(writer, socket, reader)
    ensures Pulled(setting, schedule, old(Now(writer, socket, reader)), Now(writer, socket, reader))
    ensures Steady(schedule, 0, |old(socket.queue)| + 2) ==>
      outcome == EndingOf(setting, old(Now(writer, socket, reader)))
    ensures Steady(schedule, 0, |old(socket.queue)| + 2) ==>
      var s := old(Now(writer, socket, reader));
      var there, m := s.partial + s.queued, Coming(s);
      var large := || (s.partial == 0 < there && setting.isSocket && |m.fds| > setting.maxFds > 0)
                   || (there >= 8 && |m.data| > setting.maxData);
      && (outcome == TooLarge <==> large)
      && (outcome == Broken <==> s.closed && !large && 0 < there < 8 + |m.data|)
      && (outcome == Again <==> !s.closed && !large && there < 8 + |m.data|)
      && (outcome == Done <==> (s.closed && there == 0) || (!large && there >= 8 + |m.data|))
    ensures Steady(schedule, 0, |old(socket.queue)| + 2) && outcome == Broken ==> old(writer.Unsent()) > 0
  {
    hide Connected, Pulled, EndingOf, Steady, Coming;
    EndingOfIs(setting, Now(writer, socket, reader));
    if writer.Unsent() == 0 {
      NextIsWhole(writer, socket, reader);
    }
    outcome := PullOnce(writer, socket, reader, schedule, setting);
  }

  method SetStep(ad: Node, writer: Writer, socket: Socket, reader: Reader)
    requires Connected(writer, socket, reader)
    modifies writer
    ensures Connected(writer, socket, reader)
    ensures Now(writer, socket, reader) == AfterSet(old(Now(writer, socket, reader)), ad)
  {
    hide Stream, Cells, MessageOf, Reader.Valid;
    var length := Length(ad);
    if |writer.data| == 0 && writer.next.None? && length < SIZE_LIMIT {
      writer.Set(ad, socket);
    }
  }

  method ReleaseStep(fd: CInt, writer: Writer, socket: Socket, reader: Reader)
    requires Connected(writer, socket, reader)
    modifies reader
    ensures Connected(writer, socket, reader)
    ensures Now(writer, socket, reader) == AfterRelease(old(Now(writer, socket, reader)), fd)
  {
    hide Stream, Cells, MessageOf, Without, Reader.Valid;
    if reader.finished && fd >= 0 {
      if fd !in reader.fds { NoneWithout(reader.fds, fd); }
      var found := reader.ReleaseFd(fd, socket, Messages(writer.nodes));
    }
  }

  method CloseStep(writer: Writer, socket: Socket, reader: Reader)
    requires Connected(writer, socket, reader)
    modifies socket`closed
    ensures Connected(writer, socket, reader) && socket.closed
  {
    hide Stream, Cells, MessageOf, Reader.Valid;
    socket.closed := true;
  }

  /** One call at either end. */
  method Step(action: Action, writer: Writer, socket: Socket, reader: Reader, ghost setting: Setting)
    requires Connected(writer, socket, reader) && Has(setting, socket, reader)
    modifies writer, socket, reader
    ensures Connected(writer, socket, reader) && Has(setting, socket, reader)
    ensures Follows(setting, action, old(Now(writer, socket, reader)), Now(writer, socket, reader))
  {
    hide Stream, Cells, MessageOf, Connected, AfterSet, AfterRelease, Pushed, Pulled;
    match action {
      case Set(ad) =>
        SetStep(ad, writer, socket, reader);
      case Push(schedule) =>
        var ok := PushStep(writer, socket, reader, schedule, setting);
      case Pull(schedule) =>
        var outcome := PullStep(writer, socket, reader, schedule, setting);
      case Release(fd) =>
        ReleaseStep(fd, writer, socket, reader);
      case CloseWriter =>
        CloseStep(writer, socket, reader);
    }
  }

  /** Both ends before anything has been sent. */
  method Connect(isSocket: bool, maxData: nat, maxFds: nat) returns (writer: Writer, socket: Socket, reader: Reader)
    ensures fresh(writer) && fresh(socket) && fresh(reader)
    ensures Connected(writer, socket, reader) && Has(Setting(isSocket, maxData, maxFds), socket, reader)
    ensures Now(writer, socket, reader) == START
  {
    socket := new Socket(isSocket);
    writer := new Writer(socket);
    reader := new Reader(maxData, maxFds, socket);
    assert Messages([]) == [];
    assert Cells([], []) == [];
  }

  // ---------- What is delivered ----------

  ghost predicate Shows(m: Message, ad: Node) {
    View(m.data, Lookup(m.fds)) == ViewOf(ad)
  }

  /** A message shows the tree that was sent exactly if all its descriptors were accepted. */
  lemma ShowsIfAccepted(ad: Node, maxFds: nat)
    requires Length(ad) < SIZE_LIMIT
    ensures Shows(Clipped(MessageOf(ad), maxFds), ad) <==> |MessageOf(ad).fds| <= maxFds
  {
    hide View, ViewOf, Encode, Lookup;
    ShownWithFirst(ad, maxFds);
  }

  /**
    What the reader has delivered are the messages sent, in order, as far as
    their descriptors were accepted, and they show the trees that were sent
    exactly if all were.
   */
  ghost predicate Faithful(nodes: seq<Node>, delivered: seq<Message>, maxFds: nat) {
    && |delivered| <= |nodes|
    && forall i :: 0 <= i < |delivered| ==> && delivered[i] == Clipped(MessageOf(nodes[i]), maxFds)
                                            && (Shows(delivered[i], nodes[i]) <==> |MessageOf(nodes[i]).fds| <= maxFds)
  }

  lemma DeliveredIsFaithful(nodes: seq<Node>, delivered: seq<Message>, maxFds: nat)
    requires |delivered| <= |nodes| && forall i :: 0 <= i < |nodes| ==> Length(nodes[i]) < SIZE_LIMIT
    requires forall i :: 0 <= i < |delivered| ==> delivered[i] == Clipped(Messages(nodes)[i], maxFds)
    ensures Faithful(nodes, delivered, maxFds)
  {
    hide MessageOf, Shows;
    forall i | 0 <= i < |delivered|
      ensures delivered[i] == Clipped(MessageOf(nodes[i]), maxFds)
      ensures Shows(delivered[i], nodes[i]) <==> |MessageOf(nodes[i]).fds| <= maxFds
    {
      assert Messages(nodes)[i] == MessageOf(nodes[i]);
      ShowsIfAccepted(nodes[i], maxFds);
    }
  }

  lemma MoreNodes(nodes: seq<Node>, more: seq<Node>, delivered: seq<Message>, maxFds: nat)
    requires Faithful(nodes, delivered, maxFds) && nodes <= more
    ensures Faithful(more, delivered, maxFds)
  {
    hide MessageOf, Shows;
  }

  /**
    Held, shut or handed over, each once: exactly the accepted descriptors of the
    messages delivered and of the one under way.
   */
  ghost predicate AllAccounted(s: Snapshot, delivered: seq<Message>, maxFds: nat) {
    Held(s.table) + s.shut + s.released
    == HeldInAll(delivered) + (if s.partial > 0 then Held(Clip(Coming(s).fds, maxFds)) else multiset{})
  }

  lemma ConnectedIsAccounted(writer: Writer, socket: Socket, reader: Reader)
    requires Connected(writer, socket, reader)
    ensures AllAccounted(Now(writer, socket, reader), reader.delivered, reader.maxFds)
  {
    hide Stream, Cells, MessageOf, Clip, Held, HeldInAll;
    NoneHeld();
    if !reader.finished {
      reader.TableUnderWay(socket, Messages(writer.nodes), Cells(writer.data, writer.control));
    }
  }

  lemma ConnectedIsFaithful(writer: Writer, socket: Socket, reader: Reader)
    requires Connected(writer, socket, reader)
    ensures Faithful(Accepted(writer), reader.delivered, reader.maxFds)
    ensures AllAccounted(Now(writer, socket, reader), reader.delivered, reader.maxFds)
  {
    hide Stream, Cells, MessageOf, Clipped, Faithful, AllAccounted;
    ConnectedIsAccounted(writer, socket, reader);
    DeliveredIsFaithful(writer.nodes, reader.delivered, reader.maxFds);
    MoreNodes(writer.nodes, Accepted(writer), reader.delivered, reader.maxFds);
  }

  /** With nothing in flight and no message half read, everything accepted has been delivered. */
  lemma NothingLost(writer: Writer, socket: Socket, reader: Reader)
    requires Connected(writer, socket, reader)
    requires writer.Unsent() == 0 && socket.queue == [] && reader.Partial() == 0
    ensures |reader.delivered| == |Accepted(writer)|
  {
    hide Stream, Frame, MessageOf;
    var all, k := Messages(writer.nodes), |reader.delivered|;
    assert socket.past == socket.past + socket.queue + Cells(writer.data, writer.control);
    if k < |all| { StreamLonger(all, k); }
  }

  // ---------- Runs ----------

  /** The states that the calls of a script lead through. */
  ghost predicate Trace(setting: Setting, script: seq<Action>, trace: seq<Snapshot>) {
    && |trace| == |script| + 1 && trace[0] == START
    && forall i :: 0 <= i < |script| ==> Follows(setting, script[i], trace[i], trace[i + 1])
  }

  lemma TraceStart(setting: Setting)
    ensures Trace(setting, [], [START])
  {
  }

  lemma TraceGrows(setting: Setting, script: seq<Action>, n: nat, trace: seq<Snapshot>, t: Snapshot)
    requires n < |script| && Trace(setting, script[..n], trace) && Follows(setting, script[n], trace[n], t)
    ensures Trace(setting, script[..n + 1], trace + [t])
  {
    hide Follows;
    var script', trace' := script[..n + 1], trace + [t];
    forall i | 0 <= i < |script'|
      ensures Follows(setting, script'[i], trace'[i], trace'[i + 1])
    {
      if i < n { assert Follows(setting, script[..n][i], trace[i], trace[i + 1]); }
    }
  }

  /** The trees that a script sets at a time when nothing is under way. */
  ghost function SetWhenIdle(script: seq<Action>, trace: seq<Snapshot>): seq<Node>
    requires |script| < |trace|
  {
    if |script| == 0 then []
    else
      var n := |script| - 1;
      SetWhenIdle(script[..n], trace)
      + match script[n]
        case Set(ad) => if trace[n].unsent == 0 && Length(ad) < SIZE_LIMIT then [ad] else []
        case _ => []
  }

  lemma {:induction false} AcceptedWhenIdle(setting: Setting, script: seq<Action>, trace: seq<Snapshot>)
    requires Trace(setting, script, trace)
    ensures trace[|script|].accepted == SetWhenIdle(script, trace)
  {
    hide Follows;
    if |script| > 0 {
      var n := |script| - 1;
      assert forall i :: 0 <= i < n ==> script[..n][i] == script[i] && trace[..n + 1][i] == trace[i];
      AcceptedWhenIdle(setting, script[..n], trace[..n + 1]);
      SameStates(script[..n], trace[..n + 1], trace);
      OnlySetAccepts(setting, script[n], trace[n], trace[n + 1]);
    }
  }

  lemma OnlySetAccepts(setting: Setting, action: Action, s: Snapshot, t: Snapshot)
    requires Follows(setting, action, s, t)
    ensures t.accepted == s.accepted
      + (if action.Set? && s.unsent == 0 && Length(action.ad) < SIZE_LIMIT then [action.ad] else [])
  {
    hide Length, MessageOf;
  }

  lemma {:induction false} SameStates(script: seq<Action>, trace: seq<Snapshot>, longer: seq<Snapshot>)
    requires |script| < |trace| && trace <= longer
    ensures SetWhenIdle(script, trace) == SetWhenIdle(script, longer)
  {
    if |script| > 0 { SameStates(script[..|script| - 1], trace, longer); }
  }

  /**
    Every run: whatever is called in whatever order, each call does what it is
    to do, the trees accepted are those set while nothing was under way, the
    messages delivered are the first of them, all of them once nothing is in
    flight, and the accepted descriptors of the messages delivered and of the one
    under way are held, closed or released, each exactly once. Releasing from an
    unfinished reader, which callers must not do, does nothing.
   */
  method Run(script: seq<Action>, isSocket: bool, maxData: nat, maxFds: nat)
      returns (writer: Writer, socket: Socket, reader: Reader, ghost trace: seq<Snapshot>)
    ensures Trace(Setting(isSocket, maxData, maxFds), script, trace)
    ensures trace[|script|] == Now(writer, socket, reader)
    ensures Accepted(writer) == SetWhenIdle(script, trace)
    ensures Faithful(Accepted(writer), reader.delivered, maxFds)
    ensures writer.Unsent() == 0 && socket.queue == [] && reader.Partial() == 0 ==>
      |reader.delivered| == |Accepted(writer)|
    ensures AllAccounted(trace[|script|], reader.delivered, maxFds)
  {
    hide Stream, Cells, MessageOf, Held, Clipped, Faithful, AllAccounted, Follows, Trace, Connected;
    ghost var setting := Setting(isSocket, maxData, maxFds);
    writer, socket, reader := Connect(isSocket, maxData, maxFds);
    trace := [START];
    TraceStart(setting);
    assert script[..0] == [];
    for i := 0 to |script|
      invariant fresh(writer) && fresh(socket) && fresh(reader)
      invariant Connected(writer, socket, reader) && Has(setting, socket, reader)
      invariant Trace(setting, script[..i], trace) && |trace| == i + 1 && trace[i] == Now(writer, socket, reader)
    {
      Step(script[i], writer, socket, reader, setting);
      TraceGrows(setting, script, i, trace, Now(writer, socket, reader));
      trace := trace + [Now(writer, socket, reader)];
    }
    assert script[..|script|] == script;
    AcceptedWhenIdle(setting, script, trace);
    ConnectedIsFaithful(writer, socket, reader);
    if writer.Unsent() == 0 && socket.queue == [] && reader.Partial() == 0 {
      NothingLost(writer, socket, reader);
    }
  }

  // ---------- Everything arrives ----------

  /** A tree that a setting lets through. */
  ghost predicate Passes(setting: Setting, ad: Node) {
    && Length(ad) < SIZE_LIMIT && Length(ad) <= setting.maxData && |MessageOf(ad).fds| <= setting.maxFds
    && (setting.isSocket || MessageOf(ad).fds == [])
  }

  /**
    Both ends after messages that have all arrived: the reader holds the
    descriptors of the last one and has shut those of the others.
   */
  ghost function Arrived(nodes: seq<Node>): Snapshot {
    if nodes == [] then START
    else
      var n := |nodes| - 1;
      START.(accepted := nodes, delivered := n + 1, finished := true, table := MessageOf(nodes[n]).fds,
             shut := HeldInAll(Messages(nodes[..n])))
  }

  /** What is left of the last message is shut next. */
  lemma ShutNext(nodes: seq<Node>)
    ensures Arrived(nodes).shut + Leftover(Arrived(nodes)) == HeldInAll(Messages(nodes))
    ensures Arrived(nodes).released == multiset{}
  {
    hide Held, MessageOf;
    if nodes != [] {
      var n := |nodes| - 1;
      assert Messages(nodes) == Messages(nodes[..n]) + [MessageOf(nodes[n])];
      HeldInOneMore(Messages(nodes[..n]), MessageOf(nodes[n]));
    }
  }

  /** Setting, pushing and pulling a tree delivers it, however the bytes are cut up. */
  lemma OneArrives(setting: Setting, nodes: seq<Node>, ad: Node, push: seq<nat>, pull: seq<nat>,
                   s1: Snapshot, s2: Snapshot, s3: Snapshot)
    requires Passes(setting, ad) && Steady(push, 0, 8 + Length(ad)) && Steady(pull, 0, 10 + Length(ad))
    requires Follows(setting, Set(ad), Arrived(nodes), s1)
    requires Follows(setting, Push(push), s1, s2) && Follows(setting, Pull(pull), s2, s3)
    ensures s3 == Arrived(nodes + [ad])
  {
    hide MessageOf, Length, Steady, Arrived, Handled, AfterSet, Pushed, Pulled, Passes, Coming;
    ArrivedIs(nodes);
    OneSent(setting, Arrived(nodes), ad, push, s1, s2);
    OneTaken(setting, ad, pull, s2, s3);
    NewTable(setting, nodes, ad, s2, s3);
  }

  lemma OneSent(setting: Setting, s: Snapshot, ad: Node, push: seq<nat>, s1: Snapshot, s2: Snapshot)
    requires Passes(setting, ad) && Steady(push, 0, 8 + Length(ad)) && s.unsent == 0 && !s.carrying
    requires s1 == AfterSet(s, ad) && Pushed(setting, push, s1, s2)
    ensures s2 == s.(accepted := s.accepted + [ad], queued := s.queued + 8 + Length(ad))
  {
    hide MessageOf, Length, Steady;
  }

  lemma OneTaken(setting: Setting, ad: Node, pull: seq<nat>, s2: Snapshot, s3: Snapshot)
    requires Passes(setting, ad) && Steady(pull, 0, 10 + Length(ad)) && Pulled(setting, pull, s2, s3)
    requires s2.delivered + 1 == |s2.accepted| && s2.accepted[s2.delivered] == ad
    requires s2.partial == 0 && s2.queued == 8 + Length(ad)
    ensures Coming(s2) == MessageOf(ad) && Handled(setting, s2, s3)
    ensures s3 == s2.(queued := 0, delivered := s2.delivered + 1, finished := true, table := s3.table, shut := s3.shut)
  {
    hide MessageOf, Length, Steady, Handled;
    DataFits(ad);
    assert EndingOf(setting, s2) == Done;
  }

  /** The table is that of the tree, and the descriptors of the one before are shut. */
  lemma NewTable(setting: Setting, nodes: seq<Node>, ad: Node, s2: Snapshot, s3: Snapshot)
    requires Passes(setting, ad) && Handled(setting, s2, s3) && Coming(s2) == MessageOf(ad)
    requires s2 == Arrived(nodes).(accepted := nodes + [ad], queued := s2.queued)
    requires s3 == START.(accepted := nodes + [ad], delivered := |nodes| + 1, finished := true,
                          table := s3.table, shut := s3.shut, released := s3.released)
    ensures s3 == Arrived(nodes + [ad])
  {
    hide MessageOf, Arrived, Leftover, HeldInAll;
    ArrivedIs(nodes);
    ArrivedIs(nodes + [ad]);
    SameLeftover(Arrived(nodes), s2);
    ShutNext(nodes);
    assert (nodes + [ad])[..|nodes|] == nodes;
  }

  lemma SameLeftover(s: Snapshot, t: Snapshot)
    requires s.finished == t.finished && s.table == t.table
    ensures Leftover(s) == Leftover(t)
  {
  }

  /**
    All trees that a setting lets through are delivered, each showing what was
    sent, and nothing else is; the descriptors of all but the last are shut, and
    those of the last are there.
   */
  method Exchange(nodes: seq<Node>, pushes: seq<seq<nat>>, pulls: seq<seq<nat>>, isSocket: bool, maxData: nat, maxFds: nat)
      returns (reader: Reader)
    requires |pushes| == |pulls| == |nodes|
    requires forall i :: 0 <= i < |nodes| ==> Passes(Setting(isSocket, maxData, maxFds), nodes[i])
    requires forall i :: 0 <= i < |nodes| ==> Steady(pushes[i], 0, 8 + Length(nodes[i]))
    requires forall i :: 0 <= i < |nodes| ==> Steady(pulls[i], 0, 10 + Length(nodes[i]))
    ensures reader.delivered == Messages(nodes)
    ensures forall i :: 0 <= i < |nodes| ==> Shows(reader.delivered[i], nodes[i])
    ensures reader.fds == Arrived(nodes).table && reader.closed == Arrived(nodes).shut && reader.released == multiset{}
  {
    hide Stream, Cells, MessageOf, Shows, Steady, Arrived, AllAccounted, Connected, Passes;
    ghost var setting := Setting(isSocket, maxData, maxFds);
    var writer, socket;
    writer, socket, reader := Connect(isSocket, maxData, maxFds);
    ArrivedIs([]);
    for i := 0 to |nodes|
      invariant fresh(writer) && fresh(socket) && fresh(reader)
      invariant Connected(writer, socket, reader) && Has(setting, socket, reader)
      invariant Now(writer, socket, reader) == Arrived(nodes[..i])
    {
      ExchangeOne(nodes[i], pushes[i], pulls[i], writer, socket, reader, setting, nodes[..i]);
      assert nodes[..i + 1] == nodes[..i] + [nodes[i]];
    }
    assert nodes[..|nodes|] == nodes;
    ConnectedIsFaithful(writer, socket, reader);
    ArrivedIs(nodes);
    AllShown(setting, nodes, reader.delivered);
  }

  lemma ArrivedIs(nodes: seq<Node>)
    ensures Arrived(nodes)
         == START.(accepted := nodes, delivered := |nodes|, finished := nodes != [], table := Arrived(nodes).table,
                   shut := Arrived(nodes).shut)
    ensures nodes == [] ==> Arrived(nodes) == START
    ensures nodes != [] ==> var n := |nodes| - 1;
      Arrived(nodes).table == MessageOf(nodes[n]).fds && Arrived(nodes).shut == HeldInAll(Messages(nodes[..n]))
  {
  }

  lemma AllShown(setting: Setting, nodes: seq<Node>, delivered: seq<Message>)
    requires Faithful(nodes, delivered, setting.maxFds) && |delivered| == |nodes|
    requires forall i :: 0 <= i < |nodes| ==> Passes(setting, nodes[i])
    ensures delivered == Messages(nodes) && forall i :: 0 <= i < |nodes| ==> Shows(delivered[i], nodes[i])
  {
    hide MessageOf, Shows;
  }

  method ExchangeOne(ad: Node, push: seq<nat>, pull: seq<nat>, writer: Writer, socket: Socket, reader: Reader,
                     ghost setting: Setting, ghost nodes: seq<Node>)
    requires Connected(writer, socket, reader) && Has(setting, socket, reader)
    requires Passes(setting, ad) && Steady(push, 0, 8 + Length(ad)) && Steady(pull, 0, 10 + Length(ad))
    requires Now(writer, socket, reader) == Arrived(nodes)
    modifies writer, socket, reader
    ensures Connected(writer, socket, reader) && Has(setting, socket, reader)
    ensures Now(writer, socket, reader) == Arrived(nodes + [ad])
  {
    hide Stream, Cells, MessageOf, Follows, Steady, Arrived, Connected, Passes;
    Step(Set(ad), writer, socket, reader, setting);
    ghost var s1 := Now(writer, socket, reader);
    Step(Push(push), writer, socket, reader, setting);
    ghost var s2 := Now(writer, socket, reader);
    Step(Pull(pull), writer, socket, reader, setting);
    OneArrives(setting, nodes, ad, push, pull, s1, s2, Now(writer, socket, reader));
  }

  // ---------- Too many descriptors ----------

  /**
    A message with more descriptors than accepted is rejected by one call and
    delivered by the next, with those that were accepted, so that it does not
    show the tree that was sent.
   */
  method RejectedThenDelivered(ad: Node, push: seq<nat>, pull: seq<nat>, maxData: nat, maxFds: nat)
      returns (first: Outcome, second: Outcome, reader: Reader)
    requires Length(ad) < SIZE_LIMIT && Length(ad) <= maxData && 0 < maxFds < |MessageOf(ad).fds|
    requires Steady(push, 0, 8 + Length(ad)) && Steady(pull, 0, 10 + Length(ad))
    ensures first == TooLarge && second == Done
    ensures reader.delivered == [Clipped(MessageOf(ad), maxFds)] && !Shows(reader.delivered[0], ad)
  {
    hide Stream, Cells, MessageOf, Length, Shows, Steady, Follows, Pulled, EndingOf, AllAccounted, Connected;
    ghost var setting := Setting(true, maxData, maxFds);
    var writer, socket;
    writer, socket, reader := Connect(true, maxData, maxFds);
    Step(Set(ad), writer, socket, reader, setting);
    ghost var s1 := Now(writer, socket, reader);
    Step(Push(push), writer, socket, reader, setting);
    ghost var s2 := Now(writer, socket, reader);
    Rejects(setting, ad, push, s1, s2);
    first := PullStep(writer, socket, reader, pull, setting);
    ghost var s3 := Now(writer, socket, reader);
    DeliversRest(setting, ad, pull, s2, s3);
    second := PullStep(writer, socket, reader, pull, setting);
    ghost var s4 := Now(writer, socket, reader);
    OneDelivered(setting, pull, s3, s4);
    ConnectedIsFaithful(writer, socket, reader);
  }

  lemma Rejects(setting: Setting, ad: Node, push: seq<nat>, s1: Snapshot, s2: Snapshot)
    requires setting.isSocket && Length(ad) < SIZE_LIMIT && 0 < setting.maxFds < |MessageOf(ad).fds|
    requires Steady(push, 0, 8 + Length(ad))
    requires Follows(setting, Set(ad), START, s1) && Follows(setting, Push(push), s1, s2)
    ensures s2 == START.(accepted := [ad], queued := 8 + Length(ad)) && EndingOf(setting, s2) == TooLarge
  {
    hide MessageOf, Steady;
  }

  lemma DeliversRest(setting: Setting, ad: Node, pull: seq<nat>, s2: Snapshot, s3: Snapshot)
    requires Length(ad) < SIZE_LIMIT && Length(ad) <= setting.maxData && Steady(pull, 0, 10 + Length(ad))
    requires s2 == START.(accepted := [ad], queued := 8 + Length(ad)) && EndingOf(setting, s2) == TooLarge
    requires Pulled(setting, pull, s2, s3)
    ensures EndingOf(setting, s3) == Done && Steady(pull, 0, s3.queued + 2)
    ensures s3.accepted == [ad] && s3.delivered == 0 && s3.partial > 0
  {
    hide MessageOf, Steady;
    DataFits(ad);
    assert s3.delivered == s2.delivered;
    FewerAreSteady(pull, s3.queued + 2, 10 + Length(ad));
  }

  lemma OneDelivered(setting: Setting, pull: seq<nat>, s3: Snapshot, s4: Snapshot)
    requires Pulled(setting, pull, s3, s4) && EndingOf(setting, s3) == Done && Steady(pull, 0, s3.queued + 2)
    requires s3.partial > 0
    ensures s4.delivered == s3.delivered + 1 && s4.accepted == s3.accepted
  {
  }

  lemma FewerAreSteady(schedule: seq<nat>, m: nat, n: nat)
    requires m <= n && Steady(schedule, 0, n)
    ensures Steady(schedule, 0, m)
  {
  }

  /** A sequence of two descriptors is such a message for a reader that accepts one. */
  lemma TwoDescriptors()
    ensures var ad := Seq([Buffer([TYPE_FD, 0, 0, 0, 0], _ => 3), Buffer([TYPE_FD, 0, 0, 0, 0], _ => 4)]);
      Length(ad) == 13 && MessageOf(ad).fds == [3, 4]
  {
    hide Encode, EncodeItems, Length, ItemsLength, SubfieldLength;
    var x, y := Buffer([TYPE_FD, 0, 0, 0, 0], _ => 3), Buffer([TYPE_FD, 0, 0, 0, 0], _ => 4);
    assert [x, y] == [x] + ([y] + []);
    var none: seq<CInt> := [];
    assert none + [3] == [3] && [3] + [4] == [3, 4];
    DescriptorItem(x, 3, none);
    DescriptorItem(y, 4, [3]);
    FirstItem(x, [y] + [], []);
    FirstItem(y, [], [3]);
    NoItems([3, 4]);
    SeqOf([x, y]);
  }

  /** A descriptor in front of the others takes six bytes and the next place in the table. */
  lemma DescriptorItem(ad: Node, fd: CInt, table: seq<CInt>)
    requires ad.Buffer? && ad.bytes == [TYPE_FD, 0, 0, 0, 0] && ad.convert(0) == fd && fd >= 0 && fd !in table
    ensures Encode(ad, table).1 == table + [fd] && SubfieldLength(ad) == 6
  {
    assert SpellingLength(5) == 1;
  }

  lemma FirstItem(ad: Node, items: seq<Node>, table: seq<CInt>)
    ensures ItemsLength([ad] + items) == SubfieldLength(ad) + ItemsLength(items)
    ensures EncodeItems([ad] + items, table).1 == EncodeItems(items, Encode(ad, table).1).1
  {
    assert ([ad] + items)[1..] == items;
  }

  lemma NoItems(table: seq<CInt>)
    ensures ItemsLength([]) == 0 && EncodeItems([], table).1 == table
  {
  }

  lemma SeqOf(items: seq<Node>)
    ensures Length(Seq(items)) == 1 + ItemsLength(items) && Encode(Seq(items), []).1 == EncodeItems(items, []).1
  {
  }
}
