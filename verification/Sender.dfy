/** The sending half of the pipeline: a queue of requests, and the one that is being written. */
module Senders {
  import opened Bytes
  import opened Clients
  import opened Framing
  import opened Hmac
  import opened Messages
  import opened NonblockingPacket
  import opened NonblockingString
  import opened Pipeline
  import opened PipelineInvariants
  import opened Receivers
  import opened Sockets
  import opened Wrappers

  /** The packet in which a request travels. */
  function PacketOf(p: Protocol, r: Request): Packet
    requires p.serializeMessage(r.message).Some?
  {
    Packet(p.serializeMessage(r.message).value, r.value)
  }

  predicate Serializable(p: Protocol, wire: seq<Request>) {
    forall r <- wire :: p.serializeMessage(r.message).Some?
  }

  function Packets(p: Protocol, wire: seq<Request>): seq<Packet>
    requires Serializable(p, wire)
  {
    seq(|wire|, i requires 0 <= i < |wire| => PacketOf(p, wire[i]))
  }

  /** Everything that is in flight or queued can be serialised. */
  predicate Sendable(p: Protocol, tx: Outbound) {
    && (tx.inFlight.Some? ==> p.serializeMessage(tx.inFlight.value.message).Some?)
    && Serializable(p, tx.queue)
  }

  /** How many octets the requests are on the wire. */
  function Octets(p: Protocol, rs: seq<Request>): nat {
    if Serializable(p, rs) then |Stream(Packets(p, rs))| else 0
  }

  lemma {:induction false} OctetsAdd(p: Protocol, rs: seq<Request>, more: seq<Request>)
    requires Serializable(p, rs + more)
    ensures Octets(p, rs) <= Octets(p, rs + more)
  {
    assert forall r <- rs :: r in rs + more;
    if more == [] {
      assert rs + more == rs;
    } else {
      var init, last := more[..|more| - 1], more[|more| - 1];
      assert rs + more == (rs + init) + [last];
      assert forall r <- rs + init :: r in rs + more;
      OctetsAdd(p, rs, init);
      OctetsSnoc(p, rs + init, last);
    }
  }

  lemma OctetsSnoc(p: Protocol, rs: seq<Request>, r: Request)
    requires Serializable(p, rs + [r])
    ensures Serializable(p, rs) && p.serializeMessage(r.message).Some?
    ensures Octets(p, rs + [r]) == Octets(p, rs) + |Frame(PacketOf(p, r))|
  {
    assert r in rs + [r] && forall q <- rs :: q in rs + [r];
    assert Packets(p, rs + [r]) == Packets(p, rs) + [PacketOf(p, r)];
    StreamSnoc(Packets(p, rs), PacketOf(p, r));
  }

  /** While a frame is unfinished, fewer octets have been sent than the whole line is. */
  lemma UnfinishedIsLess(p: Protocol, tx: Outbound, written: nat)
    requires Serializable(p, tx.wire) && Sendable(p, tx) && tx.inFlight.Some?
    requires written < |Frame(PacketOf(p, tx.inFlight.value))|
    ensures Octets(p, tx.wire) + written < Octets(p, Line(tx))
  {
    var r := tx.inFlight.value;
    assert Line(tx) == tx.wire + [r] + tx.queue;
    OctetsAdd(p, tx.wire + [r], tx.queue);
    OctetsSnoc(p, tx.wire, r);
  }

  /** The calls that fail these requests, one after the other. */
  function Failures(rs: seq<Request>, f: Failure): (calls: seq<Call>)
    ensures |calls| == |rs|
  {
    seq(|rs|, i requires 0 <= i < |rs| => Call(rs[i].handler, Error(f, None)))
  }

  lemma FailuresConcat(a: seq<Request>, b: seq<Request>, f: Failure)
    ensures Failures(a + b, f) == Failures(a, f) + Failures(b, f)
  {}

  /** The first request with this key is at this index. */
  predicate IsFirst(queue: seq<Request>, key: int, i: int) {
    0 <= i < |queue| && queue[i].key == key && forall j :: 0 <= j < i ==> queue[j].key != key
  }

  /** Nothing has left the line, except that after a failure everything that was not on the wire has. */
  predicate LineMoved(
    before: Outbound, after: Outbound, keyed: bool, calls: seq<Call>, calls': seq<Call>, failed: bool)
  {
    && before.wire <= after.wire <= Line(before)
    && (!failed ==> Line(after) == Line(before) && (keyed ==> calls' == calls))
    && (failed && keyed ==> calls' == calls + Failures(Line(before)[|after.wire|..], WriteFailed))
  }

  lemma WireIsPrefix(tx: Outbound)
    ensures tx.wire <= Line(tx)
  {}

  lemma LineStays(tx: Outbound, keyed: bool, calls: seq<Call>)
    ensures LineMoved(tx, tx, keyed, calls, calls, false)
  {}

  lemma BeginKeeps(p: Protocol, tx: Outbound, keyed: bool, calls: seq<Call>)
    requires tx.inFlight.None? && tx.queue != []
    ensures LineMoved(tx, Begin(tx), keyed, calls, calls, false)
    ensures Sendable(p, Begin(tx)) == Sendable(p, tx)
  {
    BeginMovesLine(tx);
    WireIsPrefix(tx);
  }

  lemma LineMovedOn(
    a: Outbound, b: Outbound, c: Outbound, keyed: bool,
    calls: seq<Call>, calls': seq<Call>, calls'': seq<Call>, failed: bool)
    requires LineMoved(a, b, keyed, calls, calls', false) && LineMoved(b, c, keyed, calls', calls'', failed)
    ensures LineMoved(a, c, keyed, calls, calls'', failed)
    ensures Line(b) == Line(a) && (!failed ==> Line(c) == Line(a))
  {
    hide Line;
  }

  class Sender {
    const socket: Socket
    const receiver: Receiver
    const client: Client
    const p: Protocol
    var sequenceNumber: nat
    var handlerKey: int
    var writer: PacketWriter?
    var handler: Option<Handler>
    var queue: seq<Request>
    var messageSequence: int
    /** An irrecoverable error has been reported. */
    ghost var dead: bool
    /** The objects that only this one uses. */
    ghost var Repr: set<object>

    /** The queue and the request being written are those of the run. */
    ghost predicate Queues()
      reads this, client
    {
      && client.p == p && queue == client.state.tx.queue && sequenceNumber == client.state.tx.nextSequence
      && (dead ==> client.state.tx.inFlight.None?)
      && (!dead ==> (writer == null <==> client.state.tx.inFlight.None?))
      && (!dead && writer != null ==>
        var r := client.state.tx.inFlight.value;
        && handler == Some(r.handler) && handlerKey == r.key && messageSequence == r.sequence
        && writer.message == r.message && writer.value == r.value)
    }

    /** The octets sent are the frames of the requests on the wire and what has been written of the next. */
    ghost predicate Aligned(wire: seq<Request>)
      reads this`writer, this`Repr, socket`sent, Repr
    {
      && (writer != null ==>
        && writer in Repr && writer.writer in Repr
        && writer.Valid() && writer.socket == socket && writer.p == p)
      && Serializable(p, wire)
      && socket.sent == Stream(Packets(p, wire)) + if writer == null then [] else writer.Written()
    }

    ghost predicate Valid()
      reads this, client, socket, Repr
    {
      && Repr !! {this, socket, client, receiver}
      && receiver.socket == socket && receiver.client == client && receiver.p == p
      && client.Valid() && Queues() && Aligned(client.state.tx.wire)
    }

    /** The sender and the receiver share no objects but the socket and the client. */
    ghost predicate Apart()
      reads this`Repr, receiver`Repr
    {
      Repr + {this} !! receiver.Repr
    }

    /** All of the pipeline that the sender has no part in. */
    ghost function Elsewhere(): (seq<Packet>, int, seq<Handler>, seq<Handler>, bool, bool)
      reads client
    {
      var s := client.state;
      (s.rx.replies, s.rx.connectionId, s.book.submitted, s.book.removed, s.failed, s.keyed)
    }

    constructor (socket: Socket, receiver: Receiver)
      requires receiver.socket == socket && receiver.client.Valid() && receiver.p == receiver.client.p
      requires receiver.client.state.tx == INITIAL.tx && socket.sent == []
      ensures Valid() && !dead && Repr == {}
      ensures this.socket == socket && this.receiver == receiver
    {
      this.socket, this.receiver, this.client, this.p := socket, receiver, receiver.client, receiver.client.p;
      sequenceNumber, handlerKey, writer, handler, queue, messageSequence := 0, 0, null, None, [], 0;
      dead, Repr := false, {};
    }

    /** Completes a request with its connection id, sequence number and digest, and queues it. */
    method Enqueue(message: Message, command: Command, value: bytes, newHandler: Handler, key: int)
      requires Valid() && receiver.Tables()
      modifies this`queue, this`sequenceNumber, client`events, client`state
      ensures Valid() && receiver.Tables()
      ensures client.events == old(client.events) + [Accept(key, newHandler, message, command, value)]
      ensures client.state == Next(p, old(client.state), Accept(key, newHandler, message, command, value))
      ensures |queue| == |old(queue)| + 1 && old(queue) <= queue && queue[|old(queue)|].sequence == old(sequenceNumber)
      ensures Carries(p, queue[|old(queue)|], Accept(key, newHandler, message, command, value), receiver.connectionId)
    {
      hide IsRun, Replay, Aligned;
      var c := command.(connectionId := Some(receiver.connectionId));
      c := c.(sequence := Some(sequenceNumber));
      sequenceNumber := sequenceNumber + 1;
      var m := message.(commandBytes := p.serializeCommand(c));
      if m.authType.HmacAuthenticated? {
        var digest := ComputeHmac(p, m);
        m := m.(hmacAuth := Some(HmacAuth(p.userId, digest)));
      }
      queue := queue + [Request(sequenceNumber - 1, key, newHandler, c, m, value)];
      client.Step(Accept(key, newHandler, message, command, value));
    }

    /** Takes the first queued request with this key out of the queue, so that it will not be sent. */
    method Remove(key: int) returns (ok: bool, ghost index: nat)
      requires Valid()
      modifies this`queue, client`events, client`state
      ensures Valid()
      ensures ok <==> exists r <- old(queue) :: r.key == key
      ensures ok ==> IsFirst(old(queue), key, index) && queue == Without(old(queue), index)
      ensures ok ==> client.events == old(client.events) + [RemoveQueued(index)]
      ensures ok ==> client.state == Next(p, old(client.state), RemoveQueued(index))
      ensures !ok ==> queue == old(queue) && client.events == old(client.events) && client.state == old(client.state)
      ensures client.state.rx == old(client.state.rx) && client.state.tx.inFlight == old(client.state.tx.inFlight)
      ensures client.state.failed == old(client.state.failed) && client.state.keyed == old(client.state.keyed)
      ensures client.state.book.submitted == old(client.state.book.submitted)
    {
      hide IsRun, Replay, Aligned;
      var i := Find(key);
      index := i;
      ok := i < |queue|;
      if ok {
        queue := queue[..i] + queue[i + 1..];
        client.Step(RemoveQueued(i));
      }
    }

    /** The loop of `Remove`: where the first request with this key is. */
    method Find(key: int) returns (i: nat)
      ensures i < |queue| ==> IsFirst(queue, key, i)
      ensures i >= |queue| ==> forall r <- queue :: r.key != key
    {
      i := 0;
      while i < |queue|
        invariant i <= |queue|
        invariant forall j :: 0 <= j < i ==> queue[j].key != key
      {
        if queue[i].key == key {
          return;
        }
        i := i + 1;
      }
    }

    /** Calls the handler of every queued request with the failure, oldest first, and empties the queue. */
    method Drain(f: Failure)
      requires client.Valid() && client.p == p && queue == client.state.tx.queue
      requires (f.WriteFailed? && !client.state.failed) || f.SenderShutdown?
      modifies this`queue, client`calls, client`events, client`state
      ensures client.Valid() && queue == [] && client.state.tx == old(client.state.tx).(queue := [])
      ensures old(client.events) <= client.events
      ensures client.state.rx == old(client.state.rx) && Elsewhere() == old(Elsewhere())
      ensures client.calls == old(client.calls) + Failures(old(queue), f)
    {
      hide IsRun, Replay;
      ghost var n := 0;
      while queue != []
        invariant client.Valid() && queue == client.state.tx.queue
        invariant n <= |old(queue)| && queue == old(queue)[n..]
        invariant client.state.tx == old(client.state.tx).(queue := queue)
        invariant old(client.events) <= client.events
        invariant client.state.rx == old(client.state.rx) && Elsewhere() == old(Elsewhere())
        invariant client.calls == old(client.calls) + Failures(old(queue)[..n], f)
        decreases |queue|
      {
        var request := queue[0];
        queue := queue[1..];
        client.Error(request.handler, f, None);
        client.Step(Event.Drain(f));
        n := n + 1;
        assert Failures(old(queue)[..n], f) == Failures(old(queue)[..n - 1], f) + [Call(request.handler, Error(f, None))];
      }
      assert old(queue)[..n] == old(queue);
    }

    /** The destructor: every queued request fails; the one in flight is dropped without a call. */
    method Destroy()
      requires client.Valid() && client.p == p && queue == client.state.tx.queue
      modifies this`queue, client`calls, client`events, client`state
      ensures client.Valid() && queue == [] && client.state.tx == old(client.state.tx).(queue := [])
      ensures old(client.events) <= client.events
      ensures client.state.rx == old(client.state.rx) && Elsewhere() == old(Elsewhere())
      ensures client.calls == old(client.calls) + Failures(old(queue), SenderShutdown)
    {
      Drain(SenderShutdown);
    }

    /** Takes the oldest request off the queue and starts writing it. */
    method StartRequest()
      requires Valid() && !dead && writer == null && queue != [] && !client.state.failed
      requires receiver.Valid() && Apart()
      modifies this`queue, this`messageSequence, this`handlerKey, this`writer, this`handler, this`Repr
      modifies client`events, client`state
      ensures Valid() && !dead && writer != null && fresh(Repr - old(Repr)) && receiver.Valid() && Apart()
      ensures queue == old(queue)[1..] && client.events == old(client.events) + [Start]
      ensures Sendable(p, client.state.tx) == Sendable(p, old(client.state.tx))
      ensures LineMoved(
        old(client.state.tx), client.state.tx, client.state.keyed, old(client.calls), client.calls, false)
      ensures client.state.rx == old(client.state.rx) && Elsewhere() == old(Elsewhere())
    {
      hide IsRun, Replay, Aligned, LineMoved, Sendable, Receiver.Aligned;
      var request := queue[0];
      queue := queue[1..];
      messageSequence := request.sequence;
      handlerKey := request.key;
      OpenWriter(request.message, request.value, client.state.tx.wire);
      handler := Some(request.handler);
      BeginKeeps(p, client.state.tx, client.state.keyed, client.calls);
      client.Step(Start);
    }

    /** `packet_writer_factory_->CreateWriter(...)`. */
    method OpenWriter(message: Message, value: bytes, ghost wire: seq<Request>)
      requires writer == null && Aligned(wire) && Repr !! {this, socket, client, receiver}
      modifies this`writer, this`Repr
      ensures writer != null && Aligned(wire) && Repr !! {this, socket, client, receiver} && fresh(Repr - old(Repr))
      ensures writer.message == message && writer.value == value
    {
      hide Stream, Packets, Serializable, PacketWriter.Written, PacketWriter.Before, PacketWriter.Valid;
      writer := new PacketWriter(socket, p, message, value);
      Repr := Repr + {writer, writer.writer};
    }

    /** Writes on; when it is done the socket has accepted the whole frame of the request in flight. */
    method WriteRequest() returns (status: StringStatus)
      requires Valid() && !dead && writer != null
      modifies this`Repr, Repr, socket`writeScript, socket`errno, socket`sent, socket`blockedWrites, socket`writeFaults, socket`statFailures
      ensures Valid() && fresh(Repr - old(Repr))
      ensures status.Done? ==> Completed(client.state.tx.wire, client.state.tx.inFlight.value)
      ensures socket.blockedWrites == old(socket.blockedWrites) + if status.InProgress? then 1 else 0
      ensures socket.writeFaults >= old(socket.writeFaults)
      ensures status.Failed? ==> socket.writeFaults > old(socket.writeFaults) || !Sendable(p, client.state.tx)
      ensures old(socket.statFailures != [] && socket.statFailures[0]) ==> status.Failed?
      ensures old(socket.statFailures) == [] ==>
        && socket.statFailures == []
        && (status.Done? ==> socket.Reach() >= old(socket.Reach()))
        && (!status.Done? && Sendable(p, old(client.state.tx)) ==>
          old(socket.Reach()) <= |socket.sent| < Octets(p, Line(old(client.state.tx))))
    {
      hide IsRun, Replay, Stream, Packets, Serializable, Frame, PacketWriter.Before, PacketWriter.Written, PacketWriter.Valid;
      hide Line, Octets;
      ghost var wire, written := client.state.tx.wire, writer.Written();
      ghost var accepted;
      status, accepted := writer.Write();
      Repr := Repr + {writer.writer};
      Associate(Stream(Packets(p, wire)), written, accepted);
      if !status.Done? && Sendable(p, client.state.tx) && old(socket.statFailures) == [] {
        UnfinishedIsLess(p, client.state.tx, |writer.Written()|);
        OctetsOf(wire);
      }
    }

    lemma OctetsOf(wire: seq<Request>)
      requires Serializable(p, wire)
      ensures Octets(p, wire) == |Stream(Packets(p, wire))|
    {}

    /** The octets sent end with the whole frame of the request. */
    ghost predicate Completed(wire: seq<Request>, r: Request)
      reads socket`sent
    {
      && p.serializeMessage(r.message).Some? && Serializable(p, wire)
      && socket.sent == Stream(Packets(p, wire)) + Frame(PacketOf(p, r))
    }

    /** The request in flight has been written: its handler goes over to the receiver. */
    method HandOverRequest()
      requires Valid() && !dead && writer != null && receiver.Valid() && Apart() && !client.state.failed
      requires Completed(client.state.tx.wire, client.state.tx.inFlight.value)
      modifies this`writer, this`handler, receiver`table, receiver`sequenceOf, client`calls, client`events, client`state
      ensures Valid() && receiver.Valid() && writer == null
      ensures client.events == old(client.events) + [Finish] && queue == old(queue)
      ensures Elsewhere() == old(Elsewhere())
      ensures Sendable(p, old(client.state.tx)) ==> Sendable(p, client.state.tx)
      ensures Line(client.state.tx) == Line(old(client.state.tx)) && old(client.state.tx.wire) <= client.state.tx.wire
      ensures client.state.keyed ==> client.calls == old(client.calls)
    {
      hide IsRun, Replay, Aligned, Completed, Receiver.Aligned, Serializable, HandOver, Line;
      CompleteMovesLine(client.state.tx);
      HandOverKeeps(client.state, client.state.tx.inFlight.value);
      writer := null;
      CompletedIsAligned(client.state.tx.wire, client.state.tx.inFlight.value);
      Entrust(client.state.tx.inFlight.value);
      handler := None;
      client.Step(Finish);
    }

    lemma HandOverKeeps(s: Pipeline.State, r: Request)
      requires IsRun(p, client.events) && s == Replay(p, client.events) && s.tx.inFlight == Some(r)
      ensures s.keyed ==> HandOver(s, r).book.calls == s.book.calls
      ensures var s' := HandOver(s, r);
        && s'.tx == Complete(s.tx, r) && s'.rx.replies == s.rx.replies && s'.rx.connectionId == s.rx.connectionId
        && s'.book.submitted == s.book.submitted && s'.book.removed == s.book.removed
        && s'.failed == s.failed && s'.keyed == s.keyed
    {
      hide IsRun, Replay;
      if s.keyed {
        RejectionUnreachable(p, client.events);
      }
    }

    /** The receiver takes the handler, or the handler is called with an error. */
    method Entrust(ghost r: Request)
      requires handler == Some(r.handler) && messageSequence == r.sequence && handlerKey == r.key
      requires receiver.table == client.state.rx.awaiting && receiver.sequenceOf == client.state.rx.sequenceOf
      requires client.calls == client.state.book.calls
      modifies receiver`table, receiver`sequenceOf, client`calls
      ensures receiver.table == HandOver(client.state, r).rx.awaiting
      ensures receiver.sequenceOf == HandOver(client.state, r).rx.sequenceOf
      ensures client.calls == HandOver(client.state, r).book.calls
    {
      var ok := receiver.Enqueue(handler.value, messageSequence, handlerKey);
      if !ok {
        client.Error(handler.value, CouldNotEnqueue, None);
      }
    }

    lemma CompletedIsAligned(wire: seq<Request>, r: Request)
      requires Completed(wire, r) && writer == null
      ensures Aligned(wire + [r])
    {
      assert Packets(p, wire + [r]) == Packets(p, wire) + [PacketOf(p, r)];
      StreamSnoc(Packets(p, wire), PacketOf(p, r));
    }

    /** A failed write ends the request in flight and every queued one. */
    method FailAll()
      requires Valid() && !dead && writer != null && !client.state.failed
      modifies this`handler, this`queue, this`dead, client`calls, client`events, client`state
      ensures Valid() && dead && queue == []
      ensures old(client.events) + [WriteError] <= client.events
      ensures client.state.rx == old(client.state.rx) && Elsewhere() == old(Elsewhere())
      ensures client.calls == old(client.calls) + Failures(InFlight(old(client.state.tx)) + old(queue), WriteFailed)
      ensures client.state.tx.wire == old(client.state.tx.wire)
    {
      hide IsRun, Replay, Aligned;
      ghost var first, rest := InFlight(client.state.tx), queue;
      client.Error(handler.value, WriteFailed, None);
      assert client.calls == old(client.calls) + Failures(first, WriteFailed);
      handler := None;
      client.Step(WriteError);
      Drain(WriteFailed);
      FailuresConcat(first, rest, WriteFailed);
      Associate(old(client.calls), Failures(first, WriteFailed), Failures(rest, WriteFailed));
      dead := true;
    }

    /** The socket takes all octets of the line before it stalls, and every request has octets. */
    ghost predicate Writable()
      reads socket, client
    {
      socket.statFailures == [] && Sendable(p, client.state.tx) && socket.Reach() >= Octets(p, Line(client.state.tx))
    }

    /**
     * Writes requests for as long as the socket lets it.  It is `Idle` only when there is nothing to send,
     * `IoWait` only when a write would block, and `Fatal` after a failure of the request in flight; that
     * request and all queued ones have then failed, in their order.  Otherwise no request is dropped or
     * overtakes another one; and under the service no handler is called.  If the socket does not stall before
     * all octets of the line have been sent, it is `Idle`, and the whole line is on the wire.
     */
    method Send() returns (status: ServiceStatus)
      requires Valid() && !dead && receiver.Valid() && Apart() && !client.state.failed
      modifies this, Repr, socket`writeScript, socket`errno, socket`sent, socket`blockedWrites, socket`writeFaults, socket`statFailures
      modifies receiver`table, receiver`sequenceOf, client`calls, client`events, client`state
      ensures Valid() && receiver.Valid() && fresh(Repr - old(Repr)) && (dead <==> status.Fatal?)
      ensures old(client.events) <= client.events && Elsewhere() == old(Elsewhere())
      ensures status.Idle? ==> queue == [] && writer == null
      ensures status.IoWait? ==> writer != null
      ensures status.Fatal? ==> queue == []
      ensures status.Fatal? ==> socket.writeFaults > old(socket.writeFaults) || !Sendable(p, old(client.state.tx))
      ensures LineMoved(
        old(client.state.tx), client.state.tx, client.state.keyed, old(client.calls), client.calls, status.Fatal?)
      ensures old(Writable() || (writer == null && queue == [])) ==> status.Idle?
      ensures old(writer != null && socket.statFailures != [] && socket.statFailures[0]) ==>
        status.Fatal? && old(client.events) + [WriteError] <= client.events
      ensures socket.blockedWrites == old(socket.blockedWrites) + if status.IoWait? then 1 else 0
    {
      hide IsRun, Replay, Aligned, Queues, Receiver.Valid, Sendable, LineMoved, Octets, Line;
      ghost var before, calls, keyed := client.state.tx, client.calls, client.state.keyed;
      LineStays(before, keyed, calls);
      while true
        invariant Valid() && !dead && receiver.Valid() && fresh(Repr - old(Repr)) && Apart()
        invariant old(client.events) <= client.events && Elsewhere() == old(Elsewhere())
        invariant socket.blockedWrites == old(socket.blockedWrites) && socket.writeFaults >= old(socket.writeFaults)
        invariant Sendable(p, old(client.state.tx)) ==> Sendable(p, client.state.tx)
        invariant LineMoved(
          old(client.state.tx), client.state.tx, client.state.keyed, old(client.calls), client.calls, false)
        invariant Line(client.state.tx) == Line(before)
        invariant old(Writable()) ==> Writable()
        invariant old(writer == null && queue == []) ==> writer == null && queue == []
        invariant old(writer != null && socket.statFailures != [] && socket.statFailures[0]) ==>
          writer != null && socket.statFailures == old(socket.statFailures) && client.events == old(client.events)
        decreases |queue| + if writer == null then 0 else 1
      {
        if writer == null {
          if queue == [] {
            return Idle;
          }
          ghost var tx, made := client.state.tx, client.calls;
          StartRequest();
          LineMovedOn(before, tx, client.state.tx, keyed, calls, made, client.calls, false);
        }
        ghost var tx, made := client.state.tx, client.calls;
        var stop := Round();
        LineMovedOn(before, tx, client.state.tx, keyed, calls, made, client.calls, stop == Some(Fatal));
        if stop.Some? {
          return stop.value;
        }
      }
    }

    /** One request: writes on, and hands it over or stops. */
    method Round() returns (stop: Option<ServiceStatus>)
      requires Valid() && !dead && writer != null && receiver.Valid() && Apart() && !client.state.failed
      modifies this, Repr, socket`writeScript, socket`errno, socket`sent, socket`blockedWrites, socket`writeFaults, socket`statFailures
      modifies receiver`table, receiver`sequenceOf, client`calls, client`events, client`state
      ensures Valid() && receiver.Valid() && fresh(Repr - old(Repr)) && (dead <==> stop == Some(Fatal))
      ensures old(client.events) <= client.events && Elsewhere() == old(Elsewhere())
      ensures match stop
        case None =>
          && writer == null && queue == old(queue)
          && (Sendable(p, old(client.state.tx)) ==> Sendable(p, client.state.tx))
        case Some(s) => !s.Idle? && (s.IoWait? ==> writer != null) && (s.Fatal? ==> queue == [])
      ensures socket.blockedWrites == old(socket.blockedWrites) + if stop == Some(IoWait) then 1 else 0
      ensures socket.writeFaults >= old(socket.writeFaults)
      ensures stop == Some(Fatal) ==> socket.writeFaults > old(socket.writeFaults) || !Sendable(p, old(client.state.tx))
      ensures old(socket.statFailures) == [] ==>
        && socket.statFailures == []
        && (stop.None? ==> socket.Reach() >= old(socket.Reach()))
        && (!stop.None? && Sendable(p, old(client.state.tx)) ==>
          old(socket.Reach()) <= |socket.sent| < Octets(p, Line(old(client.state.tx))))
      ensures old(socket.statFailures != [] && socket.statFailures[0]) ==>
        stop == Some(Fatal) && old(client.events) + [WriteError] <= client.events
      ensures LineMoved(
        old(client.state.tx), client.state.tx, client.state.keyed, old(client.calls), client.calls, stop == Some(Fatal))
    {
      hide IsRun, Replay, Aligned, Completed, Receiver.Aligned, Sendable, Octets;
      WireIsPrefix(client.state.tx);
      var written := WriteRequest();
      if written.InProgress? {
        return Some(IoWait);
      }
      if written.Failed? {
        FailAll();
        return Some(Fatal);
      }
      HandOverRequest();
      WireIsPrefix(client.state.tx);
      return None;
    }
  }
}
