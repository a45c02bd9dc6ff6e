/** The receiving half of the pipeline: requests that wait for their response, and packets coming in. */
module Receivers {
  import opened Bytes
  import opened Clients
  import opened Conservation
  import opened Framing
  import opened Hmac
  import opened Messages
  import opened NonblockingPacket
  import opened NonblockingString
  import opened Pipeline
  import opened PipelineInvariants
  import opened Sockets
  import opened Wrappers

  datatype ServiceStatus = Idle | IoWait | Fatal

  /** The packet is the response to some request. */
  predicate Responds(p: Protocol, packet: Packet) {
    p.parseMessage(packet.message).Some? && MeaningOf(p, packet).Acknowledged?
  }

  /** The packets have arrived one after the other, and nothing else has happened. */
  function Arrivals(packets: seq<Packet>): (events: seq<Event>)
    ensures |events| == |packets|
  {
    seq(|packets|, i requires 0 <= i < |packets| => Reply(packets[i]))
  }

  /** What handlers may be told: what the drive says, or (only at a stop) why everything ends. */
  predicate Permitted(stop: Option<ServiceStatus>, o: Outcome) {
    match o
    case Handled(_, _) => true
    case Error(f, _) =>
      || f.Remote?
      || (stop == Some(Idle) && (f.HmacMismatch? || f.NoAckSequence?))
      || (stop == Some(Fatal) && (f.ReadFailed? || f.CommandNotParsed?))
  }

  /** Only permitted calls have been added. */
  predicate Grew(before: seq<Call>, after: seq<Call>, stop: Option<ServiceStatus>) {
    before <= after && forall i :: |before| <= i < |after| ==> Permitted(stop, after[i].outcome)
  }

  /** What a receiver has to tell: the packets it has read, the run so far, and the calls made. */
  datatype Story = Story(replies: seq<Packet>, events: seq<Event>, calls: seq<Call>)

  /** All packets from this one on are responses. */
  predicate RespondsFrom(p: Protocol, replies: seq<Packet>, known: nat) {
    forall i :: known <= i < |replies| ==> Responds(p, replies[i])
  }

  /**
   * How the story goes on until a stop.  As long as all packets are responses, their arrival is all that
   * happens, and it is so for as long as there is no stop; and only permitted calls are made.
   */
  predicate Heard(p: Protocol, a: Story, b: Story, stop: Option<ServiceStatus>) {
    && a.replies <= b.replies && Grew(a.calls, b.calls, stop)
    && (stop.None? ==> RespondsFrom(p, b.replies, |a.replies|))
    && (stop != Some(Fatal) && RespondsFrom(p, b.replies, |a.replies|) ==>
      b.events == a.events + Arrivals(b.replies[|a.replies|..]))
  }

  lemma HeardPacket(p: Protocol, a: Story, b: Story, packet: Packet, stop: Option<ServiceStatus>)
    requires b.replies == a.replies + [packet] && Grew(a.calls, b.calls, stop)
    requires stop != Some(Fatal) ==> (Responds(p, packet) <==> stop.None?)
    requires stop.None? ==> b.events == a.events + [Reply(packet)]
    ensures Heard(p, a, b, stop)
  {
    assert b.replies[|a.replies|] == packet;
    assert b.replies[|a.replies|..] == [packet];
  }

  lemma HeardNothing(p: Protocol, a: Story, stop: Option<ServiceStatus>)
    ensures Heard(p, a, a, stop)
  {}

  /** A failed read: no packet more, and everything that waited has been told. */
  lemma HeardFatal(p: Protocol, a: Story, b: Story, made: seq<Call>)
    requires b.replies == a.replies && b.calls == a.calls + made
    requires forall c <- made :: c.outcome == Error(ReadFailed, None)
    ensures Heard(p, a, b, Some(Fatal))
  {}

  lemma HeardOn(p: Protocol, a: Story, b: Story, c: Story, stop: Option<ServiceStatus>)
    requires Heard(p, a, b, None) && Heard(p, b, c, stop)
    ensures Heard(p, a, c, stop)
  {
    hide Responds;
    var x, y := b.replies[|a.replies|..], c.replies[|b.replies|..];
    assert c.replies[|a.replies|..] == x + y;
    assert forall i :: |a.replies| <= i < |b.replies| ==> c.replies[i] == b.replies[i];
    assert Arrivals(x + y) == Arrivals(x) + Arrivals(y);
    Associate(a.events, Arrivals(x), Arrivals(y));
  }

  class Receiver {
    const socket: Socket
    const client: Client
    const p: Protocol
    var reader: PacketReader?
    var connectionId: int
    var handler: Option<Handler>
    /** `map_`: by sequence number, the handler and its key. */
    var table: map<int, Entry>
    /** `handler_to_message_seq_map_`: by key, the sequence number. */
    var sequenceOf: map<int, int>
    /** An irrecoverable error has been reported; the packet that was being read is lost. */
    ghost var dead: bool
    /** The objects that only this one uses. */
    ghost var Repr: set<object>

    /** The tables are those of the run, and between calls no handler is being invoked. */
    ghost predicate Tables()
      reads this, client
    {
      && client.p == p
      && table == client.state.rx.awaiting && sequenceOf == client.state.rx.sequenceOf
      && connectionId == client.state.rx.connectionId
      && handler.None?
    }

    /**
     * The octets read are the frames of the packets of the run and, while one is being read, a proper
     * prefix of another frame; so nothing is ever taken that comes after that frame.
     */
    ghost predicate Aligned(replies: seq<Packet>)
      reads this`reader, this`Repr, socket`received, Repr
    {
      && (reader != null ==>
        && reader in Repr && reader.Repr <= Repr
        && reader.reader in Repr && reader.reader.buf in Repr
        && reader.Valid() && reader.socket == socket && reader.p == p
        && Decode(reader.Consumed()).NeedMore?)
      && (forall packet <- replies :: Fits(packet))
      && socket.received == Stream(replies) + if reader == null then [] else reader.Consumed()
    }

    /** After the packets of the run come octets that are no packet. */
    ghost predicate Malformed(replies: seq<Packet>)
      reads socket`received
    {
      && (forall packet <- replies :: Fits(packet))
      && exists tail :: socket.received == Stream(replies) + tail && NoPacket(tail)
    }

    predicate NoPacket(s: bytes) {
      || Decode(s).BadMagic?
      || (Decode(s).Whole? && p.parseMessage(Decode(s).packet.message).None?)
    }

    lemma NoPacketMeansMalformed(replies: seq<Packet>, tail: bytes)
      requires socket.received == Stream(replies) + tail && forall packet <- replies :: Fits(packet)
      requires NoPacket(tail)
      ensures Malformed(replies)
    {}

    ghost predicate Valid()
      reads this, client, socket, Repr
    {
      && Repr !! {this, socket, client}
      && client.Valid() && Tables() && (!dead ==> Aligned(client.state.rx.replies))
    }

    ghost function Told(): Story
      reads client
    {
      Story(client.state.rx.replies, client.events, client.calls)
    }

    /** All of the pipeline that the receiver has no part in. */
    ghost function Elsewhere(): (Outbound, seq<Handler>, seq<Handler>, bool, bool)
      reads client
    {
      var s := client.state;
      (s.tx, s.book.submitted, s.book.removed, s.failed, s.keyed)
    }

    /** The first part of the source's constructor: the handshake is waited for under number -1. */
    constructor (socket: Socket, client: Client)
      requires client.Valid() && client.events == [] && socket.received == []
      ensures Valid() && !dead && Repr == {}
      ensures this.socket == socket && this.client == client && this.p == client.p
      ensures reader == null && table == map[-1 := Entry(Handshake, -1)] && sequenceOf == map[-1 := -1]
    {
      this.socket, this.client, this.p := socket, client, client.p;
      reader, connectionId, handler := null, 0, None;
      table := map[HANDSHAKE_SEQUENCE := Entry(Handshake, HANDSHAKE_KEY)];
      sequenceOf := map[HANDSHAKE_KEY := HANDSHAKE_SEQUENCE];
      dead, Repr := false, {};
    }

    /**
     * Files a handler under its sequence number and its key.  It refuses if either is taken, and then
     * leaves both tables as they were.
     */
    method Enqueue(newHandler: Handler, sequence: int, key: int) returns (ok: bool)
      modifies this`table, this`sequenceOf
      ensures ok <==> sequence !in old(table) && key !in old(sequenceOf)
      ensures ok ==> table == old(table)[sequence := Entry(newHandler, key)] && sequenceOf == old(sequenceOf)[key := sequence]
      ensures !ok ==> table == old(table) && sequenceOf == old(sequenceOf)
    {
      if sequence in table {
        return false;
      }
      table := table[sequence := Entry(newHandler, key)];
      if key in sequenceOf {
        assert sequence in table;
        table := table - {sequence};
        assert table == old(table);
        return false;
      }
      sequenceOf := sequenceOf[key := sequence];
      return true;
    }

    /** Takes a waiting handler out of both tables, so that it will not be called. */
    method Remove(key: int) returns (ok: bool)
      requires client.Valid() && Tables()
      modifies this`table, this`sequenceOf, client`events, client`state
      ensures client.Valid() && Tables()
      ensures ok <==> key in old(sequenceOf)
      ensures ok ==>
        && client.events == old(client.events) + [RemoveAwaiting(key)]
        && Enabled(p, old(client.state), RemoveAwaiting(key))
        && client.state == Next(p, old(client.state), RemoveAwaiting(key))
      ensures !ok ==> client.events == old(client.events) && client.state == old(client.state)
      ensures key !in sequenceOf
      ensures client.state.rx.replies == old(client.state.rx.replies) && client.state.tx == old(client.state.tx)
      ensures client.state.failed == old(client.state.failed) && client.state.keyed == old(client.state.keyed)
      ensures client.state.book.submitted == old(client.state.book.submitted)
    {
      if key !in sequenceOf {
        return false;
      }
      TablesStayInverse(p, client.events);
      var sequence := sequenceOf[key];
      sequenceOf := sequenceOf - {key};
      assert sequence in table;
      assert table[sequence].key == key;
      table := table - {sequence};
      client.Step(RemoveAwaiting(key));
      return true;
    }

    /** Calls every handler that waits with the failure, in no particular order, and empties both tables. */
    method CallAllErrorHandlers(f: Failure) returns (ghost made: seq<Call>)
      requires client.Valid() && Tables() && Justified(p, client.state.rx.replies, f)
      requires client.state.failed ==> f.ReceiverShutdown?
      modifies this`table, this`sequenceOf, client`calls, client`events, client`state
      ensures client.Valid() && Tables()
      ensures old(client.events) <= client.events
      ensures Elsewhere() == old(Elsewhere())
      ensures client.state.rx.replies == old(client.state.rx.replies)
      ensures GaveUp(old(client.calls), old(|table|), made, f)
    {
      if handler.Some? {
        assert false;
      }
      made := FailEach(table, f);
      assert made != [] ==> made[|made| - 1] in made;
      TablesStayInverse(p, client.events);
      NothingLeft(client.state.rx);
      table := map[];
    }

    /** Halfway through `CallAllErrorHandlers`: `table` is not up to date, `pending` is. */
    ghost predicate Failing(pending: map<int, Entry>)
      reads this, client
    {
      && client.Valid() && client.p == p
      && pending == client.state.rx.awaiting && sequenceOf == client.state.rx.sequenceOf
    }

    /** The loop of `CallAllErrorHandlers`. */
    method FailEach(entries: map<int, Entry>, f: Failure) returns (ghost made: seq<Call>)
      requires Failing(entries) && Justified(p, client.state.rx.replies, f)
      requires client.state.failed ==> f.ReceiverShutdown?
      modifies this`sequenceOf, client`calls, client`events, client`state
      ensures Failing(map[])
      ensures old(client.events) <= client.events
      ensures Elsewhere() == old(Elsewhere())
      ensures client.state.rx.replies == old(client.state.rx.replies)
      ensures client.state.rx.connectionId == old(client.state.rx.connectionId)
      ensures client.calls == old(client.calls) + made && |made| == |entries|
      ensures forall c <- made :: c.outcome == Error(f, None)
    {
      hide Failing, Justified, Elsewhere;
      var pending := entries;
      made := [];
      while pending != map[]
        invariant Failing(pending)
        invariant old(client.events) <= client.events
        invariant Elsewhere() == old(Elsewhere()) && client.state.failed == old(client.state.failed)
        invariant client.state.rx.replies == old(client.state.rx.replies)
        invariant client.state.rx.connectionId == old(client.state.rx.connectionId)
        invariant client.calls == old(client.calls) + made && |made| + |pending| == |entries|
        invariant forall c <- made :: c.outcome == Error(f, None)
        decreases |pending|
      {
        var q := Pick(pending);
        var entry := pending[q];
        FailOne(pending, q, f);
        made := made + [Call(entry.handler, Error(f, None))];
        pending := pending - {q};
      }
    }

    /** One round of the loop: the entry's key is forgotten and its handler is called. */
    method FailOne(pending: map<int, Entry>, q: int, f: Failure)
      requires Failing(pending) && Justified(p, client.state.rx.replies, f) && q in pending
      requires client.state.failed ==> f.ReceiverShutdown?
      modifies this`sequenceOf, client`calls, client`events, client`state
      ensures Failing(pending - {q})
      ensures client.state.rx.replies == old(client.state.rx.replies)
      ensures client.state.rx.connectionId == old(client.state.rx.connectionId)
      ensures client.events == old(client.events) + [Fail(q, f)]
      ensures client.calls == old(client.calls) + [Call(pending[q].handler, Error(f, None))]
      ensures Elsewhere() == old(Elsewhere()) && client.state.failed == old(client.state.failed)
    {
      var entry := pending[q];
      TablesStayInverse(p, client.events);
      assert entry.key in sequenceOf;
      sequenceOf := sequenceOf - {entry.key};
      client.Error(entry.handler, f, None);
      client.Step(Fail(q, f));
    }

    lemma NothingLeft(rx: Inbound)
      requires Inverse(rx) && rx.awaiting == map[]
      ensures rx.sequenceOf == map[]
    {
      assert forall k :: k !in rx.sequenceOf;
    }

    lemma SomeKey(m: map<int, Entry>)
      ensures m == map[] || exists k :: k in m
    {
      assert (forall k :: k !in m) ==> m == map[];
    }

    /** Any entry: the order in which a hash table is gone through is not specified. */
    method Pick(m: map<int, Entry>) returns (q: int)
      requires m != map[]
      ensures q in m && |m - {q}| == |m| - 1
    {
      SomeKey(m);
      q :| q in m;
      assert (m - {q}).Keys == m.Keys - {q};
    }

    /**
     * What `Receive` does with a packet once it has been read: authenticate, parse, note the connection
     * id, and either give up on everything (`stop`) or go on after completing at most one request.
     */
    method Complete(message: Message, value: bytes, ghost packet: Packet)
      returns (stop: Option<ServiceStatus>, ghost made: seq<Call>)
      requires client.Valid() && Tables() && !client.state.failed
      requires p.parseMessage(packet.message) == Some(message) && packet.value == value
      modifies this`connectionId, this`handler, this`table, this`sequenceOf, client`calls, client`events, client`state
      ensures client.Valid() && Tables() && Elsewhere() == old(Elsewhere())
      ensures old(client.events) + [Reply(packet)] <= client.events
      ensures client.state.rx.replies == old(client.state.rx.replies) + [packet]
      ensures match MeaningOf(p, packet)
        case Forged => stop == Some(Idle) && GaveUp(old(client.calls), old(|table|), made, HmacMismatch)
        case Garbled => stop == Some(Fatal) && GaveUp(old(client.calls), old(|table|), made, CommandNotParsed)
        case Unacknowledged(_) => stop == Some(Idle) && GaveUp(old(client.calls), old(|table|), made, NoAckSequence)
        case Acknowledged(_, _) => stop == None && client.events == old(client.events) + [Reply(packet)]
      ensures Grew(old(client.calls), client.calls, stop)
      ensures message.hmacAuth.Some? && !Authentic(p, message) ==>
        stop == Some(Idle) && GaveUp(old(client.calls), old(|table|), made, HmacMismatch)
      ensures Genuine(p, message) && p.parseCommand(message.commandBytes).None? ==>
        stop == Some(Fatal) && GaveUp(old(client.calls), old(|table|), made, CommandNotParsed)
      ensures Genuine(p, message) && p.parseCommand(message.commandBytes).Some? ==>
        var c := p.parseCommand(message.commandBytes).value;
        && connectionId == (if c.connectionId.Some? then c.connectionId.value else old(connectionId))
        && (c.ackSequence.None? && !message.authType.UnsolicitedStatus? ==>
          stop == Some(Idle) && GaveUp(old(client.calls), old(|table|), made, NoAckSequence))
      ensures Genuine(p, message) && p.parseCommand(message.commandBytes).Some? ==>
        var c := p.parseCommand(message.commandBytes).value;
        var told := if message.authType.UnsolicitedStatus? then c.(ackSequence := Some(HANDSHAKE_SEQUENCE)) else c;
        told.ackSequence.Some? ==>
          && stop == None && table == old(table) - {told.ackSequence.value}
          && client.calls == old(client.calls) +
            if told.ackSequence.value !in old(table) then [] else [Call(
              old(table)[told.ackSequence.value].handler,
              if c.status.Success? then Handled(told, value)
              else Error(Remote(c.status.code, c.clusterVersion), Some(told)))]
    {
      hide IsRun, Replay, Authentic;
      made := [];
      if message.hmacAuth.Some? {
        var ok := ValidateHmac(p, message);
        if !ok {
          made := GiveUp(packet, HmacMismatch);
          return Some(Idle), made;
        }
      }
      var parsed := p.parseCommand(message.commandBytes);
      if parsed.None? {
        made := GiveUp(packet, CommandNotParsed);
        return Some(Fatal), made;
      }
      var command := parsed.value;
      if command.connectionId.Some? {
        connectionId := command.connectionId.value;
      }
      if message.authType.UnsolicitedStatus? {
        command := command.(ackSequence := Some(HANDSHAKE_SEQUENCE));
      }
      if command.ackSequence.None? {
        made := GiveUp(packet, NoAckSequence);
        return Some(Idle), made;
      }
      Deliver(command, command.ackSequence.value, value, packet);
      return None, made;
    }

    /** A packet that acknowledges nothing ends every request that waits. */
    method GiveUp(ghost packet: Packet, f: Failure) returns (ghost made: seq<Call>)
      requires client.Valid() && client.p == p && handler.None? && !client.state.failed
      requires table == client.state.rx.awaiting && sequenceOf == client.state.rx.sequenceOf
      requires p.parseMessage(packet.message).Some? && !MeaningOf(p, packet).Acknowledged?
      requires connectionId == Replied(p, client.state, packet).rx.connectionId
      requires Justified(p, client.state.rx.replies + [packet], f)
      modifies this`table, this`sequenceOf, client`calls, client`events, client`state
      ensures client.Valid() && Tables() && Elsewhere() == old(Elsewhere())
      ensures old(client.events) + [Reply(packet)] <= client.events
      ensures client.state.rx.replies == old(client.state.rx.replies) + [packet]
      ensures GaveUp(old(client.calls), old(|table|), made, f)
    {
      hide IsRun, Replay, Justified, Interpret;
      client.Step(Reply(packet));
      made := CallAllErrorHandlers(f);
    }

    /** Everything that waited has been called with the failure. */
    ghost predicate GaveUp(calls: seq<Call>, waiting: nat, made: seq<Call>, f: Failure)
      reads this, client
    {
      && table == map[] && sequenceOf == map[]
      && client.calls == calls + made && |made| == waiting && (waiting > 0 ==> EndsIn(client.calls, f))
      && forall c <- made :: c.outcome == Error(f, None)
    }

    ghost predicate EndsIn(calls: seq<Call>, f: Failure) {
      calls != [] && calls[|calls| - 1].outcome == Error(f, None)
    }

    /** Completes the request with this sequence number, if it waits. */
    method Deliver(command: Command, sequence: int, value: bytes, ghost packet: Packet)
      requires client.Valid() && client.p == p && handler.None? && !client.state.failed
      requires table == client.state.rx.awaiting && sequenceOf == client.state.rx.sequenceOf
      requires connectionId == Connected(client.state.rx, command).connectionId
      requires p.parseMessage(packet.message).Some? && packet.value == value
      requires MeaningOf(p, packet) == Acknowledged(command, sequence)
      modifies this`handler, this`table, this`sequenceOf, client`calls, client`events, client`state
      ensures client.Valid() && Tables() && Elsewhere() == old(Elsewhere())
      ensures client.events == old(client.events) + [Reply(packet)]
      ensures client.state.rx.replies == old(client.state.rx.replies) + [packet]
      ensures Grew(old(client.calls), client.calls, None)
      ensures table == old(table) - {sequence} && connectionId == old(connectionId)
      ensures sequence !in old(table) ==> client.calls == old(client.calls)
      ensures sequence in old(table) ==>
        client.calls == old(client.calls) + [Call(
          old(table)[sequence].handler,
          if command.status.Success? then Handled(command, value)
          else Error(Remote(command.status.code, command.clusterVersion), Some(command)))]
    {
      hide IsRun, Replay, Interpret;
      if sequence in table {
        TablesStayInverse(p, client.events);
        var entry := table[sequence];
        handler := Some(entry.handler);
        table := table - {sequence};
        assert entry.key in sequenceOf;
        sequenceOf := sequenceOf - {entry.key};
        if command.status.Success? {
          client.Handle(handler.value, command, value);
        } else {
          client.Error(handler.value, Remote(command.status.code, command.clusterVersion), Some(command));
        }
        handler := None;
      }
      client.Step(Reply(packet));
    }

    /** The client's half of `Valid`, which holds whatever has become of the packet being read. */
    ghost predicate Ready()
      reads this, client
    {
      Repr !! {this, socket, client} && client.Valid() && Tables()
    }

    /** Starts on a new packet. */
    method StartPacket()
      requires Valid() && !dead && reader == null
      modifies this`reader, this`Repr
      ensures Valid() && fresh(Repr - old(Repr))
      ensures reader != null && reader.state.Magic? && reader.reader.bytesRead == 0
    {
      hide IsRun, Replay, Stream;
      reader := new PacketReader(socket, p);
      Repr := Repr + reader.Repr;
    }

    /**
     * Reads on.  A finished packet leaves the receiver without one, and the octets read are then those of
     * the earlier packets and of this one.
     */
    method ReadPacket() returns (read: StringStatus, message: Option<Message>, value: bytes, ghost packet: Packet)
      requires Valid() && !dead && reader != null
      modifies this, Repr, socket`readScript, socket`errno, socket`incoming, socket`received, socket`blockedReads, socket`readFaults
      ensures Ready() && fresh(Repr - old(Repr)) && (dead <==> read.Failed?)
      ensures table == old(table) && sequenceOf == old(sequenceOf) && connectionId == old(connectionId)
      ensures read.InProgress? ==> Aligned(client.state.rx.replies) && reader != null
      ensures read.Done? ==>
        && reader == null && Fits(packet) && Aligned(client.state.rx.replies + [packet])
        && message.Some? && p.parseMessage(packet.message) == message && packet.value == value
      ensures read.Failed? ==> socket.readFaults > old(socket.readFaults) || Malformed(client.state.rx.replies)
      ensures socket.received + socket.incoming == old(socket.received + socket.incoming)
      ensures socket.blockedReads == old(socket.blockedReads) + if read.InProgress? then 1 else 0
      ensures socket.readFaults >= old(socket.readFaults)
      ensures old(socket.Calm()) ==>
        socket.readFaults == old(socket.readFaults) && if read.InProgress? then socket.Drained() else socket.Calm()
      ensures |socket.readScript| <= |old(socket.readScript)|
      ensures read.Done? && old(reader.state.Magic? && reader.reader.bytesRead == 0) ==>
        |socket.readScript| < |old(socket.readScript)|
    {
      hide IsRun, Replay, Stream, Decode, Frame, Malformed, NoPacket, PacketReader.Before, PacketReader.Consumed, Fits;
      ghost var replies, before := client.state.rx.replies, reader.Consumed();
      ghost var taken;
      read, taken := reader.Read();
      Repr := Repr + reader.Repr;
      dead, message, value, packet := read.Failed?, None, [], Packet(reader.message, reader.value);
      Associate(Stream(replies), before, taken);
      if read.Failed? && socket.readFaults == old(socket.readFaults) {
        NoPacketMeansMalformed(replies, before + taken);
      }
      if read.Done? {
        message, value := reader.response, reader.value;
        StreamSnoc(replies, packet);
        reader := null;
      }
    }

    /** What a fatal error is due to: a failed read, octets that are no packet, or a new but garbled packet. */
    ghost predicate Fault(replies: seq<Packet>, known: nat, readFaults: nat)
      reads socket`readFaults, socket`received
    {
      || socket.readFaults > readFaults
      || Malformed(replies)
      || Garbles(replies, known)
    }

    ghost predicate Garbles(replies: seq<Packet>, known: nat)
      reads socket`received
    {
      && |replies| > known && (forall packet <- replies :: Fits(packet)) && socket.received == Stream(replies)
      && LastIs(p, replies, (m: Meaning) => m.Garbled?)
    }

    /**
     * Reads packets and completes requests for as long as the socket lets it.  It is `Idle` only when
     * nothing is left to wait for, `IoWait` only when a read would block, and `Fatal` after a failed read
     * or octets that are no packet, with everything that waited called with that failure.  No handler is
     * told that a request has failed unless the drive said so, or everything that waits ends like that.
     */
    method Receive() returns (status: ServiceStatus)
      requires Valid() && !dead && !client.state.failed
      modifies this, Repr, socket`readScript, socket`errno, socket`incoming, socket`received, socket`blockedReads, socket`readFaults
      modifies client`calls, client`events, client`state
      ensures Valid() && fresh(Repr - old(Repr)) && (dead <==> status.Fatal?)
      ensures old(client.events) <= client.events && Elsewhere() == old(Elsewhere())
      ensures status.Idle? ==> reader == null && table == map[] && sequenceOf == map[]
      ensures status.Fatal? ==> table == map[] && sequenceOf == map[]
      ensures status.Fatal? && old(table) != map[] ==> EndsIn(client.calls, ReadFailed) || EndsIn(client.calls, CommandNotParsed)
      ensures Heard(p, old(Told()), Told(), Some(status))
      ensures |client.state.rx.replies| >= |old(client.state.rx.replies)|
      ensures status.Fatal? ==> Fault(client.state.rx.replies, |old(client.state.rx.replies)|, old(socket.readFaults))
      ensures old(socket.Calm()) ==>
        socket.readFaults == old(socket.readFaults) && (status.IoWait? ==> socket.Drained())
      ensures status.IoWait? ==> reader != null && (old(table) != map[] ==> table != map[])
      ensures socket.blockedReads == old(socket.blockedReads) + if status.IoWait? then 1 else 0
      ensures socket.received + socket.incoming == old(socket.received + socket.incoming)
    {
      hide IsRun, Replay, Aligned, Heard, Fault;
      ghost var told := Told();
      HeardNothing(p, told, None);
      while true
        invariant Valid() && !dead && fresh(Repr - old(Repr))
        invariant old(client.events) <= client.events && Elsewhere() == old(Elsewhere())
        invariant |client.state.rx.replies| >= |told.replies|
        invariant reader != null ==> table == old(table)
        invariant Heard(p, told, Told(), None)
        invariant old(socket.Calm()) ==> socket.Calm() && socket.readFaults == old(socket.readFaults)
        invariant socket.blockedReads == old(socket.blockedReads) && socket.readFaults >= old(socket.readFaults)
        invariant socket.received + socket.incoming == old(socket.received + socket.incoming)
        invariant |socket.readScript| <= |old(socket.readScript)|
        decreases |socket.readScript|, if reader == null then 0 else 1
      {
        if reader == null {
          if table == map[] {
            TablesStayInverse(p, client.events);
            NothingLeft(client.state.rx);
            HeardNothing(p, Told(), Some(Idle));
            HeardOn(p, told, Told(), Told(), Some(Idle));
            return Idle;
          }
          StartPacket();
        }
        ghost var before := Told();
        var stop := Round();
        HeardOn(p, told, before, Told(), stop);
        if stop.Some? {
          if stop.value.Fatal? {
            FaultSince(client.state.rx.replies, |before.replies|, |told.replies|, old(socket.readFaults));
          }
          return stop.value;
        }
      }
    }

    lemma FaultSince(replies: seq<Packet>, known: nat, earlier: nat, readFaults: nat)
      requires Fault(replies, known, readFaults) && earlier <= known
      ensures Fault(replies, earlier, readFaults)
    {}

    lemma FaultOfRead(readFaults: nat)
      requires socket.readFaults > readFaults || Malformed(client.state.rx.replies)
      ensures Fault(client.state.rx.replies, |client.state.rx.replies|, readFaults)
    {}

    lemma GarbledMeansFault(replies: seq<Packet>, packet: Packet, readFaults: nat)
      requires Aligned(replies + [packet]) && reader == null
      requires p.parseMessage(packet.message).Some? && MeaningOf(p, packet).Garbled?
      ensures Fault(replies + [packet], |replies|, readFaults)
    {}

    /** One packet: reads on, and completes a request or stops. */
    method Round() returns (stop: Option<ServiceStatus>)
      requires Valid() && !dead && reader != null && !client.state.failed
      modifies this, Repr, socket`readScript, socket`errno, socket`incoming, socket`received, socket`blockedReads, socket`readFaults
      modifies client`calls, client`events, client`state
      ensures Valid() && fresh(Repr - old(Repr)) && (dead <==> stop == Some(Fatal))
      ensures old(client.events) <= client.events && Elsewhere() == old(Elsewhere())
      ensures stop == None || stop == Some(Idle) ==> reader == null
      ensures stop == Some(Idle) || stop == Some(Fatal) ==> table == map[] && sequenceOf == map[]
      ensures stop == Some(Fatal) && old(table) != map[] ==>
        EndsIn(client.calls, ReadFailed) || EndsIn(client.calls, CommandNotParsed)
      ensures Heard(p, old(Told()), Told(), stop)
      ensures |client.state.rx.replies| >= |old(client.state.rx.replies)|
      ensures old(socket.Calm()) ==>
        && socket.readFaults == old(socket.readFaults)
        && (stop.None? ==> socket.Calm()) && (stop == Some(IoWait) ==> socket.Drained())
      ensures stop == Some(Fatal) ==> Fault(client.state.rx.replies, |old(client.state.rx.replies)|, old(socket.readFaults))
      ensures socket.readFaults >= old(socket.readFaults)
      ensures stop == Some(IoWait) ==> reader != null && table == old(table)
      ensures socket.blockedReads == old(socket.blockedReads) + if stop == Some(IoWait) then 1 else 0
      ensures socket.received + socket.incoming == old(socket.received + socket.incoming)
      ensures |socket.readScript| <= |old(socket.readScript)|
      ensures stop == None && old(reader.state.Magic? && reader.reader.bytesRead == 0) ==>
        |socket.readScript| < |old(socket.readScript)|
    {
      hide IsRun, Replay, Aligned, Interpret, Heard, Fault, Malformed, Authentic, Genuine, Grew;
      ghost var told := Told();
      HeardNothing(p, told, Some(IoWait));
      var read, message, value;
      ghost var packet, made;
      read, message, value, packet := ReadPacket();
      if read.InProgress? {
        return Some(IoWait);
      }
      if read.Failed? {
        FaultOfRead(old(socket.readFaults));
        made := CallAllErrorHandlers(ReadFailed);
        HeardFatal(p, told, Told(), made);
        return Some(Fatal);
      }
      stop, made := Complete(message.value, value, packet);
      dead := stop == Some(Fatal);
      HeardPacket(p, told, Told(), packet, stop);
      if dead {
        GarbledMeansFault(old(client.state.rx.replies), packet, old(socket.readFaults));
      }
    }

    /**
     * The second part of the source's constructor: polls until the drive has greeted, an error is fatal, or
     * time is up (after `polls` more rounds).  When it succeeds the receiver is usable and waits for nothing.
     */
    method CompleteHandshake(polls: nat) returns (ok: bool)
      requires Valid() && !dead && !client.Done(Handshake)
      requires Elsewhere() == (INITIAL.tx, [], [], false, true)
      modifies this, Repr, socket`readScript, socket`errno, socket`incoming, socket`received, socket`blockedReads, socket`readFaults
      modifies client`calls, client`events, client`state
      ensures Valid() && fresh(Repr - old(Repr)) && Elsewhere() == old(Elsewhere())
      ensures old(client.events) <= client.events
      ensures ok <==> client.Succeeded(Handshake)
      ensures !client.Done(Handshake) ==> socket.blockedReads == old(socket.blockedReads) + polls + 1
      ensures ok ==> !dead && reader == null && table == map[] && sequenceOf == map[]
    {
      hide Valid, Elsewhere, Aligned;
      var left := polls;
      while true
        invariant Valid() && !dead && fresh(Repr - old(Repr)) && Elsewhere() == old(Elsewhere())
        invariant old(client.events) <= client.events
        invariant !client.Done(Handshake) && 0 <= left <= polls
        invariant socket.blockedReads == old(socket.blockedReads) + (polls - left)
        decreases left
      {
        HandshakePhase();
        var status := Receive();
        HandshakePhase();
        if status.Fatal? {
          break;
        }
        if client.Done(Handshake) {
          break;
        }
        if left == 0 {
          break;
        }
        left := left - 1;
      }
      return client.Succeeded(Handshake);
    }

    /** Before the first submission the handshake's handler either waits, alone, or has been called, once. */
    lemma HandshakePhase()
      requires Valid() && Elsewhere() == (INITIAL.tx, [], [], false, true)
      ensures table == map[] <==> client.Done(Handshake)
      ensures client.Done(Handshake) <==> |client.calls| == 1
      ensures |client.calls| <= 1 && !client.state.failed
    {
      BeforeFirstSubmission(p, client.events);
    }

    /** The destructor: the packet being read is dropped, and whatever waits is called with an error. */
    method Destroy() returns (ghost made: seq<Call>)
      requires Ready()
      modifies this`reader, this`table, this`sequenceOf, this`dead, client`calls, client`events, client`state
      ensures client.Valid() && Tables() && old(client.events) <= client.events
      ensures Elsewhere() == old(Elsewhere())
      ensures GaveUp(old(client.calls), old(|table|), made, ReceiverShutdown)
    {
      reader, dead := null, true;
      made := CallAllErrorHandlers(ReceiverShutdown);
    }
  }
}
