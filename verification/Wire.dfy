/** What the two ends of a connection can tell from the octets that went over it. */
module Wires {
  import opened Bytes
  import opened Framing
  import opened Hmac
  import opened Messages
  import opened NonblockingPacket
  import opened Origins
  import opened Pipeline
  import opened PipelineInvariants
  import opened Receivers
  import opened Senders
  import opened Wrappers

  predicate AllFit(p: Protocol, wire: seq<Request>)
    requires Serializable(p, wire)
  {
    forall packet <- Packets(p, wire) :: Fits(packet)
  }

  /**
   * However the octets were cut up on their way, the peer that decodes all that has been sent gets the
   * requests on the wire, all of them and in their order, with nothing before or in between.
   */
  lemma PeerDecodesRequests(sender: Sender)
    requires sender.Valid() && AllFit(sender.p, sender.client.state.tx.wire)
    ensures Packets(sender.p, sender.client.state.tx.wire) <= DecodeAll(sender.socket.sent).0
    ensures sender.writer == null ==>
      DecodeAll(sender.socket.sent) == (Packets(sender.p, sender.client.state.tx.wire), [])
  {
    hide IsRun, Replay, Fits;
    var qs := Packets(sender.p, sender.client.state.tx.wire);
    var more := if sender.writer == null then [] else sender.writer.Written();
    DecodeAllAfter(qs, more);
    if sender.writer == null {
      assert DecodeAll([]) == ([], []);
      assert qs + [] == qs;
    }
  }

  /** The peer can tell each request by its sequence number, and that nobody has tampered with it. */
  predicate Understood(p: Protocol, packet: Packet, r: Request) {
    && p.parseMessage(packet.message) == Some(r.message)
    && packet.value == r.value
    && p.parseCommand(r.message.commandBytes) == Some(r.command)
    && r.command.sequence == Some(r.sequence)
    && (r.message.authType.HmacAuthenticated? ==> Authentic(p, r.message))
  }

  /** Each packet on the wire is understood, and the sequence numbers strictly increase along it. */
  lemma PeerUnderstandsRequests(sender: Sender, i: nat)
    requires sender.Valid() && CodecRoundTrips(sender.p)
    requires i < |sender.client.state.tx.wire|
    ensures var wire := sender.client.state.tx.wire;
      && Understood(sender.p, Packets(sender.p, wire)[i], wire[i])
      && forall j :: 0 <= j < i ==> wire[j].sequence < wire[i].sequence
  {
    hide IsRun, Replay, Authentic;
    var p, tx := sender.p, sender.client.state.tx;
    RunsAreDisciplined(p, sender.client.events);
    assert Line(tx)[..|tx.wire|] == tx.wire;
    assert forall j :: 0 <= j <= i ==> Line(tx)[j] == tx.wire[j];
    assert tx.wire[i] in tx.wire && tx.wire[i] in Line(tx);
  }

  /**
   * The peer gets what was submitted: the value, and in the message and the command everything but the
   * connection id, the sequence number and the digest.
   */
  predicate Delivers(p: Protocol, packet: Packet, e: Event, connectionId: int)
    requires e.Accept?
  {
    && packet.value == e.value && p.parseMessage(packet.message).Some?
    && var m := p.parseMessage(packet.message).value;
    && m.authType == e.message.authType && m.pin == e.message.pin
    && (m.authType.HmacAuthenticated? ==>
      m.hmacAuth.Some? && m.hmacAuth.value.identity == p.userId && Authentic(p, m))
    && p.parseCommand(m.commandBytes).Some?
    && var c := p.parseCommand(m.commandBytes).value;
    && c.connectionId == Some(connectionId) && c.ackSequence == e.command.ackSequence
    && c.clusterVersion == e.command.clusterVersion && c.status == e.command.status && c.body == e.command.body
  }

  /** Each packet on the wire delivers a submission, with the connection id that came last before it. */
  lemma PeerGetsSubmissions(sender: Sender, i: nat)
    requires sender.Valid() && CodecRoundTrips(sender.p)
    requires i < |sender.client.state.tx.wire|
    ensures var p, t, packet := sender.p, sender.client.events, Packets(sender.p, sender.client.state.tx.wire)[i];
      exists j :: 0 <= j < |t| && t[j].Accept?
        && Delivers(p, packet, t[j], LastConnectionId(p, Replay(p, t[..j]).rx.replies))
  {
    var p, tx, t := sender.p, sender.client.state.tx, sender.client.events;
    var r := tx.wire[i];
    PeerUnderstandsRequests(sender, i);
    assert Line(tx)[i] == r;
    RequestsComeFromSubmissions(p, t, r);
    var j :| ComesFrom(p, t, j, r);
    assert Delivers(p, Packets(p, tx.wire)[i], t[j], LastConnectionId(p, Replay(p, t[..j]).rx.replies));
  }

  /**
   * Frame alignment.  If the peer writes the packets `ps`, then wherever their octets were cut on the way
   * (some read, some waiting to be read, some yet to come) the receiver has read the first of those packets,
   * in order and unchanged; and once no octet is left it has read them all, and nothing besides.
   */
  lemma ReceiverReadsPackets(receiver: Receiver, ps: seq<Packet>, later: bytes)
    requires receiver.Valid() && !receiver.dead
    requires forall packet <- ps :: Fits(packet)
    requires receiver.socket.received + receiver.socket.incoming + later == Stream(ps)
    ensures receiver.client.state.rx.replies <= ps
    ensures receiver.socket.incoming + later == [] ==>
      receiver.client.state.rx.replies == ps && (receiver.reader != null ==> receiver.reader.Consumed() == [])
  {
    hide IsRun, Replay, Fits, Decode;
    var tail := if receiver.reader == null then [] else receiver.reader.Consumed();
    NothingNeedsMore();
    Associate(receiver.socket.received, receiver.socket.incoming, later);
    PipelinedRoundTrip(ps, receiver.client.state.rx.replies, tail, receiver.socket.incoming + later);
  }

  /** Whatever the peer sends, the packets read are the first ones that its octets decode to. */
  lemma ReceiverDecodes(receiver: Receiver, sent: bytes, later: bytes)
    requires receiver.Valid() && !receiver.dead
    requires receiver.socket.received + receiver.socket.incoming + later == sent
    ensures receiver.client.state.rx.replies <= DecodeAll(sent).0
  {
    hide IsRun, Replay, Fits, Decode;
    var tail := if receiver.reader == null then [] else receiver.reader.Consumed();
    var rest := receiver.socket.incoming + later;
    Associate(receiver.socket.received, receiver.socket.incoming, later);
    Associate(Stream(receiver.client.state.rx.replies), tail, rest);
    DecodeAllAfter(receiver.client.state.rx.replies, tail + rest);
  }

  /** The packet that the sender is writing fits, if there is one. */
  ghost predicate PendingFits(writer: PacketWriter) {
    var s := writer.p.serializeMessage(writer.message);
    s.Some? ==> Fits(Packet(s.value, writer.value))
  }

  /** What has been written of a packet decodes to nothing, or (all of it) to that packet. */
  lemma PendingDecodes(writer: PacketWriter)
    requires writer.Valid() && PendingFits(writer)
    ensures var ps, s := DecodeAll(writer.Written()).0, writer.p.serializeMessage(writer.message);
      ps == [] || (s.Some? && ps == [Packet(s.value, writer.value)])
  {
    writer.WrittenIsPrefix();
    var w := writer.Written();
    match writer.p.serializeMessage(writer.message)
    case None =>
      assert Decode(w).NeedMore?;
    case Some(s) =>
      var packet := Packet(s, writer.value);
      if w == Frame(packet) {
        DecodeFrame(packet, []);
        assert w + [] == w;
      } else {
        ProperPrefixNeedsMore(w, packet);
      }
  }

  /**
   * End to end.  A receiver at the other end of a sender's connection, wherever the octets are, has read the
   * sender's requests, the first ones on the wire, in order, and understands each of them; beyond those it
   * can have read no more than the one packet that the sender has not finished with.
   */
  lemma RequestsArrive(sender: Sender, receiver: Receiver, later: bytes)
    requires sender.Valid() && CodecRoundTrips(sender.p) && AllFit(sender.p, sender.client.state.tx.wire)
    requires receiver.Valid() && !receiver.dead
    requires receiver.socket.received + receiver.socket.incoming + later == sender.socket.sent
    ensures var replies, wire := receiver.client.state.rx.replies, sender.client.state.tx.wire;
      && (forall i :: 0 <= i < |replies| && i < |wire| ==> Understood(sender.p, replies[i], wire[i]))
      && (sender.writer == null ==> |replies| <= |wire|)
      && (sender.writer != null && PendingFits(sender.writer) ==> |replies| <= |wire| + 1)
      && (sender.writer == null && receiver.socket.incoming + later == [] ==> replies == Packets(sender.p, wire))
  {
    hide IsRun, Replay, Understood, Fits;
    var replies, wire := receiver.client.state.rx.replies, sender.client.state.tx.wire;
    ReceiverDecodes(receiver, sender.socket.sent, later);
    PeerDecodesRequests(sender);
    forall i | 0 <= i < |replies| && i < |wire| ensures Understood(sender.p, replies[i], wire[i]) {
      PeerUnderstandsRequests(sender, i);
      assert replies[i] == DecodeAll(sender.socket.sent).0[i] == Packets(sender.p, wire)[i];
    }
    if sender.writer != null {
      DecodeAllAfter(Packets(sender.p, wire), sender.writer.Written());
      if PendingFits(sender.writer) {
        PendingDecodes(sender.writer);
      }
    } else {
      ReceiverReadsPackets(receiver, Packets(sender.p, wire), later);
    }
  }

  lemma NothingNeedsMore()
    ensures Decode([]).NeedMore?
  {}
}
