/** Messages over a blocking byte stream: the second implementation of the wire format. */
module MessageStreams {
  import opened Bytes
  import opened ByteStreams
  import opened Framing
  import opened Messages
  import opened Wrappers

  datatype ReadStatus = SUCCESS | INTERNAL_ERROR | TOO_LARGE

  /** `ByteSize()` agrees with serialisation wherever there is one. */
  ghost predicate Sized(p: Protocol, byteSize: Message -> nat) {
    forall m :: p.serializeMessage(m).Some? ==> byteSize(m) == |p.serializeMessage(m).value|
  }

  /** What the code returned by `WriteMessage` tells about how far it has got. */
  function CodeFor(message: bytes, value: bytes, accepted: nat): int {
    if accepted < HEADER_SIZE then 1
    else if accepted < HEADER_SIZE + |message| then 3
    else if accepted < HEADER_SIZE + |message| + |value| then 4
    else 0
  }

  class MessageStream {
    const maxMessageSize: nat
    const stream: ByteStream
    const p: Protocol
    const byteSize: Message -> nat

    constructor (maxMessageSize: nat, stream: ByteStream, p: Protocol, byteSize: Message -> nat)
      ensures this.maxMessageSize == maxMessageSize && this.stream == stream
      ensures this.p == p && this.byteSize == byteSize
    {
      this.maxMessageSize, this.stream, this.p, this.byteSize := maxMessageSize, stream, p, byteSize;
    }

    /**
     * Writes the header, the message and the value.  What the stream has accepted is always a first part
     * of the frame, the same that the nonblocking writer writes, and the code tells which part is missing.
     */
    method WriteMessage(message: Message, value: bytes) returns (code: int, ghost accepted: bytes)
      requires Sized(p, byteSize)
      modifies stream.socket`writeScript, stream.socket`errno, stream.socket`sent
      modifies stream.socket`blockedWrites, stream.socket`writeFaults
      ensures stream.socket.sent == old(stream.socket.sent) + accepted
      ensures p.serializeMessage(message).Some? ==>
        && var s := p.serializeMessage(message).value;
        && accepted <= Frame(Packet(s, value)) && code == CodeFor(s, value, |accepted|)
        && (code == 0 <==> accepted == Frame(Packet(s, value)))
        && (code == 1 <==> |accepted| < 9)
        && (code == 3 <==> 9 <= |accepted| < 9 + |s|)
        && (code == 4 <==> 9 + |s| <= |accepted| < 9 + |s| + |value|)
        && (code != 0 ==> WriteStalled(stream))
      ensures p.serializeMessage(message).None? ==>
        if |accepted| < HEADER_SIZE then code == 1 && WriteStalled(stream) else code == 2 && |accepted| == HEADER_SIZE
    {
      var ok;
      ok, accepted := WriteHeader(byteSize(message), |value|);
      if !ok {
        return 1, accepted;
      }
      var serialized := p.serializeMessage(message);
      if serialized.None? {
        return 2, accepted;
      }
      var s := serialized.value;
      ghost var header, more := accepted, [];
      ok, more := stream.Write(s);
      accepted := header + more;
      Associate(old(stream.socket.sent), header, more);
      if !ok {
        return 3, accepted;
      }
      ok, more := stream.Write(value);
      Associate(old(stream.socket.sent), accepted, more);
      accepted := accepted + more;
      if !ok {
        return 4, accepted;
      }
      return 0, accepted;
    }

    method WriteHeader(messageSize: nat, valueSize: nat) returns (ok: bool, ghost accepted: bytes)
      modifies stream.socket`writeScript, stream.socket`errno, stream.socket`sent
      modifies stream.socket`blockedWrites, stream.socket`writeFaults
      ensures stream.socket.sent == old(stream.socket.sent) + accepted
      ensures var header := [MAGIC] + ToBigEndian(Word32(messageSize)) + ToBigEndian(Word32(valueSize));
        accepted <= header && (ok <==> accepted == header)
      ensures var s := stream.socket;
        ok ==> s.writeFaults == old(s.writeFaults) && s.blockedWrites >= old(s.blockedWrites)
      ensures !ok ==> WriteStalled(stream)
    {
      var header: bytes := [MAGIC];
      header := header + ToBigEndian(Word32(messageSize));
      header := header + ToBigEndian(Word32(valueSize));
      ok, accepted := stream.Write(header);
    }

    /**
     * Reads one message and its value.  It succeeds exactly if the octets it has taken are one frame whose
     * message is not too large and can be parsed; and it never takes an octet that follows the frame.
     */
    method ReadMessage() returns (status: ReadStatus, message: Option<Message>, value: Option<bytes>, ghost taken: bytes)
      modifies stream.socket`readScript, stream.socket`errno, stream.socket`incoming, stream.socket`received
      modifies stream.socket`blockedReads, stream.socket`readFaults
      ensures stream.socket.received == old(stream.socket.received) + taken
      ensures stream.socket.received + stream.socket.incoming
        == old(stream.socket.received + stream.socket.incoming)
      ensures status.TOO_LARGE? <==>
        |taken| == HEADER_SIZE && taken[0] == MAGIC && MessageSize(taken) > maxMessageSize
      ensures status.SUCCESS? ==>
        && Decode(taken).Whole? && Decode(taken).rest == [] && |Decode(taken).packet.message| <= maxMessageSize
        && message.Some? && message == p.parseMessage(Decode(taken).packet.message)
        && value == Some(Decode(taken).packet.value)
      ensures status.INTERNAL_ERROR? ==>
        || BadHeader(taken) || Unparsable(taken)
        || ((Decode(taken).BadMagic? || Decode(taken).NeedMore?) && ReadStalled(stream))
    {
      hide MessageSize, ValueSize, Decode;
      var ok, messageSize, valueSize;
      ok, messageSize, valueSize, taken := ReadHeader();
      message, value := None, None;
      if !ok {
        return INTERNAL_ERROR, message, value, taken;
      }
      if messageSize > maxMessageSize {
        return TOO_LARGE, message, value, taken;
      }
      var buf := new byte[messageSize];
      ghost var header, m, v := taken, [], [];
      ok, m := stream.Read(buf, messageSize);
      Associate(old(stream.socket.received), header, m);
      taken := header + m;
      assert taken == header + m + v && (m == [] ==> taken == header) && taken[9..] == m;
      Parts(header, m, v);
      if !ok {
        return INTERNAL_ERROR, message, value, taken;
      }
      assert buf[..] == buf[..messageSize];
      message := p.parseMessage(buf[..]);
      if message.None? {
        return INTERNAL_ERROR, message, value, taken;
      }
      value, v := stream.ReadValue(valueSize);
      Associate(old(stream.socket.received), taken, v);
      taken := taken + v;
      Parts(header, m, v);
      if value.None? {
        return INTERNAL_ERROR, message, value, taken;
      }
      return SUCCESS, message, value, taken;
    }

    predicate BadHeader(taken: bytes) {
      |taken| == HEADER_SIZE && taken[0] != MAGIC
    }

    /** A header and a whole message that does not parse. */
    predicate Unparsable(taken: bytes) {
      && |taken| >= HEADER_SIZE && taken[0] == MAGIC
      && |taken| == HEADER_SIZE + MessageSize(taken) && p.parseMessage(taken[9..]).None?
    }

    /** What the octets are that make up a header, (part of) a message and (part of) a value. */
    lemma Parts(header: bytes, m: bytes, v: bytes)
      requires |header| == HEADER_SIZE && header[0] == MAGIC
      requires |m| <= MessageSize(header) && |v| <= ValueSize(header)
      requires v != [] ==> |m| == MessageSize(header)
      ensures MessageSize(header + m + v) == MessageSize(header)
      ensures Decode(header + m + v) ==
        if |m| == MessageSize(header) && |v| == ValueSize(header) then Whole(Packet(m, v), []) else NeedMore
    {
      var s := header + m + v;
      assert s[1..5] == header[1..5] && s[5..9] == header[5..9];
      assert s[9..9 + |m|] == m && s[9 + |m|..9 + |m| + |v|] == v;
    }

    method ReadHeader() returns (ok: bool, messageSize: nat, valueSize: nat, ghost taken: bytes)
      modifies stream.socket`readScript, stream.socket`errno, stream.socket`incoming, stream.socket`received
      modifies stream.socket`blockedReads, stream.socket`readFaults
      ensures stream.socket.received == old(stream.socket.received) + taken
      ensures stream.socket.received + stream.socket.incoming
        == old(stream.socket.received + stream.socket.incoming)
      ensures ok <==> |taken| == HEADER_SIZE && taken[0] == MAGIC
      ensures ok ==> messageSize == MessageSize(taken) && valueSize == ValueSize(taken)
      ensures |taken| <= HEADER_SIZE
      ensures |taken| < HEADER_SIZE ==> (Decode(taken).BadMagic? || Decode(taken).NeedMore?) && ReadStalled(stream)
      ensures var s := stream.socket;
        ok ==> s.readFaults == old(s.readFaults) && s.blockedReads >= old(s.blockedReads)
    {
      messageSize, valueSize := 0, 0;
      var header := new byte[HEADER_SIZE];
      ok, taken := stream.Read(header, HEADER_SIZE);
      if !ok {
        return;
      }
      if header[0] != MAGIC {
        ok := false;
        return;
      }
      messageSize := FromBigEndian(header[1..5]);
      valueSize := FromBigEndian(header[5..9]);
    }
  }

  /** Whichever of the two readers has taken a frame off the stream, it has what was written there. */
  lemma ReadBack(p: Packet, rest: bytes, taken: bytes, ahead: bytes)
    requires Fits(p) && taken + ahead == Frame(p) + rest
    requires Decode(taken).Whole? && Decode(taken).rest == []
    ensures Decode(taken).packet == p && taken == Frame(p) && ahead == rest
  {
    var q := Decode(taken).packet;
    DecodeSound(taken);
    assert taken == Frame(q) + [] == Frame(q);
    DecodeFrame(p, rest);
    DecodeFrame(q, ahead);
  }

  /** What one side has written, message and value, the other one reads, whichever implementation each uses. */
  lemma MessageRoundTrip(p: Protocol, message: Message, value: bytes, rest: bytes, taken: bytes, ahead: bytes)
    requires CodecRoundTrips(p) && p.serializeMessage(message).Some?
    requires var packet := Packet(p.serializeMessage(message).value, value);
      Fits(packet) && taken + ahead == Frame(packet) + rest
    requires Decode(taken).Whole? && Decode(taken).rest == []
    ensures p.parseMessage(Decode(taken).packet.message) == Some(message)
    ensures Decode(taken).packet.value == value && ahead == rest
  {
    ReadBack(Packet(p.serializeMessage(message).value, value), rest, taken, ahead);
  }
}
