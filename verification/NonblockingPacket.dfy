/** Whole packets over a socket that can stop at any octet: two resumable state machines. */
module NonblockingPacket {
  import opened Bytes
  import opened Framing
  import opened Messages
  import opened NonblockingString
  import opened Sockets
  import opened Wrappers

  datatype State = Magic | MessageLength | ValueLength | MessageBytes | ValueBytes | Finished

  /** How far the state machines have come. */
  function Rank(s: State): nat {
    match s
    case Magic => 0
    case MessageLength => 1
    case ValueLength => 2
    case MessageBytes => 3
    case ValueBytes => 4
    case Finished => 5
  }

  class PacketWriter {
    const socket: Socket
    const p: Protocol
    const message: Message
    const value: bytes
    var state: State
    var writer: StringWriter
    var serialized: bytes

    /** In each state the current string writer holds that state's field of the frame. */
    ghost predicate Valid()
      reads this, writer
    {
      && writer.Valid() && writer.socket == socket
      && (state.Magic? ==> writer.s == [MAGIC])
      && (!state.Magic? ==> p.serializeMessage(message) == Some(serialized))
      && (state.MessageLength? ==> writer.s == ToBigEndian(Word32(|serialized|)))
      && (state.ValueLength? ==> writer.s == ToBigEndian(Word32(|value|)))
      && (state.MessageBytes? ==> writer.s == serialized)
      && (state.ValueBytes? || state.Finished? ==> writer.s == value)
      && (state.Finished? ==> writer.bytesWritten == |value|)
    }

    /** The octets of the frame before the field that is being written. */
    ghost function Before(): bytes
      reads this
    {
      match state
      case Magic => []
      case MessageLength => [MAGIC]
      case ValueLength => [MAGIC] + ToBigEndian(Word32(|serialized|))
      case MessageBytes => Header(Packet(serialized, value))
      case _ => Header(Packet(serialized, value)) + serialized
    }

    /** The octets of the frame written so far. */
    ghost function Written(): bytes
      requires Valid()
      reads this, writer
    {
      Before() + writer.Written()
    }

    constructor (socket: Socket, p: Protocol, message: Message, value: bytes)
      ensures Valid() && fresh(writer) && Written() == []
      ensures this.socket == socket && this.p == p && this.message == message && this.value == value
    {
      this.socket, this.p, this.message, this.value, state, serialized := socket, p, message, value, Magic, [];
      writer := new StringWriter(socket, [MAGIC]);
    }

    /** Whatever has been written is a prefix of the frame, and no more than `F` without one. */
    lemma WrittenIsPrefix()
      requires Valid()
      ensures p.serializeMessage(message).Some? ==> Written() <= Frame(Packet(p.serializeMessage(message).value, value))
      ensures p.serializeMessage(message).None? ==> Written() <= [MAGIC]
    {
      if p.serializeMessage(message).Some? {
        var f := Frame(Packet(p.serializeMessage(message).value, value));
        assert Before() + writer.s <= f;
        assert Written() <= Before() + writer.s;
      }
    }

    /**
     * Writes on.  The socket accepts exactly the next octets of the frame; `Done` means all of them,
     * `InProgress` that a write would block, `Failed` that a call failed or there is no frame to write.
     */
    method Write() returns (status: StringStatus, ghost accepted: bytes)
      requires Valid()
      modifies this, writer, socket`writeScript, socket`errno, socket`sent, socket`blockedWrites, socket`writeFaults, socket`statFailures
      ensures Valid() && (writer == old(writer) || fresh(writer))
      ensures socket.sent == old(socket.sent) + accepted
      ensures Written() == old(Written()) + accepted
      ensures status.Done? ==>
        p.serializeMessage(message).Some? && Written() == Frame(Packet(p.serializeMessage(message).value, value))
      ensures socket.blockedWrites == old(socket.blockedWrites) + if status.InProgress? then 1 else 0
      ensures socket.writeFaults >= old(socket.writeFaults)
      ensures status.Failed? <==>
        socket.writeFaults > old(socket.writeFaults) || (p.serializeMessage(message).None? && !status.InProgress?)
      ensures old(socket.statFailures != [] && socket.statFailures[0]) ==> status.Failed?
      ensures old(socket.statFailures) == [] ==>
        && socket.statFailures == []
        && (status.Done? ==> socket.Reach() >= old(socket.Reach()))
        && (!status.Done? && p.serializeMessage(message).Some? ==>
          |socket.sent| >= old(socket.Reach()) && |Written()| < |Frame(Packet(p.serializeMessage(message).value, value))|)
    {
      hide Before, Frame;
      accepted := [];
      var ok := socket.Stat();
      if !ok {
        return Failed, accepted;
      }
      while true
        invariant Valid() && (writer == old(writer) || fresh(writer))
        invariant socket.sent == old(socket.sent) + accepted
        invariant Written() == old(Written()) + accepted
        invariant socket.blockedWrites == old(socket.blockedWrites) && socket.writeFaults == old(socket.writeFaults)
        invariant old(socket.statFailures) == [] ==> socket.statFailures == [] && socket.Reach() >= old(socket.Reach())
        decreases 5 - Rank(state)
      {
        ghost var more, sent, written := [], socket.sent, Written();
        status, more := WriteField();
        assert socket.sent == old(socket.sent) + (accepted + more) by {
          Associate(old(socket.sent), accepted, more);
        }
        assert Written() == old(Written()) + (accepted + more) by {
          Associate(old(Written()), accepted, more);
        }
        accepted := accepted + more;
        if !status.Done? {
          return;
        }
        if state.Finished? {
          FinishedIsFrame();
          ok := socket.Stat();
          return (if ok then Done else Failed), accepted;
        }
        ok := Transition();
        if !ok {
          return Failed, accepted;
        }
      }
    }

    /** `writer_->Write()`, seen from the frame. */
    method WriteField() returns (status: StringStatus, ghost accepted: bytes)
      requires Valid()
      modifies writer, socket`writeScript, socket`errno, socket`sent, socket`blockedWrites, socket`writeFaults, socket`statFailures
      ensures Valid() && socket.sent == old(socket.sent) + accepted && Written() == old(Written()) + accepted
      ensures status.Done? ==> writer.bytesWritten == |writer.s|
      ensures !status.Done? ==> writer.bytesWritten < |writer.s|
      ensures socket.blockedWrites == old(socket.blockedWrites) + if status.InProgress? then 1 else 0
      ensures socket.writeFaults == old(socket.writeFaults) + if status.Failed? then 1 else 0
      ensures !status.Done? && p.serializeMessage(message).Some? ==>
        |Written()| < |Frame(Packet(p.serializeMessage(message).value, value))|
      ensures old(socket.statFailures) == [] ==> socket.statFailures == []
      ensures old(socket.statFailures) == [] ==>
        if status.Done? then socket.Reach() >= old(socket.Reach()) else |socket.sent| >= old(socket.Reach())
    {
      ghost var written := writer.Written();
      status, accepted := writer.Write();
      Associate(Before(), written, accepted);
    }

    lemma FinishedIsFrame()
      requires Valid() && state.Finished?
      ensures Written() == Frame(Packet(serialized, value))
    {}

    /** The switch over the states: goes on to the next field, and changes nothing that was written. */
    method Transition() returns (ok: bool)
      requires Valid() && !state.Finished? && writer.bytesWritten == |writer.s|
      modifies this`state, this`writer, this`serialized
      ensures Valid() && Written() == old(Written()) && (writer == old(writer) || fresh(writer))
      ensures ok <==> p.serializeMessage(message).Some?
      ensures Rank(state) == old(Rank(state)) + if ok then 1 else 0
    {
      ok := true;
      match state
      case Magic => ok := TransitionFromMagic();
      case MessageLength => TransitionFromMessageLength();
      case ValueLength => TransitionFromValueLength();
      case MessageBytes => TransitionFromMessage();
      case ValueBytes => TransitionFromValue();
    }

    method TransitionFromMagic() returns (ok: bool)
      requires Valid() && state.Magic? && writer.bytesWritten == 1
      modifies this`state, this`writer, this`serialized
      ensures Valid() && Written() == old(Written())
      ensures ok <==> p.serializeMessage(message).Some?
      ensures ok ==> state.MessageLength? && fresh(writer)
      ensures !ok ==> state.Magic? && writer == old(writer)
    {
      match p.serializeMessage(message)
      case None => return false;
      case Some(s) =>
        serialized := s;
        writer := new StringWriter(socket, ToBigEndian(Word32(|serialized|)));
        state := MessageLength;
        return true;
    }

    method TransitionFromMessageLength()
      requires Valid() && state.MessageLength? && writer.bytesWritten == 4
      modifies this`state, this`writer
      ensures Valid() && state.ValueLength? && fresh(writer) && Written() == old(Written())
    {
      writer := new StringWriter(socket, ToBigEndian(Word32(|value|)));
      state := ValueLength;
    }

    method TransitionFromValueLength()
      requires Valid() && state.ValueLength? && writer.bytesWritten == 4
      modifies this`state, this`writer
      ensures Valid() && state.MessageBytes? && fresh(writer) && Written() == old(Written())
    {
      writer := new StringWriter(socket, serialized);
      state := MessageBytes;
    }

    method TransitionFromMessage()
      requires Valid() && state.MessageBytes? && writer.bytesWritten == |serialized|
      modifies this`state, this`writer
      ensures Valid() && state.ValueBytes? && fresh(writer) && Written() == old(Written())
    {
      writer := new StringWriter(socket, value);
      state := ValueBytes;
    }

    method TransitionFromValue()
      requires Valid() && state.ValueBytes? && writer.bytesWritten == |value|
      modifies this`state
      ensures Valid() && state.Finished? && Written() == old(Written())
    {
      state := Finished;
    }
  }

  class PacketReader {
    const socket: Socket
    const p: Protocol
    var state: State
    var reader: StringReader
    var magic: bytes
    var messageLength: bytes
    var valueLength: bytes
    var message: bytes
    var value: bytes
    var response: Option<Message>
    ghost var Repr: set<object>

    /** In each state the fields before it are known and the string reader has the size of its own. */
    ghost predicate Valid()
      reads this, reader
    {
      && Repr == {this, reader, reader.buf}
      && reader.Valid() && reader.socket == socket
      && (state.Magic? ==> reader.size == 1)
      && (state.MessageLength? || state.ValueLength? ==> reader.size == 4)
      && (Rank(state) >= 2 ==> |messageLength| == 4)
      && (Rank(state) >= 3 ==> |valueLength| == 4)
      && (state.MessageBytes? ==> reader.size == FromBigEndian(messageLength))
      && (Rank(state) >= 4 ==> |message| == FromBigEndian(messageLength) && reader.size == FromBigEndian(valueLength))
      && (state.Finished? ==> reader.bytesRead == reader.size && response.Some? && response == p.parseMessage(message))
    }

    /** The octets of the frame before the field that is being read. */
    ghost function Before(): bytes
      reads this
    {
      match state
      case Magic => []
      case MessageLength => [MAGIC]
      case ValueLength => [MAGIC] + messageLength
      case MessageBytes => [MAGIC] + messageLength + valueLength
      case _ => [MAGIC] + messageLength + valueLength + message
    }

    /** The octets of this frame taken off the socket so far. */
    ghost function Consumed(): bytes
      requires Valid()
      reads this, reader, reader.buf
    {
      Before() + reader.Filled()
    }

    constructor (socket: Socket, p: Protocol)
      ensures Valid() && fresh(Repr) && Consumed() == []
      ensures this.socket == socket && this.p == p && state.Magic?
    {
      this.socket, this.p, state := socket, p, Magic;
      magic, messageLength, valueLength, message, value, response := [], [], [], [], [], None;
      reader := new StringReader(socket, 1);
      new;
      Repr := {this, reader, reader.buf};
    }

    /** While the packet is unfinished, what has been consumed is a proper prefix of some frame. */
    lemma UnfinishedNeedsMore()
      requires Valid()
      requires reader.bytesRead < reader.size
      ensures Decode(Consumed()).NeedMore?
    {
      var c := Consumed();
      if Rank(state) >= 3 {
        assert c[1..5] == messageLength && c[5..9] == valueLength;
      }
    }

    /** A finished packet is the whole frame, and nothing after it. */
    lemma FinishedIsFrame()
      requires Valid() && state.Finished?
      ensures Fits(Packet(message, reader.Filled()))
      ensures Consumed() == Frame(Packet(message, reader.Filled()))
    {
      var c := Consumed();
      assert c[1..5] == messageLength && c[5..9] == valueLength;
      assert Decode(c).packet.message == message;
      assert Decode(c).packet.value == reader.Filled();
      assert Decode(c).rest == [];
      DecodeSound(c);
    }

    /**
     * Reads on.  The octets consumed are exactly the ones taken off the socket.  `Done` means that they
     * are the whole frame of `message` and `value` and that `message` was parsed into `response`;
     * `InProgress` that a read would block inside the frame; otherwise a read failed, the first octet
     * was not the magic one, or the message could not be parsed.
     */
    method Read() returns (status: StringStatus, ghost taken: bytes)
      requires Valid()
      modifies Repr, socket`readScript, socket`errno, socket`incoming, socket`received, socket`blockedReads, socket`readFaults
      ensures !status.Failed? ==> Valid() && Consumed() == old(Consumed()) + taken
      ensures fresh(Repr - old(Repr))
      ensures socket.received == old(socket.received) + taken
      ensures socket.received + socket.incoming == old(socket.received + socket.incoming)
      ensures status.Done? ==>
        && Consumed() == Frame(Packet(message, value)) && Fits(Packet(message, value))
        && response.Some? && response == p.parseMessage(message)
      ensures status.InProgress? ==> Decode(Consumed()).NeedMore?
      ensures status.Failed? ==>
        || socket.readFaults > old(socket.readFaults)
        || Decode(old(Consumed()) + taken).BadMagic?
        || (Decode(old(Consumed()) + taken).Whole? && p.parseMessage(Decode(old(Consumed()) + taken).packet.message).None?)
      ensures socket.blockedReads == old(socket.blockedReads) + if status.InProgress? then 1 else 0
      ensures socket.readFaults >= old(socket.readFaults) && (status.Done? ==> socket.readFaults == old(socket.readFaults))
      ensures |socket.readScript| <= |old(socket.readScript)|
      ensures status.Done? && old(state.Magic? && reader.bytesRead == 0) ==> |socket.readScript| < |old(socket.readScript)|
      ensures old(socket.Calm()) ==>
        socket.readFaults == old(socket.readFaults) && if status.InProgress? then socket.Drained() else socket.Calm()
    {
      hide Before, Decode, Frame;
      taken := [];
      while true
        invariant Valid() && fresh(Repr - old(Repr))
        invariant socket.received == old(socket.received) + taken
        invariant Consumed() == old(Consumed()) + taken
        invariant socket.received + socket.incoming == old(socket.received + socket.incoming)
        invariant socket.blockedReads == old(socket.blockedReads) && socket.readFaults == old(socket.readFaults)
        invariant |socket.readScript| <= |old(socket.readScript)|
        invariant old(state.Magic? && reader.bytesRead == 0) ==>
          (state.Magic? && reader.bytesRead == 0) || |socket.readScript| < |old(socket.readScript)|
        invariant old(socket.Calm()) ==> socket.Calm()
        decreases 5 - Rank(state)
      {
        ghost var more;
        status, more := ReadField();
        assert socket.received == old(socket.received) + (taken + more) by {
          Associate(old(socket.received), taken, more);
        }
        assert Consumed() == old(Consumed()) + (taken + more) by {
          Associate(old(Consumed()), taken, more);
        }
        taken := taken + more;
        if !status.Done? {
          if status.InProgress? {
            UnfinishedNeedsMore();
          }
          return;
        }
        if state.Finished? {
          FinishedIsFrame();
          return;
        }
        var ok := Transition();
        if !ok {
          return Failed, taken;
        }
      }
    }

    /** `reader_->Read()`, with the octets going to the field that the current state reads. */
    method ReadField() returns (status: StringStatus, ghost taken: bytes)
      requires Valid()
      modifies this`magic, this`messageLength, this`valueLength, this`message, this`value, reader, reader.buf
      modifies socket`readScript, socket`errno, socket`incoming, socket`received, socket`blockedReads, socket`readFaults
      ensures Valid() && socket.received == old(socket.received) + taken && Consumed() == old(Consumed()) + taken
      ensures socket.received + socket.incoming == old(socket.received + socket.incoming)
      ensures status.Done? ==> reader.bytesRead == reader.size && Field() == reader.Filled()
      ensures !status.Done? ==> reader.bytesRead < reader.size
      ensures socket.blockedReads == old(socket.blockedReads) + if status.InProgress? then 1 else 0
      ensures socket.readFaults == old(socket.readFaults) + if status.Failed? then 1 else 0
      ensures |socket.readScript| <= |old(socket.readScript)|
      ensures |socket.readScript| < |old(socket.readScript)| || status.InProgress? || reader.bytesRead == old(reader.bytesRead)
      ensures old(socket.Calm()) ==> if status.Done? then socket.Calm() else status.InProgress? && socket.Drained()
    {
      ghost var filled := reader.Filled();
      var s;
      status, s, taken := reader.Read();
      Associate(Before(), filled, taken);
      if s.Some? {
        match state
        case Magic => magic := s.value;
        case MessageLength => messageLength := s.value;
        case ValueLength => valueLength := s.value;
        case MessageBytes => message := s.value;
        case _ => value := s.value;
      }
    }

    /** The field that the current state reads. */
    ghost function Field(): bytes
      reads this
    {
      match state
      case Magic => magic
      case MessageLength => messageLength
      case ValueLength => valueLength
      case MessageBytes => message
      case _ => value
    }

    /** The switch over the states: goes on to the next field, and changes nothing that was consumed. */
    method Transition() returns (ok: bool)
      requires Valid() && !state.Finished?
      requires reader.bytesRead == reader.size && Field() == reader.Filled()
      modifies this`state, this`reader, this`response, this`Repr
      ensures fresh(Repr - old(Repr))
      ensures ok ==> Valid() && Consumed() == old(Consumed()) && Rank(state) == old(Rank(state)) + 1
      ensures !ok ==>
        || Decode(old(Consumed())).BadMagic?
        || (Decode(old(Consumed())).Whole? && p.parseMessage(Decode(old(Consumed())).packet.message).None?)
    {
      ok := true;
      match state
      case Magic => ok := TransitionFromMagic();
      case MessageLength => TransitionFromMessageLength();
      case ValueLength => TransitionFromValueLength();
      case MessageBytes => TransitionFromMessage();
      case ValueBytes => ok := TransitionFromValue();
    }

    method TransitionFromMagic() returns (ok: bool)
      requires Valid() && state.Magic? && reader.bytesRead == 1 && magic == reader.Filled()
      modifies this`state, this`reader, this`Repr
      ensures ok <==> magic == [MAGIC]
      ensures ok ==> Valid() && state.MessageLength? && fresh(Repr - old(Repr)) && Consumed() == old(Consumed())
      ensures !ok ==> Repr == old(Repr) && Decode(old(Consumed())).BadMagic?
    {
      if magic != [MAGIC] {
        return false;
      }
      reader := new StringReader(socket, 4);
      state, Repr := MessageLength, {this, reader, reader.buf};
      return true;
    }

    method TransitionFromMessageLength()
      requires Valid() && state.MessageLength? && reader.bytesRead == 4 && messageLength == reader.Filled()
      modifies this`state, this`reader, this`Repr
      ensures Valid() && state.ValueLength? && fresh(Repr - old(Repr)) && Consumed() == old(Consumed())
    {
      reader := new StringReader(socket, 4);
      state, Repr := ValueLength, {this, reader, reader.buf};
    }

    method TransitionFromValueLength()
      requires Valid() && state.ValueLength? && reader.bytesRead == 4 && valueLength == reader.Filled()
      modifies this`state, this`reader, this`Repr
      ensures Valid() && state.MessageBytes? && fresh(Repr - old(Repr)) && Consumed() == old(Consumed())
    {
      assert |messageLength| == 4;
      reader := new StringReader(socket, FromBigEndian(messageLength));
      state, Repr := MessageBytes, {this, reader, reader.buf};
    }

    method TransitionFromMessage()
      requires Valid() && state.MessageBytes? && reader.bytesRead == reader.size && message == reader.Filled()
      modifies this`state, this`reader, this`Repr
      ensures Valid() && state.ValueBytes? && fresh(Repr - old(Repr)) && Consumed() == old(Consumed())
    {
      assert |valueLength| == 4;
      reader := new StringReader(socket, FromBigEndian(valueLength));
      state, Repr := ValueBytes, {this, reader, reader.buf};
    }

    method TransitionFromValue() returns (ok: bool)
      requires Valid() && state.ValueBytes? && reader.bytesRead == reader.size
      modifies this`state, this`response
      ensures ok <==> p.parseMessage(message).Some?
      ensures ok ==> Valid() && state.Finished? && Consumed() == old(Consumed())
      ensures !ok ==> Decode(old(Consumed())).Whole? && Decode(old(Consumed())).packet.message == message
    {
      state := Finished;
      response := p.parseMessage(message);
      ghost var c := [MAGIC] + messageLength + valueLength + message + reader.Filled();
      assert c[1..5] == messageLength && c[5..9] == valueLength;
      return response.Some?;
    }
  }
}
