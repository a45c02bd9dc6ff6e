/** Transfers of a fixed number of octets that can be suspended and resumed at any octet. */
module NonblockingString {
  import opened Bytes
  import opened Sockets
  import opened Wrappers

  datatype StringStatus = InProgress | Done | Failed

  class StringReader {
    const socket: Socket
    const size: nat
    const buf: array<byte>
    var bytesRead: nat

    ghost predicate Valid()
      reads this
    {
      bytesRead <= size == buf.Length
    }

    /** The octets read so far. */
    ghost function Filled(): (s: bytes)
      requires Valid()
      reads this, buf
      ensures |s| == bytesRead
    {
      buf[..bytesRead]
    }

    constructor (socket: Socket, size: nat)
      ensures Valid() && this.socket == socket && this.size == size && fresh(buf)
      ensures Filled() == []
    {
      this.socket, this.size, bytesRead := socket, size, 0;
      buf := new byte[size];
    }

    /**
     * Reads on.  The octets it takes off the socket are exactly the ones it adds to the buffer; it never
     * takes more than `size` in all, is done only with all of them, and waits only if a read would block
     * and fails only if a read failed.
     */
    method Read() returns (status: StringStatus, s: Option<bytes>, ghost taken: bytes)
      requires Valid()
      modifies this, buf, socket`readScript, socket`errno, socket`incoming, socket`received, socket`blockedReads, socket`readFaults
      ensures Valid()
      ensures socket.received == old(socket.received) + taken
      ensures Filled() == old(Filled()) + taken
      ensures socket.received + socket.incoming == old(socket.received + socket.incoming)
      ensures status.Done? ==> bytesRead == size && s == Some(Filled())
      ensures !status.Done? ==> bytesRead < size && s.None?
      ensures socket.blockedReads == old(socket.blockedReads) + if status.InProgress? then 1 else 0
      ensures socket.readFaults == old(socket.readFaults) + if status.Failed? then 1 else 0
      ensures |socket.readScript| <= |old(socket.readScript)|
      ensures |socket.readScript| < |old(socket.readScript)| || status.InProgress? || bytesRead == old(bytesRead)
      ensures old(socket.Calm()) ==> if status.Done? then socket.Calm() else status.InProgress? && socket.Drained()
    {
      s, taken := None, [];
      while bytesRead < size
        invariant Valid()
        invariant socket.received == old(socket.received) + taken
        invariant Filled() == old(Filled()) + taken
        invariant socket.received + socket.incoming == old(socket.received + socket.incoming)
        invariant socket.blockedReads == old(socket.blockedReads) && socket.readFaults == old(socket.readFaults)
        invariant |socket.readScript| <= |old(socket.readScript)|
        invariant |socket.readScript| < |old(socket.readScript)| || bytesRead == old(bytesRead)
        invariant old(socket.Calm()) ==> socket.Calm()
        decreases |socket.readScript|
      {
        ghost var offset := bytesRead;
        var n := socket.Read(buf, bytesRead, size - bytesRead);
        if n == 0 {
          return Failed, None, taken;
        }
        if n < 0 {
          if socket.errno == EINTR {
            continue;
          }
          if socket.errno == EAGAIN {
            return InProgress, None, taken;
          }
          return Failed, None, taken;
        }
        bytesRead := bytesRead + n;
        ghost var more := buf[offset..bytesRead];
        assert Filled() == buf[..offset] + more;
        assert socket.received == old(socket.received) + (taken + more) by {
          Associate(old(socket.received), taken, more);
        }
        assert Filled() == old(Filled()) + (taken + more) by {
          Associate(old(Filled()), taken, more);
        }
        taken := taken + more;
      }
      assert buf[..] == Filled();
      return Done, Some(buf[..]), taken;
    }
  }

  class StringWriter {
    const socket: Socket
    const s: bytes
    var bytesWritten: nat

    ghost predicate Valid()
      reads this
    {
      bytesWritten <= |s|
    }

    ghost function Written(): (w: bytes)
      requires Valid()
      reads this
      ensures |w| == bytesWritten
    {
      s[..bytesWritten]
    }

    constructor (socket: Socket, s: bytes)
      ensures Valid() && this.socket == socket && this.s == s && Written() == []
    {
      this.socket, this.s, bytesWritten := socket, s, 0;
    }

    /**
     * Writes on.  The octets the socket accepts are exactly the next ones of `s`; it is done only after
     * all of them, and waits only if a write would block
     * and fails only if a call failed.
     */
    method Write() returns (status: StringStatus, ghost accepted: bytes)
      requires Valid()
      modifies this, socket`writeScript, socket`errno, socket`sent, socket`blockedWrites, socket`writeFaults, socket`statFailures
      ensures Valid()
      ensures socket.sent == old(socket.sent) + accepted
      ensures Written() == old(Written()) + accepted
      ensures status.Done? ==> bytesWritten == |s|
      ensures !status.Done? ==> bytesWritten < |s|
      ensures socket.blockedWrites == old(socket.blockedWrites) + if status.InProgress? then 1 else 0
      ensures socket.writeFaults == old(socket.writeFaults) + if status.Failed? then 1 else 0
      ensures |socket.writeScript| <= |old(socket.writeScript)|
      ensures old(socket.statFailures) == [] ==> socket.statFailures == []
      ensures old(socket.statFailures) == [] ==>
        if status.Done? then socket.Reach() >= old(socket.Reach()) else |socket.sent| >= old(socket.Reach())
    {
      accepted := [];
      while bytesWritten < |s|
        invariant Valid()
        invariant socket.sent == old(socket.sent) + accepted
        invariant Written() == old(Written()) + accepted
        invariant socket.blockedWrites == old(socket.blockedWrites) && socket.writeFaults == old(socket.writeFaults)
        invariant |socket.writeScript| <= |old(socket.writeScript)|
        invariant old(socket.statFailures) == [] ==> socket.statFailures == [] && socket.Reach() >= old(socket.Reach())
        decreases |socket.writeScript|
      {
        var ok := socket.Stat();
        if !ok {
          return Failed, accepted;
        }
        ghost var offset := bytesWritten;
        var n := socket.Write(s, bytesWritten);
        if n == 0 {
          return Failed, accepted;
        }
        if n < 0 {
          if socket.errno == EINTR {
            continue;
          }
          if socket.errno == EAGAIN {
            return InProgress, accepted;
          }
          return Failed, accepted;
        }
        bytesWritten := bytesWritten + n;
        ghost var more := s[offset..bytesWritten];
        assert Written() == s[..offset] + more;
        assert socket.sent == old(socket.sent) + (accepted + more) by {
          Associate(old(socket.sent), accepted, more);
        }
        assert Written() == old(Written()) + (accepted + more) by {
          Associate(old(Written()), accepted, more);
        }
        accepted := accepted + more;
      }
      return Done, accepted;
    }
  }
}
