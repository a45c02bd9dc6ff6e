/** The byte streams under a message stream: a plain socket, or an SSL connection. */
module ByteStreams {
  import opened Bytes
  import opened ReaderWriters
  import opened Sockets
  import opened Wrappers

  /** A read has failed: for good, or after being blocked too often (SSL connections do not retry). */
  twostate predicate ReadStalled(stream: ByteStream)
    reads stream.socket
  {
    var s := stream.socket;
    || s.readFaults > old(s.readFaults)
    || (if stream.Plain? then s.blockedReads >= old(s.blockedReads) + SOCKET_TIMEOUT
        else s.blockedReads > old(s.blockedReads) || s.errno == EINTR)
  }

  twostate predicate WriteStalled(stream: ByteStream)
    reads stream.socket
  {
    var s := stream.socket;
    || s.writeFaults > old(s.writeFaults)
    || (if stream.Plain? then s.blockedWrites >= old(s.blockedWrites) + SOCKET_TIMEOUT
        else s.blockedWrites > old(s.blockedWrites) || s.errno == EINTR)
  }

  /** For an SSL connection, `socket` stands for the decrypted connection. */
  datatype ByteStream = Plain(socket: Socket) | Ssl(socket: Socket) {

    /** All `n` octets, or failure; on success exactly those are taken. */
    method Read(buf: array<byte>, n: nat) returns (ok: bool, ghost taken: bytes)
      requires n <= buf.Length
      modifies buf, socket`readScript, socket`errno, socket`incoming, socket`received, socket`blockedReads, socket`readFaults
      ensures socket.received == old(socket.received) + taken
      ensures socket.received + socket.incoming == old(socket.received + socket.incoming)
      ensures |taken| <= n && buf[..|taken|] == taken
      ensures ok <==> |taken| == n
      ensures ok ==> socket.readFaults == old(socket.readFaults) && socket.blockedReads >= old(socket.blockedReads)
      ensures !ok ==> ReadStalled(this)
    {
      match this
      case Plain(_) =>
        var readerWriter := new ReaderWriter(socket);
        ok, taken := readerWriter.Read(buf, n);
      case Ssl(_) =>
        ok, taken := SslRead(buf, n);
    }

    method SslRead(buf: array<byte>, size: nat) returns (ok: bool, ghost taken: bytes)
      requires size <= buf.Length
      modifies buf, socket`readScript, socket`errno, socket`incoming, socket`received, socket`blockedReads, socket`readFaults
      ensures socket.received == old(socket.received) + taken
      ensures socket.received + socket.incoming == old(socket.received + socket.incoming)
      ensures |taken| <= size && buf[..|taken|] == taken
      ensures ok <==> |taken| == size
      ensures ok ==> socket.blockedReads == old(socket.blockedReads) && socket.readFaults == old(socket.readFaults)
      ensures !ok ==> ReadStalled(Ssl(socket))
    {
      taken := [];
      if size == 0 {
        return true, taken;
      }
      var n, offset := size, 0;
      while n > 0
        invariant 0 <= n && offset + n == size && offset == |taken| && buf[..offset] == taken
        invariant socket.received == old(socket.received) + taken
        invariant socket.received + socket.incoming == old(socket.received + socket.incoming)
        invariant socket.blockedReads == old(socket.blockedReads) && socket.readFaults == old(socket.readFaults)
      {
        var bytesRead := socket.Read(buf, offset, n);
        if bytesRead > 0 {
          ghost var more := buf[offset..offset + bytesRead];
          n, offset := n - bytesRead, offset + bytesRead;
          Associate(old(socket.received), taken, more);
          assert buf[..offset] == taken + more;
          taken := taken + more;
        } else {
          return false, taken;
        }
      }
      return true, taken;
    }

    /** All of `s`, or failure; what has been accepted is always a first part of it. */
    method Write(s: bytes) returns (ok: bool, ghost accepted: bytes)
      modifies socket`writeScript, socket`errno, socket`sent, socket`blockedWrites, socket`writeFaults
      ensures socket.sent == old(socket.sent) + accepted
      ensures accepted <= s
      ensures ok <==> accepted == s
      ensures ok ==> socket.writeFaults == old(socket.writeFaults) && socket.blockedWrites >= old(socket.blockedWrites)
      ensures !ok ==> WriteStalled(this)
    {
      match this
      case Plain(_) =>
        var readerWriter := new ReaderWriter(socket);
        ok, accepted := readerWriter.Write(s);
      case Ssl(_) =>
        ok, accepted := SslWrite(s);
    }

    method SslWrite(s: bytes) returns (ok: bool, ghost accepted: bytes)
      modifies socket`writeScript, socket`errno, socket`sent, socket`blockedWrites, socket`writeFaults
      ensures socket.sent == old(socket.sent) + accepted
      ensures accepted <= s
      ensures ok <==> accepted == s
      ensures ok ==> socket.blockedWrites == old(socket.blockedWrites) && socket.writeFaults == old(socket.writeFaults)
      ensures !ok ==> WriteStalled(Ssl(socket))
    {
      accepted := [];
      if |s| == 0 {
        return true, accepted;
      }
      var n, offset := |s|, 0;
      while n > 0
        invariant 0 <= n && offset + n == |s| && accepted == s[..offset]
        invariant socket.sent == old(socket.sent) + accepted
        invariant socket.blockedWrites == old(socket.blockedWrites) && socket.writeFaults == old(socket.writeFaults)
      {
        var bytesWritten := socket.Write(s, offset);
        if bytesWritten > 0 {
          ghost var more := s[offset..offset + bytesWritten];
          n, offset := n - bytesWritten, offset + bytesWritten;
          Associate(old(socket.sent), accepted, more);
          assert s[..offset] == accepted + more;
          accepted := accepted + more;
        } else {
          return false, accepted;
        }
      }
      return true, accepted;
    }

    /** A value of `n` octets. */
    method ReadValue(n: nat) returns (value: Option<bytes>, ghost taken: bytes)
      modifies socket`readScript, socket`errno, socket`incoming, socket`received, socket`blockedReads, socket`readFaults
      ensures socket.received == old(socket.received) + taken
      ensures socket.received + socket.incoming == old(socket.received + socket.incoming)
      ensures |taken| <= n
      ensures value == if |taken| == n then Some(taken) else None
      ensures value.None? ==> ReadStalled(this)
    {
      var buf := new byte[n];
      var ok;
      ok, taken := Read(buf, n);
      if !ok {
        return None, taken;
      }
      assert buf[..] == buf[..n];
      return Some(buf[..]), taken;
    }
  }
}
