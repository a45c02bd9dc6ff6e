/** Blocking transfers: all octets, or failure. */
module ReaderWriters {
  import opened Bytes
  import opened Sockets

  /** How many times one call may find the socket blocked. */
  const SOCKET_TIMEOUT := 20000

  class ReaderWriter {
    const socket: Socket

    constructor (socket: Socket)
      ensures this.socket == socket
    {
      this.socket := socket;
    }

    /**
     * Reads `n` octets.  It succeeds exactly if all of them came, in order; it gives up only when a read
     * fails or after it has been blocked `SOCKET_TIMEOUT` times, and never throws a complete transfer away.
     */
    method Read(buf: array<byte>, n: nat) returns (ok: bool, ghost taken: bytes)
      requires n <= buf.Length
      modifies buf, socket`readScript, socket`errno, socket`incoming, socket`received, socket`blockedReads, socket`readFaults
      ensures socket.received == old(socket.received) + taken
      ensures socket.received + socket.incoming == old(socket.received + socket.incoming)
      ensures |taken| <= n && buf[..|taken|] == taken
      ensures ok <==> |taken| == n
      ensures old(socket.blockedReads) <= socket.blockedReads <= old(socket.blockedReads) + 20000
      ensures ok ==> socket.readFaults == old(socket.readFaults) && socket.blockedReads < old(socket.blockedReads) + SOCKET_TIMEOUT
      ensures !ok ==>
        || socket.readFaults == old(socket.readFaults) + 1
        || socket.blockedReads == old(socket.blockedReads) + 20000
    {
      taken := [];
      var bytesRead, timeout := 0, 0;
      while bytesRead < n && timeout < SOCKET_TIMEOUT
        invariant bytesRead == |taken| <= n && buf[..bytesRead] == taken
        invariant timeout <= SOCKET_TIMEOUT && (timeout == SOCKET_TIMEOUT ==> bytesRead < n)
        invariant socket.received == old(socket.received) + taken
        invariant socket.received + socket.incoming == old(socket.received + socket.incoming)
        invariant socket.blockedReads == old(socket.blockedReads) + timeout
        invariant socket.readFaults == old(socket.readFaults)
        decreases SOCKET_TIMEOUT - timeout, |socket.readScript|
      {
        var status := socket.Read(buf, bytesRead, n - bytesRead);
        if status == -1 && socket.errno == EINTR {
          continue;
        } else if status == -1 && socket.errno == EAGAIN {
          timeout := timeout + 1;
          continue;
        } else if status < 0 {
          return false, taken;
        }
        if status == 0 {
          return false, taken;
        }
        ghost var more := buf[bytesRead..bytesRead + status];
        bytesRead := bytesRead + status;
        Associate(old(socket.received), taken, more);
        assert buf[..bytesRead] == taken + more;
        taken := taken + more;
      }
      if timeout >= SOCKET_TIMEOUT {
        return false, taken;
      }
      return true, taken;
    }

    /** Writes all of `s`, under the same conditions. */
    method Write(s: bytes) returns (ok: bool, ghost accepted: bytes)
      modifies socket`writeScript, socket`errno, socket`sent, socket`blockedWrites, socket`writeFaults
      ensures socket.sent == old(socket.sent) + accepted
      ensures accepted <= s
      ensures ok <==> accepted == s
      ensures old(socket.blockedWrites) <= socket.blockedWrites <= old(socket.blockedWrites) + 20000
      ensures ok ==> socket.writeFaults == old(socket.writeFaults) && socket.blockedWrites < old(socket.blockedWrites) + SOCKET_TIMEOUT
      ensures !ok ==>
        || socket.writeFaults == old(socket.writeFaults) + 1
        || socket.blockedWrites == old(socket.blockedWrites) + 20000
    {
      accepted := [];
      var bytesWritten, timeout := 0, 0;
      while bytesWritten < |s| && timeout < SOCKET_TIMEOUT
        invariant bytesWritten <= |s| && accepted == s[..bytesWritten]
        invariant timeout <= SOCKET_TIMEOUT && (timeout == SOCKET_TIMEOUT ==> bytesWritten < |s|)
        invariant socket.sent == old(socket.sent) + accepted
        invariant socket.blockedWrites == old(socket.blockedWrites) + timeout
        invariant socket.writeFaults == old(socket.writeFaults)
        decreases SOCKET_TIMEOUT - timeout, |socket.writeScript|
      {
        var status := socket.Write(s, bytesWritten);
        if status == -1 && socket.errno == EINTR {
          continue;
        } else if status == -1 && socket.errno == EAGAIN {
          timeout := timeout + 1;
          continue;
        } else if status < 0 {
          return false, accepted;
        }
        if status == 0 {
          return false, accepted;
        }
        ghost var more := s[bytesWritten..bytesWritten + status];
        bytesWritten := bytesWritten + status;
        Associate(old(socket.sent), accepted, more);
        assert s[..bytesWritten] == accepted + more;
        accepted := accepted + more;
      }
      if timeout >= SOCKET_TIMEOUT {
        return false, accepted;
      }
      return true, accepted;
    }
  }
}
