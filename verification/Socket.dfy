/** The socket, as the transport sees it through `read`, `send` and `fstat`. */
module Sockets {
  import opened Bytes

  type positive = x: int | 1 <= x witness 1

  /** What the operating system does with one call: move some octets, report the end of the stream, be
      interrupted, refuse to block, or fail. */
  datatype IoResult = Transfer(limit: positive) | Closed | Interrupted | WouldBlock | Broken

  /** How many calls from now on transfer something for certain. */
  function Flow(script: seq<IoResult>): nat {
    if script == [] || !script[0].Transfer? then 0 else 1 + Flow(script[1..])
  }

  predicate OnlyTransfers(script: seq<IoResult>) {
    forall r <- script :: r.Transfer?
  }

  datatype Errno = EINTR | EAGAIN | EIO

  /**
   * A connected socket.  How the operating system answers each call is decided by finite scripts, one
   * for each direction, on which nothing else depends; a call past the end of its script would block.
   */
  class Socket {
    const fd: nat
    var readScript: seq<IoResult>
    var writeScript: seq<IoResult>
    var statFailures: seq<bool>
    var errno: Errno
    /** Octets that have arrived and that nobody has read. */
    var incoming: bytes
    /** Every octet read so far, and every octet accepted for sending so far. */
    ghost var received: bytes
    ghost var sent: bytes
    /** How many reads and writes were refused because they would have blocked. */
    ghost var blockedReads: nat
    ghost var blockedWrites: nat
    /** How many reads found the stream closed or failed, and how many writes or `fstat` calls did. */
    ghost var readFaults: nat
    ghost var writeFaults: nat

    constructor (fd: nat, readScript: seq<IoResult>, writeScript: seq<IoResult>, statFailures: seq<bool>, incoming: bytes)
      ensures this.fd == fd && this.readScript == readScript && this.writeScript == writeScript
      ensures this.statFailures == statFailures && this.incoming == incoming
      ensures received == [] && sent == [] && blockedReads == 0 && blockedWrites == 0
      ensures readFaults == 0 && writeFaults == 0
    {
      this.fd, this.readScript, this.writeScript, this.statFailures := fd, readScript, writeScript, statFailures;
      this.incoming, errno, received, sent := incoming, EIO, [], [];
      blockedReads, blockedWrites, readFaults, writeFaults := 0, 0, 0, 0;
    }

    /** How many octets will have been sent, at least, before a write stalls. */
    ghost function Reach(): nat
      reads this`sent, this`writeScript
    {
      |sent| + Flow(writeScript)
    }

    /** Every octet that has arrived can be read, and the read after that blocks. */
    ghost predicate Calm()
      reads this`readScript, this`incoming
    {
      OnlyTransfers(readScript) && |readScript| > |incoming|
    }

    /** There is nothing to be read, and no fault is to come. */
    ghost predicate Drained()
      reads this`readScript, this`incoming
    {
      OnlyTransfers(readScript) && incoming == []
    }

    /** `read(fd, buf + offset, n)`: the octets read, 0 at the end of the stream, -1 with `errno` set. */
    method Read(buf: array<byte>, offset: nat, n: nat) returns (status: int)
      requires 0 < n && offset + n <= buf.Length
      modifies this`readScript, this`errno, this`incoming, this`received, this`blockedReads, this`readFaults, buf
      ensures -1 <= status <= n
      ensures buf[..offset] == old(buf[..offset])
      ensures status <= 0 ==> received == old(received)
      ensures status > 0 ==> received == old(received) + buf[offset..offset + status]
      ensures received + incoming == old(received + incoming)
      ensures |readScript| <= |old(readScript)|
      ensures !(status == -1 && errno == EAGAIN) ==> |readScript| < |old(readScript)|
      ensures blockedReads == old(blockedReads) + if status == -1 && errno == EAGAIN then 1 else 0
      ensures readFaults == old(readFaults) + if status == 0 || (status == -1 && errno == EIO) then 1 else 0
      ensures old(Calm()) ==> if status > 0 then Calm() else status == -1 && errno == EAGAIN && Drained()
    {
      var result := WouldBlock;
      if readScript != [] {
        result, readScript := readScript[0], readScript[1..];
      }
      if result.Transfer? && incoming == [] {
        result := WouldBlock;
      }
      match result
      case Transfer(limit) =>
        var k := if limit <= n then limit else n;
        status := if k <= |incoming| then k else |incoming|;
        var data := incoming[..status];
        forall i | 0 <= i < status {
          buf[offset + i] := data[i];
        }
        assert buf[offset..offset + status] == data;
        assert received + incoming == (received + data) + incoming[status..];
        received, incoming := received + data, incoming[status..];
      case Closed => status, readFaults := 0, readFaults + 1;
      case Interrupted => status, errno := -1, EINTR;
      case WouldBlock => status, errno, blockedReads := -1, EAGAIN, blockedReads + 1;
      case Broken => status, errno, readFaults := -1, EIO, readFaults + 1;
    }

    /** `send(fd, s + offset, |s| - offset)`: the octets accepted, 0, or -1 with `errno` set. */
    method Write(s: bytes, offset: nat) returns (status: int)
      requires offset < |s|
      modifies this`writeScript, this`errno, this`sent, this`blockedWrites, this`writeFaults
      ensures -1 <= status <= |s| - offset
      ensures status <= 0 ==> sent == old(sent)
      ensures status > 0 ==> sent == old(sent) + s[offset..offset + status]
      ensures |writeScript| <= |old(writeScript)|
      ensures !(status == -1 && errno == EAGAIN) ==> |writeScript| < |old(writeScript)|
      ensures blockedWrites == old(blockedWrites) + if status == -1 && errno == EAGAIN then 1 else 0
      ensures writeFaults == old(writeFaults) + if status == 0 || (status == -1 && errno == EIO) then 1 else 0
      ensures old(Flow(writeScript)) > 0 ==> status > 0
      ensures status > 0 ==> Reach() >= old(Reach())
    {
      var result := WouldBlock;
      if writeScript != [] {
        result, writeScript := writeScript[0], writeScript[1..];
      }
      match result
      case Transfer(limit) =>
        status := if limit <= |s| - offset then limit else |s| - offset;
        sent := sent + s[offset..offset + status];
      case Closed => status, writeFaults := 0, writeFaults + 1;
      case Interrupted => status, errno := -1, EINTR;
      case WouldBlock => status, errno, blockedWrites := -1, EAGAIN, blockedWrites + 1;
      case Broken => status, errno, writeFaults := -1, EIO, writeFaults + 1;
    }

    /** `fstat(fd)`: whether it succeeds. */
    method Stat() returns (ok: bool)
      modifies this`statFailures, this`writeFaults
      ensures ok <==> old(statFailures == [] || !statFailures[0])
      ensures statFailures == if old(statFailures) == [] then [] else old(statFailures)[1..]
      ensures writeFaults == old(writeFaults) + if ok then 0 else 1
    {
      ok := true;
      if statFailures != [] {
        ok, statFailures := !statFailures[0], statFailures[1..];
        writeFaults := writeFaults + if ok then 0 else 1;
      }
    }

    /** Time passes: octets arrive, and the operating system makes up its mind about further calls. */
    method Wait(arriving: bytes, nextReads: seq<IoResult>, nextWrites: seq<IoResult>)
      modifies this`incoming, this`readScript, this`writeScript
      ensures incoming == old(incoming) + arriving && readScript == old(readScript) + nextReads
    {
      incoming, readScript, writeScript := incoming + arriving, readScript + nextReads, writeScript + nextWrites;
    }
  }
}
