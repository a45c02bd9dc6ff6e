/** The packet service: keys, the sticky failure flag, and the order in which the two halves run. */
module Services {
  import opened Bytes
  import opened Clients
  import opened Conservation
  import opened Messages
  import opened Origins
  import opened Pipeline
  import opened PipelineInvariants
  import opened Receivers
  import opened Senders
  import opened Sockets
  import opened Wrappers

  /** The result of `Run`: false, or true with the two descriptor sets and `nfds`. */
  datatype RunResult = Down | Polled(toRead: bool, toWrite: bool, nfds: nat)

  class Service {
    const socket: Socket
    const sender: Sender
    const receiver: Receiver
    const client: Client
    const p: Protocol
    var failed: bool
    var nextKey: int

    ghost predicate Wired()
      reads this, sender`Repr, receiver`Repr
    {
      && sender.receiver == receiver && sender.socket == socket && receiver.socket == socket
      && sender.client == client && receiver.client == client && sender.p == p && receiver.p == p && client.p == p
      && sender.Apart() && this !in sender.Repr && this !in receiver.Repr
    }

    /** Keys are the numbers of the submissions, and a half that is dead is never run again. */
    ghost predicate Keyed()
      reads this, client, sender`dead, receiver`dead
    {
      && failed == client.state.failed && nextKey == |client.state.book.submitted|
      && client.state.keyed && Fresh(client.state)
      && (!failed ==> !sender.dead && !receiver.dead)
    }

    ghost predicate Valid()
      reads this, client, socket, sender, sender.Repr, receiver, receiver.Repr
    {
      Wired() && sender.Valid() && receiver.Valid() && Keyed()
    }

    constructor (sender: Sender, receiver: Receiver)
      requires sender.Valid() && !sender.dead && receiver.Valid() && !receiver.dead
      requires sender.receiver == receiver && sender.Apart()
      requires var s := sender.client.state; s.book.submitted == [] && s.keyed && !s.failed
      ensures Valid() && !failed && nextKey == 0
      ensures this.sender == sender && this.receiver == receiver && client == sender.client
    {
      this.socket, this.sender, this.receiver := sender.socket, sender, receiver;
      this.client, this.p, failed, nextKey := sender.client, sender.p, false, 0;
    }

    /** Gives the request a key and queues it, or calls its handler right away once the service has failed. */
    method Submit(message: Message, command: Command, value: bytes, handler: Handler) returns (key: int)
      requires Valid()
      requires handler != Handshake && handler !in client.state.book.submitted
      modifies this`nextKey, sender`queue, sender`sequenceNumber, client
      ensures Valid() && key == old(nextKey) && nextKey == key + 1 && failed == old(failed)
      ensures client.state.book.submitted == old(client.state.book.submitted) + [handler]
      ensures client.state.book.removed == old(client.state.book.removed)
      ensures client.events == old(client.events) +
        [if failed then Refuse(handler) else Accept(key, handler, message, command, value)]
      ensures client.calls == old(client.calls) +
        if failed then [Call(handler, Error(AlreadyShutDown, None))] else []
      ensures !failed ==>
        var before, queue := old(client.state.tx.queue), client.state.tx.queue;
        && |queue| == |before| + 1 && before <= queue && queue[|before|].sequence == old(client.state.tx.nextSequence)
        && Carries(p, queue[|before|], Accept(key, handler, message, command, value),
                   LastConnectionId(p, client.state.rx.replies))
    {
      hide IsRun, Replay, Sender.Aligned, Receiver.Aligned;
      key := nextKey;
      nextKey := nextKey + 1;
      if failed {
        client.Error(handler, AlreadyShutDown, None);
        client.Step(Refuse(handler));
      } else {
        ConnectionIdIsLast(p, client.events);
        sender.Enqueue(message, command, value, handler, key);
      }
    }

    /** Nothing is queued, in flight or waiting. */
    ghost predicate Quiet()
      reads client
    {
      client.state.tx.queue == [] && client.state.tx.inFlight.None? && client.state.rx.awaiting == map[]
    }

    /** Everything that was submitted is on the wire. */
    ghost predicate AllSent(tx: Outbound) {
      tx.queue == [] && tx.inFlight.None?
    }

    /** A request is being written, and the next call for it fails. */
    ghost predicate WriteWillFail()
      reads client, socket
    {
      client.state.tx.inFlight.Some? && socket.statFailures != [] && socket.statFailures[0]
    }

    /** The submissions and removals so far. */
    ghost function Submissions(): (seq<Handler>, seq<Handler>)
      reads client
    {
      (client.state.book.submitted, client.state.book.removed)
    }

    /**
     * Sends, then receives.  It fails for good on the first fatal error.  Otherwise it names the directions
     * in which the socket would have blocked; and when it names none, everything submitted is settled.
     * Until it fails no request is dropped or overtakes another one, and no handler is called except with
     * what the drive says, or with the one failure that ends everything that waits.  `sent` is the story when
     * the sender has done its part; what follows, if the drive only responds, is the arrival of responses.
     */
    method Run() returns (r: RunResult, ghost sent: Story)
      requires Valid()
      modifies this`failed, client, sender, sender.Repr, receiver, receiver.Repr, socket
      ensures Valid() && nextKey == old(nextKey) && Submissions() == old(Submissions())
      ensures fresh(sender.Repr - old(sender.Repr)) && fresh(receiver.Repr - old(receiver.Repr))
      ensures old(client.events) <= client.events
      ensures r.Down? <==> failed
      ensures old(failed) ==> failed && client.events == old(client.events) && client.calls == old(client.calls)
      ensures r.Polled? ==>
        && r.nfds == (if r.toRead || r.toWrite then socket.fd + 1 else 0)
        && socket.blockedWrites == old(socket.blockedWrites) + (if r.toWrite then 1 else 0)
        && socket.blockedReads == old(socket.blockedReads) + (if r.toRead then 1 else 0)
      ensures r.Polled? && r.nfds == 0 ==> Quiet()
      ensures r.Polled? ==>
        && Line(client.state.tx) == Line(old(client.state.tx)) && sent.calls == old(client.calls)
        && Heard(p, sent, receiver.Told(), Some(if r.toRead then IoWait else Idle))
      ensures r.Down? && !old(failed) ==>
        || socket.writeFaults > old(socket.writeFaults) || !Sendable(p, old(client.state.tx))
        || receiver.Fault(client.state.rx.replies, |old(client.state.rx.replies)|, old(socket.readFaults))
      ensures old(WriteWillFail()) && !old(failed) ==>
        r.Down? && WasCalled(old(client.state).tx.inFlight.value.handler, client.state)
      ensures old(client.events) <= sent.events <= client.events && IsRun(p, sent.events)
      ensures var s := Replay(p, sent.events);
        && s.keyed && Fresh(s) && sent.replies == s.rx.replies == old(client.state.rx.replies)
        && s.book.calls == sent.calls && (s.book.submitted, s.book.removed) == Submissions()
      ensures |client.state.rx.replies| >= |sent.replies| && client.state.tx == Replay(p, sent.events).tx
      ensures socket.received + socket.incoming == old(socket.received + socket.incoming)
      ensures old(sender.Writable() || AllSent(client.state.tx)) && !old(failed) ==>
        AllSent(Replay(p, sent.events).tx) && (r.Polled? ==> !r.toWrite)
      ensures old(socket.Calm()) && r.Polled? && r.toRead ==> socket.Drained()
      ensures old((sender.Writable() || AllSent(client.state.tx)) && socket.Calm()) && !old(failed) && r.Down? ==>
        || receiver.Malformed(client.state.rx.replies)
        || receiver.Garbles(client.state.rx.replies, |old(client.state.rx.replies)|)
    {
      hide Sendable, Receiver.Fault, Receiver.Malformed, Receiver.Garbles, IsRun, Replay, Line, Heard, Fresh,
        Sender.Valid, Sender.Writable, Receiver.Valid;
      ReachedByRun();
      sent := receiver.Told();
      ghost var willFail, before := WriteWillFail(), client.events;
      if failed {
        return Down, sent;
      }
      var sending := RunSender();
      sent := receiver.Told();
      if sending.Fatal? {
        CleanUp();
        if willFail {
          ReachedByRun();
          WriteErrorWasCalled(p, before, client.events);
        }
        return Down, sent;
      }
      var receiving := RunReceiver();
      if receiving.Fatal? {
        CleanUp();
        return Down, sent;
      }
      RunningIsValid();
      var toRead, toWrite, nfds := false, false, 0;
      if sending.IoWait? {
        toWrite, nfds := true, socket.fd + 1;
      }
      if receiving.IoWait? {
        toRead, nfds := true, socket.fd + 1;
      }
      return Polled(toRead, toWrite, nfds), sent;
    }

    /** `Valid`, except that a half may have died without the service having noted it. */
    ghost predicate Running()
      reads this, client, socket, sender, sender.Repr, receiver, receiver.Repr
    {
      && Wired() && sender.Valid() && receiver.Valid()
      && !failed && !client.state.failed && nextKey == |client.state.book.submitted|
      && client.state.keyed && Fresh(client.state)
    }

    /** The state is the one that the run has led to, and its keys are in order. */
    ghost predicate Reached(s: State)
      reads client
    {
      && IsRun(p, client.events) && s == Replay(p, client.events) && s.book.calls == client.calls
      && s.keyed && Fresh(s)
    }

    lemma ReachedByRun()
      requires Valid()
      ensures Reached(client.state)
    {}

    lemma RunningIsValid()
      requires Running() && !sender.dead && !receiver.dead
      ensures Valid()
    {}

    method RunSender() returns (status: ServiceStatus)
      requires Valid() && !failed
      modifies client, sender, sender.Repr, receiver`table, receiver`sequenceOf, socket
      ensures Running() && Submissions() == old(Submissions())
      ensures fresh(sender.Repr - old(sender.Repr)) && receiver.Repr == old(receiver.Repr)
      ensures old(client.events) <= client.events
      ensures !receiver.dead && (sender.dead <==> status.Fatal?)
      ensures status.Idle? ==> client.state.tx.queue == [] && client.state.tx.inFlight.None?
      ensures socket.blockedWrites == old(socket.blockedWrites) + if status.IoWait? then 1 else 0
      ensures socket.blockedReads == old(socket.blockedReads) && socket.readFaults == old(socket.readFaults)
      ensures status.Fatal? ==> socket.writeFaults > old(socket.writeFaults) || !Sendable(p, old(client.state.tx))
      ensures !status.Fatal? ==> Line(client.state.tx) == Line(old(client.state.tx)) && client.calls == old(client.calls)
      ensures client.state.rx.replies == old(client.state.rx.replies)
      ensures old(socket.Calm()) ==> socket.Calm()
      ensures socket.received == old(socket.received) && socket.incoming == old(socket.incoming)
      ensures old(sender.Writable() || AllSent(client.state.tx)) ==> status.Idle?
      ensures Reached(client.state)
      ensures old(WriteWillFail()) ==> status.Fatal? && old(client.events) + [WriteError] <= client.events
    {
      hide IsRun, Replay, Sender.Aligned, Receiver.Aligned, Sendable;
      status := sender.Send();
    }

    method RunReceiver() returns (status: ServiceStatus)
      requires Running() && !sender.dead && !receiver.dead
      modifies client, receiver, receiver.Repr, socket
      ensures Running() && Submissions() == old(Submissions())
      ensures sender.Repr == old(sender.Repr) && fresh(receiver.Repr - old(receiver.Repr))
      ensures old(client.events) <= client.events && client.state.tx == old(client.state.tx)
      ensures !sender.dead && (receiver.dead <==> status.Fatal?)
      ensures status.Idle? ==> client.state.rx.awaiting == map[]
      ensures socket.blockedReads == old(socket.blockedReads) + if status.IoWait? then 1 else 0
      ensures socket.blockedWrites == old(socket.blockedWrites)
      ensures Heard(p, old(receiver.Told()), receiver.Told(), Some(status))
      ensures status.Fatal? ==>
        receiver.Fault(client.state.rx.replies, |old(client.state.rx.replies)|, old(socket.readFaults))
      ensures |client.state.rx.replies| >= |old(client.state.rx.replies)|
      ensures socket.received + socket.incoming == old(socket.received + socket.incoming)
      ensures old(socket.Calm()) ==>
        && (status.IoWait? ==> socket.Drained())
        && (status.Fatal? ==>
          || receiver.Malformed(client.state.rx.replies)
          || receiver.Garbles(client.state.rx.replies, |old(client.state.rx.replies)|))
    {
      hide IsRun, Replay, Sender.Aligned, Receiver.Aligned, Receiver.Malformed, Receiver.Garbles, Heard;
      status := receiver.Receive();
    }

    /** Marks the service as failed, once and for all. */
    method CleanUp()
      requires Running()
      modifies this`failed, client`events, client`state
      ensures Valid() && failed && Submissions() == old(Submissions())
      ensures client.events == old(client.events) + [Close] && client.calls == old(client.calls)
      ensures client.state.rx == old(client.state.rx) && client.state.tx == old(client.state.tx)
    {
      hide IsRun, Replay, Sender.Aligned, Receiver.Aligned;
      failed := true;
      client.Step(Close);
    }

    /**
     * Withdraws a request that is queued or waiting, and says whether it did; its handler will not be called.
     * The request in flight stays in flight.  Afterwards the key is neither queued nor waiting.
     */
    method Remove(key: int) returns (ok: bool)
      requires Valid()
      modifies sender`queue, receiver`table, receiver`sequenceOf, client`events, client`state
      ensures Valid() && nextKey == old(nextKey) && failed == old(failed)
      ensures ok <==> (exists r <- old(client.state.tx.queue) :: r.key == key) || key in old(client.state.rx.sequenceOf)
      ensures !ok ==> client.events == old(client.events)
      ensures ok ==> |client.events| == |old(client.events)| + 1 && old(client.events) <= client.events
      ensures ok && 0 <= key ==>
        && key < |client.state.book.submitted|
        && client.state.book.removed == old(client.state.book.removed) + [client.state.book.submitted[key]]
      ensures client.state.tx.inFlight == old(client.state.tx.inFlight)
      ensures client.state.book.submitted == old(client.state.book.submitted)
      ensures (forall r <- client.state.tx.queue :: r.key != key) && key !in client.state.rx.sequenceOf
    {
      hide Valid, IsRun;
      Keys(key);
      ghost var index;
      ok, index := RemoveFromSender(key);
      if ok {
        OnlyOnce(old(client.state.tx.queue), key, index);
      } else {
        ok := RemoveFromReceiver(key);
      }
    }

    /** What the keys of a valid service are good for. */
    lemma Keys(key: int)
      requires Valid()
      ensures forall r <- client.state.tx.queue :: NumberedRequest(client.state.book.submitted, r)
      ensures forall i, j :: 0 <= i < j < |client.state.tx.queue| ==> client.state.tx.queue[i].key != client.state.tx.queue[j].key
      ensures key in client.state.rx.sequenceOf ==> forall r <- client.state.tx.queue :: r.key != key
      ensures key in client.state.rx.sequenceOf ==>
        var q := client.state.rx.sequenceOf[key]; q in client.state.rx.awaiting && client.state.rx.awaiting[q].key == key
      ensures key in client.state.rx.sequenceOf && 0 <= key ==>
        && client.state.rx.sequenceOf[key] == key && key in client.state.rx.awaiting
        && key < |client.state.book.submitted|
        && client.state.book.submitted[key] == client.state.rx.awaiting[key].handler
    {
      var tx := client.state.tx;
      TablesStayInverse(p, client.events);
      KeyIsInOnePlace(p, client.events, key);
      KeysFindHandlers(p, client.events, key);
      assert forall r <- tx.queue :: r in InFlight(tx) + tx.queue;
    }

    lemma OnlyOnce(queue: seq<Request>, key: int, index: nat)
      requires index < |queue| && queue[index].key == key
      requires forall i, j :: 0 <= i < j < |queue| ==> queue[i].key != queue[j].key
      ensures forall r <- Without(queue, index) :: r.key != key
    {}

    method RemoveFromSender(key: int) returns (ok: bool, ghost index: nat)
      requires Valid()
      modifies sender`queue, client`events, client`state
      ensures Valid()
      ensures ok <==> exists r <- old(client.state.tx.queue) :: r.key == key
      ensures ok ==>
        && IsFirst(old(client.state.tx.queue), key, index)
        && client.events == old(client.events) + [RemoveQueued(index)]
        && client.state == Next(p, old(client.state), RemoveQueued(index))
      ensures !ok ==> client.events == old(client.events) && client.state == old(client.state)
    {
      hide IsRun, Replay, Sender.Aligned, Receiver.Aligned;
      ok, index := sender.Remove(key);
    }

    method RemoveFromReceiver(key: int) returns (ok: bool)
      requires Valid()
      modifies receiver`table, receiver`sequenceOf, client`events, client`state
      ensures Valid()
      ensures ok <==> key in old(client.state.rx.sequenceOf)
      ensures ok ==>
        && client.events == old(client.events) + [RemoveAwaiting(key)]
        && Enabled(p, old(client.state), RemoveAwaiting(key))
        && client.state == Next(p, old(client.state), RemoveAwaiting(key))
      ensures !ok ==> client.events == old(client.events) && client.state == old(client.state)
    {
      hide IsRun, Replay, Sender.Aligned, Receiver.Aligned;
      ok := receiver.Remove(key);
    }

    /** Every handler ever submitted has been called or removed, and not both, save one still in flight. */
    ghost predicate AllSettledButInFlight()
      reads client
    {
      var s := client.state;
      forall h <- s.book.submitted ::
        if InFlightFor(h, s) then !WasCalled(h, s) && h !in s.book.removed
        else WasCalled(h, s) <==> h !in s.book.removed
    }

    /**
     * The destructor.  The sender goes first: its queue fails, oldest request first, and the request in
     * flight is dropped without a call.  Then the receiver goes, and everything that waits fails.
     */
    method Destroy() returns (ghost waiting: seq<Call>)
      requires Valid()
      modifies this`failed, client, sender`queue, receiver`reader, receiver`dead, receiver`table, receiver`sequenceOf
      ensures client.Valid() && old(client.events) <= client.events && client.state.failed
      ensures client.state.tx == old(client.state.tx).(queue := []) && client.state.rx.awaiting == map[]
      ensures client.state.book.removed == old(client.state.book.removed)
      ensures client.state.book.submitted == old(client.state.book.submitted)
      ensures client.calls == old(client.calls) + Failures(old(client.state.tx.queue), SenderShutdown) + waiting
      ensures |waiting| == |old(client.state.rx.awaiting)|
      ensures forall c <- waiting :: c.outcome == Error(ReceiverShutdown, None)
      ensures AllSettledButInFlight()
      ensures var s := client.state;
        (forall h <- s.book.submitted :: WasCalled(h, s) || h in s.book.removed) <==> s.tx.inFlight.None?
    {
      hide IsRun, Replay, Sender.Aligned, Receiver.Aligned, WasCalled;
      failed := true;
      client.Step(Close);
      sender.Destroy();
      waiting := receiver.Destroy();
      ShutdownIsCompleteIff(p, client.events);
      ghost var s := client.state;
      forall h <- s.book.submitted ensures
        if InFlightFor(h, s) then !WasCalled(h, s) && h !in s.book.removed
        else WasCalled(h, s) <==> h !in s.book.removed
      {
        DrainedMeansSettled(p, client.events, h);
      }
    }

    /** No lost wake-up: once the service is quiet, every handler has been called or removed. */
    lemma QuietMeansSettled(h: Handler)
      requires Valid() && Quiet() && h in client.state.book.submitted
      ensures WasCalled(h, client.state) <==> h !in client.state.book.removed
    {
      DrainedMeansSettled(p, client.events, h);
    }
  }
}
