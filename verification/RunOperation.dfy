/** One blocking operation: the packet service is driven until the operation's handler has been called. */
module RunOperations {
  import opened Bytes
  import opened Conservation
  import Correlation
  import opened Pipeline
  import opened PipelineInvariants
  import opened Progress
  import opened Receivers
  import opened Senders
  import opened Services
  import opened Sockets
  import opened Wires
  import opened Wrappers

  /** What `select` reports, and what happens at the socket while it waits. */
  datatype Selected =
    | Ready(arriving: bytes, nextReads: seq<IoResult>, nextWrites: seq<IoResult>)
    | SelectInterrupted
    | TimedOut
    | SelectFailed

  datatype Status = Ok | ConnectionFailed | NetworkTimeout | SelectError | OperationFailed(failure: Failure)

  /** The socket becomes ready, and whatever has arrived by then can be read. */
  predicate Calm(selected: Selected) {
    selected.Ready? && OnlyTransfers(selected.nextReads) && |selected.nextReads| > |selected.arriving|
  }

  /** What arrives for as long as that is so. */
  function Arriving(script: seq<Selected>): bytes {
    if script == [] || !Calm(script[0]) then [] else script[0].arriving + Arriving(script[1..])
  }

  class BlockingConnection {
    const service: Service

    constructor (service: Service)
      ensures this.service == service
    {
      this.service := service;
    }

    /** `select`.  With no descriptor to wait for it could only time out, so the caller must have one. */
    method Select(nfds: nat, script: seq<Selected>) returns (selected: Selected, rest: seq<Selected>)
      requires service.Valid() && nfds > 0
      modifies service.socket`incoming, service.socket`readScript, service.socket`writeScript
      ensures service.Valid()
      ensures script == [] ==> selected.TimedOut? && rest == []
      ensures script != [] ==> selected in script && |rest| == |script| - 1
      ensures forall s <- rest :: s in script
      ensures script != [] ==> selected == script[0] && rest == script[1..]
      ensures selected.Ready? ==>
        && service.socket.incoming == old(service.socket.incoming) + selected.arriving
        && service.socket.readScript == old(service.socket.readScript) + selected.nextReads
    {
      hide IsRun, Replay, Sender.Aligned, Receiver.Aligned, Sender.Queues, Receiver.Tables;
      selected, rest := TimedOut, script;
      if script != [] {
        selected, rest := script[0], script[1..];
      }
      if selected.Ready? {
        service.socket.Wait(selected.arriving, selected.nextReads, selected.nextWrites);
      }
    }

    /** How many reads and writes have been blocked so far. */
    ghost function Blocked(): nat
      reads service.socket
    {
      service.socket.blockedReads + service.socket.blockedWrites
    }

    /** The operation is over for this key: it is neither queued nor waiting. */
    ghost predicate Released(key: int)
      reads service, service.client
    {
      (forall r <- service.client.state.tx.queue :: r.key != key) && key !in service.client.state.rx.sequenceOf
    }

    /** The octets read, the ones that wait to be read, and the ones to come are an answer to this key. */
    ghost predicate AnswerComes(key: int, known: nat, later: bytes)
      reads service, service.client, service.socket
    {
      var replies := service.client.state.rx.replies;
      && known <= |replies| && !AckedFrom(service.p, replies, known, key)
      && Answers(service.p, service.socket.received + service.socket.incoming + later, known, key)
    }

    /** Before a run: everything can be sent, all that has arrived can be read, and an answer comes. */
    ghost predicate Expecting(handler: Handler, key: int, known: nat, later: bytes)
      reads service, service.client, service.socket, service.sender, service.sender.socket, service.sender.client
    {
      && !service.failed && !service.client.Done(handler) && handler !in service.client.state.book.removed
      && (service.sender.Writable() || service.AllSent(service.client.state.tx)) && service.socket.Calm()
      && AnswerComes(key, known, later)
    }

    /** After a run: the operation has succeeded, or everything is sent and read and an answer still comes. */
    ghost predicate Served(handler: Handler, key: int, known: nat, later: bytes)
      reads service, service.client, service.socket
    {
      || service.client.Succeeded(handler)
      || (&& !service.client.Done(handler) && service.AllSent(service.client.state.tx) && service.socket.Drained()
          && AnswerComes(key, known, later))
    }

    /** What a run leads to, from where the sender has done its part, if an answer comes. */
    lemma RunServes(handler: Handler, key: int, known: nat, later: bytes, sent: Story, stop: ServiceStatus)
      requires service.Valid() && !service.failed && !stop.Fatal?
      requires 0 <= key < |service.client.state.book.submitted| && service.client.state.book.submitted[key] == handler
      requires handler !in service.client.state.book.removed && (forall c <- sent.calls :: c.handler != handler)
      requires IsRun(service.p, sent.events)
      requires var s := Replay(service.p, sent.events);
        && s.keyed && Fresh(s) && s.book.calls == sent.calls && s.rx.replies == sent.replies
        && (s.book.submitted, s.book.removed) == service.Submissions() && s.tx == service.client.state.tx
        && service.AllSent(s.tx)
      requires Heard(service.p, sent, service.receiver.Told(), Some(stop))
      requires known <= |sent.replies| && !AckedFrom(service.p, sent.replies, known, key)
      requires Answers(service.p, service.socket.received + service.socket.incoming + later, known, key)
      requires stop.IoWait? ==> service.socket.Drained()
      requires stop.Idle? ==> service.Quiet()
      ensures Served(handler, key, known, later)
    {
      hide IsRun, Replay, Receiver.Aligned, Sender.Aligned, Responds, Acks, Succeeds;
      var p, replies := service.p, service.client.state.rx.replies;
      var ps := replies[|sent.replies|..];
      SentMeansWaiting(p, sent.events, key, handler);
      ReceiverDecodes(service.receiver, service.socket.received + service.socket.incoming + later, later);
      assert replies == sent.replies + ps;
      AnswersSoFar(p, service.socket.received + service.socket.incoming + later, known, key, sent.replies, ps);
      ArrivalsDeliver(p, sent.events, ps, key, handler);
      if !AckedFrom(p, ps, 0, key) && service.client.Done(handler) {
        CalledMeansGone(p, service.client.events, handler);
      }
    }

    /** `Run`, as `RunOperation` uses it. */
    method Serve(handler: Handler, key: int, ghost known: nat, ghost later: bytes) returns (polled: RunResult)
      requires service.Valid()
      requires 0 <= key < |service.client.state.book.submitted| && service.client.state.book.submitted[key] == handler
      modifies service`failed, service.client, service.socket
      modifies service.sender, service.sender.Repr, service.receiver, service.receiver.Repr
      ensures service.Valid() && service.Submissions() == old(service.Submissions())
      ensures fresh(service.sender.Repr - old(service.sender.Repr))
      ensures fresh(service.receiver.Repr - old(service.receiver.Repr))
      ensures old(service.client.events) <= service.client.events
      ensures polled.Down? <==> service.failed
      ensures polled.Polled? && polled.nfds == 0 ==> service.Quiet()
      ensures polled.Polled? && polled.nfds > 0 ==> Blocked() > old(Blocked())
      ensures polled.Polled? ==> Blocked() >= old(Blocked())
      ensures old(Expecting(handler, key, known, later)) ==> polled.Polled? && Served(handler, key, known, later)
    {
      hide Service.Valid, IsRun, Replay, WasCalled, Heard, Line, Sendable, Sender.Writable;
      ghost var expecting := Expecting(handler, key, known, later);
      ghost var sent;
      polled, sent := service.Run();
      if expecting {
        if polled.Down? {
          DownIsNoAnswer(key, known, later, |sent.replies|);
        } else {
          RunServes(handler, key, known, later, sent, if polled.toRead then IoWait else Idle);
        }
      }
    }

    lemma DownIsNoAnswer(key: int, known: nat, later: bytes, n: nat)
      requires service.Valid() && known <= n <= |service.client.state.rx.replies|
      requires Answers(service.p, service.socket.received + service.socket.incoming + later, known, key)
      ensures !service.receiver.Malformed(service.client.state.rx.replies)
      ensures !service.receiver.Garbles(service.client.state.rx.replies, n)
    {
      Associate(service.socket.received, service.socket.incoming, later);
      AnswersAreNoFault(service.receiver, key, known, n, service.socket.incoming + later);
    }

    /** If an answer comes, and nothing is left that could come, then it has come. */
    lemma AnswerHasCome(handler: Handler, key: int, known: nat)
      requires service.Valid() && !service.failed && Served(handler, key, known, [])
      ensures service.client.Succeeded(handler)
    {
      hide IsRun, Replay, Receiver.Aligned, Sender.Aligned, Acks, Favourable;
      if !service.client.Succeeded(handler) {
        assert service.socket.received + service.socket.incoming + [] == service.socket.received;
        EverythingRead(service.receiver);
      }
    }

    /** `select` has brought more octets of an answer. */
    lemma ReadyForMore(handler: Handler, key: int, known: nat, selected: Selected, later: bytes, before: seq<IoResult>)
      requires Calm(selected) && OnlyTransfers(before) && !service.failed && !service.client.Done(handler)
      requires handler !in service.client.state.book.removed && service.AllSent(service.client.state.tx)
      requires service.socket.incoming == [] + selected.arriving
      requires service.socket.readScript == before + selected.nextReads
      requires known <= |service.client.state.rx.replies|
      requires !AckedFrom(service.p, service.client.state.rx.replies, known, key)
      requires Answers(service.p, service.socket.received + [] + (selected.arriving + later), known, key)
      ensures Expecting(handler, key, known, later)
    {
      hide Answers, AckedFrom;
      var received := service.socket.received;
      assert received + [] == received && [] + selected.arriving == selected.arriving;
      Associate(received, selected.arriving, later);
    }

    /**
     * `script` is what `select` is going to report; after that it times out.
     * Drives the service until the handler of `key` has been called, or gives up and withdraws the request.
     * On every path the key is neither queued nor waiting afterwards.  It returns `Ok` exactly if the handler
     * was given a response and the connection still stands; an error of the operation exactly if it was
     * called with that error; and a timeout only if `select` reported one, after the socket has been blocked
     * before every call of it.  If the handler was not called, the request was withdrawn and never will be, or
     * it is the one still in flight.
     *
     * And it does return `Ok` if an answer comes: the socket takes all octets of the line, and what waits to be
     * read and what `select` brings, before it reports anything else, has a response of success to the key.
     */
    method RunOperation(handler: Handler, key: int, script: seq<Selected>) returns (status: Status)
      requires service.Valid()
      requires 0 <= key < |service.client.state.book.submitted| && service.client.state.book.submitted[key] == handler
      requires handler !in service.client.state.book.removed
      modifies service`failed, service.client, service.socket
      modifies service.sender, service.sender.Repr, service.receiver, service.receiver.Repr
      ensures service.Valid() && Released(key)
      ensures old(service.client.events) <= service.client.events
      ensures status.Ok? <==> !service.failed && service.client.Succeeded(handler)
      ensures status.ConnectionFailed? <==> service.failed
      ensures status.OperationFailed? <==>
        !service.failed && service.client.Done(handler) && !service.client.Succeeded(handler)
      ensures status.SelectError? ==> SelectFailed in script
      ensures status.NetworkTimeout? ==> TimedOut in script || Blocked() >= old(Blocked()) + |script| + 1
      ensures status.OperationFailed? ==>
        exists c <- service.client.calls :: c.handler == handler && c.outcome.Error? && c.outcome.failure == status.failure
      ensures status.Ok? ==> exists response, value :: Reported(key, Handled(response, value))
      ensures status.OperationFailed? && status.failure.Remote? ==>
        exists reply :: Reported(key, Error(status.failure, reply))
      ensures !service.client.Done(handler) ==>
        || handler in service.client.state.book.removed
        || InFlightFor(handler, service.client.state)
      ensures old(Expecting(handler, key, |service.client.state.rx.replies|, Arriving(script))) ==> status.Ok?
    {
      hide Service.Valid, Service.Quiet, IsRun, WasCalled, Released, Expecting, Served, Calm, OnlyTransfers, Reported;
      var client := service.client;
      ghost var known := |client.state.rx.replies|;
      ghost var expecting := Expecting(handler, key, known, Arriving(script));
      var polled := Serve(handler, key, known, Arriving(script));
      if polled.Down? {
        Withdraw(handler, key);
        return ConnectionFailed;
      }
      var left := script;
      while !client.Done(handler)
        invariant service.Valid() && polled.Polled?
        invariant service.Submissions() == old(service.Submissions())
        invariant polled.nfds == 0 ==> service.Quiet()
        invariant old(client.events) <= client.events && !service.failed
        invariant (forall s <- left :: s in script) && |left| <= |script|
        invariant Blocked() >= old(Blocked()) + |script| - |left| + if polled.nfds > 0 then 1 else 0
        invariant fresh(service.sender.Repr - old(service.sender.Repr))
        invariant fresh(service.receiver.Repr - old(service.receiver.Repr))
        invariant expecting ==> Served(handler, key, known, Arriving(left))
        decreases |left|
      {
        if polled.nfds == 0 {
          QuietMeansDone(handler);
        }
        var selected;
        selected, left := Wait(handler, key, known, polled.nfds, left);
        if selected.SelectFailed? {
          Withdraw(handler, key);
          return SelectError;
        } else if selected.TimedOut? {
          Withdraw(handler, key);
          return NetworkTimeout;
        } else {
          polled := Serve(handler, key, known, Arriving(left));
          if polled.Down? {
            Withdraw(handler, key);
            return ConnectionFailed;
          }
        }
      }
      DoneMeansReleased(handler, key);
      if expecting {
        ServedMeansSucceeded(handler, key, known, Arriving(left));
      }
      if client.Succeeded(handler) {
        ghost var success :| success in client.calls && success.handler == handler && success.outcome.Handled?;
        ToldMeansReported(handler, key, success);
        return Ok;
      }
      var c :| c in client.calls && c.handler == handler;
      if c.outcome.failure.Remote? {
        ToldMeansReported(handler, key, c);
      }
      return OperationFailed(c.outcome.failure);
    }

    /** `select`, as `RunOperation` uses it: as long as an answer comes, it brings the next octets. */
    method Wait(handler: Handler, key: int, ghost known: nat, nfds: nat, script: seq<Selected>)
      returns (selected: Selected, rest: seq<Selected>)
      requires service.Valid() && nfds > 0 && !service.failed
      requires !service.client.Done(handler) && handler !in service.client.state.book.removed
      modifies service.socket`incoming, service.socket`readScript, service.socket`writeScript
      ensures service.Valid() && Blocked() == old(Blocked())
      ensures script != [] ==> selected in script && |rest| == |script| - 1
      ensures script == [] ==> selected.TimedOut? && rest == []
      ensures forall s <- rest :: s in script
      ensures old(Served(handler, key, known, Arriving(script))) ==>
        selected.Ready? && Expecting(handler, key, known, Arriving(rest))
    {
      hide Service.Valid, IsRun, Answers, AckedFrom, Sender.Writable;
      ghost var served, reading := Served(handler, key, known, Arriving(script)), service.socket.readScript;
      if served && (script == [] || !Calm(script[0])) {
        AnswerHasCome(handler, key, known);
        SucceededIsDone(handler);
      }
      selected, rest := Select(nfds, script);
      if served {
        ReadyForMore(handler, key, known, selected, Arriving(rest), reading);
      }
    }

    lemma ServedMeansSucceeded(handler: Handler, key: int, known: nat, later: bytes)
      requires Served(handler, key, known, later) && service.client.Done(handler)
      ensures service.client.Succeeded(handler)
    {}

    lemma SucceededIsDone(handler: Handler)
      ensures service.client.Succeeded(handler) ==> service.client.Done(handler)
    {}

    /** A packet has been read that is a response to this key, and it is what the outcome tells. */
    ghost predicate Reported(key: int, outcome: Outcome)
      reads service.client
    {
      exists packet, received, told ::
        && packet in service.client.state.rx.replies && Correlation.Says(service.p, packet, received, told)
        && told.ackSequence == Some(key) && Correlation.Tells(outcome, received, told, packet.value)
    }

    /** Whatever the operation's handler is told of a response was said to its own key. */
    lemma ToldMeansReported(handler: Handler, key: int, c: Call)
      requires service.Valid() && c in service.client.calls && c.handler == handler && Correlation.PassesOn(c)
      requires 0 <= key < |service.client.state.book.submitted| && service.client.state.book.submitted[key] == handler
      ensures Reported(key, c.outcome)
    {
      hide IsRun, Replay, Sender.Aligned, Receiver.Aligned, Correlation.Tells, Correlation.PassesOn;
      var p, s := service.p, service.client.state;
      Correlation.ResponsesReachTheirRequests(p, service.client.events);
      RunsAreNumbered(p, service.client.events);
      var at :| Correlation.InOrder(p, s, at);
      var i :| 0 <= i < |s.book.calls| && s.book.calls[i] == c;
      var packet := s.rx.replies[at[i]];
      var received, told :| Correlation.AnswersWith(p, s.tx.wire, packet, c, received, told);
      var r :| r in s.tx.wire && r.sequence == told.ackSequence.value && r.handler == handler;
      assert r in Line(s.tx);
    }

    /** `RemoveHandler`, as every early return of `RunOperation` calls it. */
    method Withdraw(handler: Handler, key: int)
      requires service.Valid()
      requires 0 <= key < |service.client.state.book.submitted| && service.client.state.book.submitted[key] == handler
      modifies service.sender`queue, service.receiver`table, service.receiver`sequenceOf
      modifies service.client`events, service.client`state
      ensures service.Valid() && Released(key) && old(service.client.events) <= service.client.events
      ensures !service.client.Done(handler) ==>
        || handler in service.client.state.book.removed
        || InFlightFor(handler, service.client.state)
      ensures service.failed == old(service.failed)
    {
      hide Service.Valid, IsRun;
      var _ := service.Remove(key);
      ReleasedMeansSettled(handler, key);
    }

    /** A quiet service has called every handler that nobody removed. */
    lemma QuietMeansDone(handler: Handler)
      requires service.Valid() && service.Quiet()
      requires handler in service.client.state.book.submitted && handler !in service.client.state.book.removed
      ensures service.client.Done(handler)
    {
      service.QuietMeansSettled(handler);
    }

    /** Once its handler has been called, a key is neither queued nor waiting. */
    lemma DoneMeansReleased(handler: Handler, key: int)
      requires service.Valid() && service.client.Done(handler)
      requires 0 <= key < |service.client.state.book.submitted| && service.client.state.book.submitted[key] == handler
      ensures Released(key)
    {
      service.Keys(key);
      CalledMeansGone(service.p, service.client.events, handler);
      assert forall r <- service.client.state.tx.queue :: NumberedRequest(service.client.state.book.submitted, r);
    }

    /** Once its key is neither queued nor waiting, the handler is in neither place. */
    lemma ReleasedMeansWithdrawn(handler: Handler, key: int)
      requires service.Valid() && Released(key)
      requires 0 <= key < |service.client.state.book.submitted| && service.client.state.book.submitted[key] == handler
      ensures Withdrawn(handler, service.client.state)
    {
      var s := service.client.state;
      forall r <- s.tx.queue ensures r.handler != handler {
        service.Keys(r.key);
        assert NumberedRequest(s.book.submitted, r);
      }
      forall q <- s.rx.awaiting ensures s.rx.awaiting[q].handler != handler {
        NotWaiting(handler, key, q);
      }
    }

    /** A handler whose key is neither queued nor waiting was called or removed, or is in flight. */
    lemma ReleasedMeansSettled(handler: Handler, key: int)
      requires service.Valid() && Released(key)
      requires 0 <= key < |service.client.state.book.submitted| && service.client.state.book.submitted[key] == handler
      ensures
        || service.client.Done(handler)
        || handler in service.client.state.book.removed
        || InFlightFor(handler, service.client.state)
    {
      ReleasedMeansWithdrawn(handler, key);
      if !InFlightFor(handler, service.client.state) {
        GoneMeansSettled(service.p, service.client.events, handler);
      }
    }

    /**
     * After `RunOperation` has returned without its handler having been called, that handler can still be
     * called, by some continuation of the run, if and only if its request is the one being written and the
     * service has not failed.
     */
    lemma LateCallIff(handler: Handler, key: int)
      requires service.Valid() && Released(key) && !service.client.Done(handler)
      requires 0 <= key < |service.client.state.book.submitted| && service.client.state.book.submitted[key] == handler
      ensures var p, t := service.p, service.client.events;
        InFlightFor(handler, service.client.state) && !service.failed <==>
        exists u :: IsRun(p, t + u) && Fresh(Replay(p, t + u)) && WasCalled(handler, Replay(p, t + u))
    {
      ReleasedMeansWithdrawn(handler, key);
      MayEverBeCalledIff(service.p, service.client.events, handler);
    }

    lemma NotWaiting(handler: Handler, key: int, q: int)
      requires service.Valid() && key !in service.client.state.rx.sequenceOf && q in service.client.state.rx.awaiting
      requires 0 <= key < |service.client.state.book.submitted| && service.client.state.book.submitted[key] == handler
      ensures service.client.state.rx.awaiting[q].handler != handler
    {
      hide IsRun, Replay, Sender.Aligned, Receiver.Aligned;
      TablesStayInverse(service.p, service.client.events);
      if service.client.state.rx.awaiting[q].handler == handler {
        WaitsUnderItsKey(service.p, service.client.events, q, key);
      }
    }
  }
}
