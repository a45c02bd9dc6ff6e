/** No handler is lost and none is called twice: a census of the pipeline over every run. */
module Conservation {
  import opened Bytes
  import opened Framing
  import opened Messages
  import opened Pipeline
  import opened PipelineInvariants
  import opened Wrappers

  // Each part of the census says how many times the handler `h` is in one place of the pipeline.

  function Times(h: Handler, hs: seq<Handler>): nat {
    multiset(hs)[h]
  }

  function If(b: bool): nat {
    if b then 1 else 0
  }

  function Handlers(rs: seq<Request>): seq<Handler> {
    seq(|rs|, i requires 0 <= i < |rs| => rs[i].handler)
  }

  function Callees(calls: seq<Call>): seq<Handler> {
    seq(|calls|, i requires 0 <= i < |calls| => calls[i].handler)
  }

  /** With the sender: in flight or queued. */
  function Outgoing(h: Handler, tx: Outbound): nat {
    If(tx.inFlight.Some? && tx.inFlight.value.handler == h) + Times(h, Handlers(tx.queue))
  }

  /** Waiting under a sequence number from the handshake's to below `bound`. */
  function Waiting(h: Handler, m: map<int, Entry>, bound: nat): nat {
    if bound == 0 then If(At(h, m, HANDSHAKE_SEQUENCE)) else Waiting(h, m, bound - 1) + If(At(h, m, bound - 1))
  }

  predicate At(h: Handler, m: map<int, Entry>, q: int) {
    q in m && m[q].handler == h
  }

  /** Done with: removed by the user, or called. */
  function Settled(h: Handler, book: Ledger): nat {
    Times(h, book.removed) + Times(h, Callees(book.calls))
  }

  /** How many times the handler is anywhere. */
  function Census(h: Handler, s: State): nat {
    Outgoing(h, s.tx) + Waiting(h, s.rx.awaiting, s.tx.nextSequence) + Settled(h, s.book)
  }

  /** How many times it should be: as often as it was submitted, and the receiver's own once more. */
  function Due(h: Handler, s: State): nat {
    If(h == Handshake) + Times(h, s.book.submitted)
  }

  // ---------------------------------------------------------------------- the parts of a census

  lemma {:induction false} WaitingAgree(h: Handler, m: map<int, Entry>, n: map<int, Entry>, bound: nat)
    requires forall q :: HANDSHAKE_SEQUENCE <= q < bound ==> At(h, m, q) == At(h, n, q)
    ensures Waiting(h, m, bound) == Waiting(h, n, bound)
  {
    if bound > 0 {
      WaitingAgree(h, m, n, bound - 1);
    }
  }

  lemma {:induction false} WaitingAdd(h: Handler, m: map<int, Entry>, q: int, e: Entry, bound: nat)
    requires q !in m && (HANDSHAKE_SEQUENCE == q || 0 <= q < bound)
    ensures Waiting(h, m[q := e], bound) == Waiting(h, m, bound) + If(e.handler == h)
  {
    if bound > 0 {
      if q == bound - 1 {
        WaitingAgree(h, m, m[q := e], bound - 1);
      } else {
        WaitingAdd(h, m, q, e, bound - 1);
      }
    }
  }

  lemma WaitingRemove(h: Handler, m: map<int, Entry>, q: int, bound: nat)
    requires q in m && HANDSHAKE_SEQUENCE <= q < bound
    ensures Waiting(h, m, bound) == Waiting(h, m - {q}, bound) + If(m[q].handler == h)
  {
    WaitingAdd(h, m - {q}, q, m[q], bound);
    assert (m - {q})[q := m[q]] == m;
  }

  lemma {:induction false} WaitingNone(h: Handler, bound: nat)
    ensures Waiting(h, map[], bound) == 0
  {
    if bound > 0 {
      WaitingNone(h, bound - 1);
    }
  }

  lemma HandlersSnoc(h: Handler, rs: seq<Request>, r: Request)
    ensures Times(h, Handlers(rs + [r])) == Times(h, Handlers(rs)) + If(r.handler == h)
  {
    assert Handlers(rs + [r]) == Handlers(rs) + [r.handler];
  }

  lemma HandlersWithout(h: Handler, rs: seq<Request>, i: nat)
    requires i < |rs|
    ensures Times(h, Handlers(rs)) == Times(h, Handlers(Without(rs, i))) + If(rs[i].handler == h)
  {
    assert Handlers(rs) == Handlers(rs[..i]) + [rs[i].handler] + Handlers(rs[i + 1..]);
    assert Handlers(Without(rs, i)) == Handlers(rs[..i]) + Handlers(rs[i + 1..]);
  }

  lemma CalleesSnoc(h: Handler, book: Ledger, callee: Handler, outcome: Outcome)
    ensures Settled(h, Called(book, callee, outcome)) == Settled(h, book) + If(callee == h)
  {
    assert Callees(book.calls + [Call(callee, outcome)]) == Callees(book.calls) + [callee];
  }

  lemma RemovedSnoc(h: Handler, book: Ledger, gone: Handler)
    ensures Settled(h, Removed(book, gone)) == Settled(h, book) + If(gone == h)
  {}

  // ---------------------------------------------------------------------- the law

  /** Nothing waits or is in flight under a number that has not been given out. */
  predicate InRange(s: State) {
    && (forall q <- s.rx.awaiting :: HANDSHAKE_SEQUENCE <= q < s.tx.nextSequence)
    && (s.tx.inFlight.Some? ==> 0 <= s.tx.inFlight.value.sequence < s.tx.nextSequence)
  }

  lemma DisciplineGivesRange(p: Protocol, s: State)
    requires Disciplined(p, s)
    ensures InRange(s)
  {
    forall q <- s.rx.awaiting ensures HANDSHAKE_SEQUENCE <= q < s.tx.nextSequence {
      assert Accounted(s.tx.wire, q, s.rx.awaiting[q]);
      if r :| r in s.tx.wire && r.sequence == q {
        assert r in Line(s.tx);
      }
    }
    if s.tx.inFlight.Some? {
      assert Line(s.tx)[|s.tx.wire|] == s.tx.inFlight.value;
    }
  }

  /** How often a step takes the handler in. */
  function Newcomer(h: Handler, e: Event): nat {
    match e
    case Accept(_, handler, _, _, _) => If(handler == h)
    case Refuse(handler) => If(handler == h)
    case _ => 0
  }

  lemma DueGrows(h: Handler, p: Protocol, s: State, e: Event)
    requires Enabled(p, s, e)
    ensures Due(h, Next(p, s, e)) == Due(h, s) + Newcomer(h, e)
  {}

  /** A step takes in the handler that it submits; otherwise it only moves handlers about. */
  lemma StepConserves(h: Handler, p: Protocol, s: State, e: Event)
    requires Enabled(p, s, e) && InRange(s)
    ensures Census(h, Next(p, s, e)) == Census(h, s) + Newcomer(h, e)
  {
    hide Waiting, Settled, Handlers, Times;
    var n := s.tx.nextSequence;
    match e
    case Accept(_, _, _, _, _) => AcceptConserves(h, p, s, e);
    case Refuse(handler) =>
      SettledIgnoresSubmitted(h, s.book, handler);
      CalleesSnoc(h, s.book.(submitted := s.book.submitted + [handler]), handler, Error(AlreadyShutDown, None));
    case Start => DropHead(h, s.tx.queue);
    case Finish => FinishConserves(h, s);
    case WriteError => CalleesSnoc(h, s.book, s.tx.inFlight.value.handler, Error(WriteFailed, None));
    case Drain(f) =>
      CalleesSnoc(h, s.book, s.tx.queue[0].handler, Error(f, None));
      DropHead(h, s.tx.queue);
    case Reply(packet) => ReplyConserves(h, p, s, packet);
    case Fail(q, f) =>
      CalleesSnoc(h, s.book, s.rx.awaiting[q].handler, Error(f, None));
      WaitingRemove(h, s.rx.awaiting, q, n);
    case RemoveQueued(i) =>
      RemovedSnoc(h, s.book, s.tx.queue[i].handler);
      HandlersWithout(h, s.tx.queue, i);
    case RemoveAwaiting(k) =>
      var q := s.rx.sequenceOf[k];
      RemovedSnoc(h, s.book, s.rx.awaiting[q].handler);
      WaitingRemove(h, s.rx.awaiting, q, n);
    case Close =>
  }

  lemma AcceptConserves(h: Handler, p: Protocol, s: State, e: Event)
    requires e.Accept? && InRange(s)
    ensures Census(h, Next(p, s, e)) == Census(h, s) + If(e.handler == h)
  {
    hide Waiting, Settled, Handlers, Times;
    HandlersSnoc(h, s.tx.queue, NewRequest(p, s, e));
    WaitingBeyond(h, s.rx.awaiting, s.tx.nextSequence);
    SettledIgnoresSubmitted(h, s.book, e.handler);
  }

  lemma WaitingBeyond(h: Handler, m: map<int, Entry>, bound: nat)
    requires bound !in m
    ensures Waiting(h, m, bound + 1) == Waiting(h, m, bound)
  {}

  lemma SettledIgnoresSubmitted(h: Handler, book: Ledger, newcomer: Handler)
    ensures Settled(h, book.(submitted := book.submitted + [newcomer])) == Settled(h, book)
  {}

  lemma DropHead(h: Handler, rs: seq<Request>)
    requires rs != []
    ensures Times(h, Handlers(rs)) == Times(h, Handlers(rs[1..])) + If(rs[0].handler == h)
  {
    HandlersWithout(h, rs, 0);
    assert Without(rs, 0) == rs[1..];
  }

  lemma FinishConserves(h: Handler, s: State)
    requires s.tx.inFlight.Some? && InRange(s)
    ensures Census(h, HandOver(s, s.tx.inFlight.value)) == Census(h, s)
  {
    hide Waiting, Settled, Handlers, Times;
    var r := s.tx.inFlight.value;
    if HasRoom(s.rx, r.sequence, r.key) {
      WaitingAdd(h, s.rx.awaiting, r.sequence, Entry(r.handler, r.key), s.tx.nextSequence);
    } else {
      CalleesSnoc(h, s.book, r.handler, Error(CouldNotEnqueue, None));
    }
  }

  lemma ReplyConserves(h: Handler, p: Protocol, s: State, packet: Packet)
    requires p.parseMessage(packet.message).Some? && InRange(s)
    ensures Census(h, Replied(p, s, packet)) == Census(h, s)
  {
    hide Waiting, Settled, Handlers, Times;
    var m := MeaningOf(p, packet);
    if m.Acknowledged? && m.sequence in s.rx.awaiting {
      CalleesSnoc(h, s.book, s.rx.awaiting[m.sequence].handler, OutcomeOf(m.command, packet.value));
      WaitingRemove(h, s.rx.awaiting, m.sequence, s.tx.nextSequence);
    }
  }

  /**
   * Conservation.  In every run, each handler is queued, in flight, waiting, removed or called exactly as
   * many times as it was submitted (and the receiver's handshake handler once more than that).
   */
  lemma {:induction false} HandlersAreConserved(h: Handler, p: Protocol, t: seq<Event>)
    requires IsRun(p, t)
    ensures Census(h, Replay(p, t)) == Due(h, Replay(p, t))
  {
    if t != [] {
      var s, e := Replay(p, t[..|t| - 1]), t[|t| - 1];
      HandlersAreConserved(h, p, t[..|t| - 1]);
      RunsAreDisciplined(p, t[..|t| - 1]);
      DisciplineGivesRange(p, s);
      StepConserves(h, p, s, e);
      DueGrows(h, p, s, e);
    }
  }

  // ---------------------------------------------------------------------- what follows

  /** Every handler was submitted once, as the service asks of its users. */
  predicate Fresh(s: State) {
    && Handshake !in s.book.submitted
    && forall i, j :: 0 <= i < j < |s.book.submitted| ==> s.book.submitted[i] != s.book.submitted[j]
  }

  lemma {:induction false} AtMostOnce(h: Handler, hs: seq<Handler>)
    requires forall i, j :: 0 <= i < j < |hs| ==> hs[i] != hs[j]
    ensures Times(h, hs) == If(h in hs)
  {
    if hs != [] {
      AtMostOnce(h, hs[1..]);
      assert hs == [hs[0]] + hs[1..];
    }
  }

  lemma TimesOfMember(h: Handler, hs: seq<Handler>, i: nat)
    requires i < |hs| && hs[i] == h
    ensures Times(h, hs) >= 1
  {
    assert h in hs;
  }

  lemma TimesOfTwo(h: Handler, hs: seq<Handler>, i: nat, j: nat)
    requires i < j < |hs| && hs[i] == hs[j] == h
    ensures Times(h, hs) >= 2
  {
    assert hs == hs[..j] + hs[j..];
    TimesOfMember(h, hs[..j], i);
    TimesOfMember(h, hs[j..], 0);
  }

  lemma NobodyQueued(h: Handler, rs: seq<Request>)
    ensures Times(h, Handlers(rs)) == 0 <==> forall r <- rs :: r.handler != h
  {
    if r :| r in rs && r.handler == h {
      var i :| 0 <= i < |rs| && rs[i] == r;
      TimesOfMember(h, Handlers(rs), i);
    }
    if Times(h, Handlers(rs)) != 0 {
      var i :| 0 <= i < |rs| && Handlers(rs)[i] == h;
      assert rs[i] in rs;
    }
  }

  /** Everybody is due at most once. */
  lemma DueOnce(h: Handler, s: State)
    requires Fresh(s)
    ensures Due(h, s) == If(h == Handshake || h in s.book.submitted)
  {
    AtMostOnce(h, s.book.submitted);
  }

  /** In every run no handler is called twice. */
  lemma CalledAtMostOnce(p: Protocol, t: seq<Event>, i: nat, j: nat)
    requires IsRun(p, t) && Fresh(Replay(p, t))
    requires i < j < |Replay(p, t).book.calls|
    ensures Replay(p, t).book.calls[i].handler != Replay(p, t).book.calls[j].handler
  {
    var s := Replay(p, t);
    var h := s.book.calls[i].handler;
    if h == s.book.calls[j].handler {
      HandlersAreConserved(h, p, t);
      DueOnce(h, s);
      TimesOfTwo(h, Callees(s.book.calls), i, j);
    }
  }

  predicate Grows(a: Ledger, b: Ledger) {
    a.removed <= b.removed && a.calls <= b.calls && a.submitted <= b.submitted
  }

  lemma StepGrowsBook(p: Protocol, s: State, e: Event)
    requires Enabled(p, s, e)
    ensures Grows(s.book, Next(p, s, e).book)
  {}

  /** Removals and calls are never taken back. */
  lemma {:induction false} BookOnlyGrows(p: Protocol, t: seq<Event>, n: nat)
    requires IsRun(p, t) && n <= |t|
    ensures Grows(Replay(p, t[..n]).book, Replay(p, t).book)
  {
    if n == |t| {
      assert t[..n] == t;
    } else {
      BookOnlyGrows(p, t[..|t| - 1], n);
      assert t[..|t| - 1][..n] == t[..n];
      StepGrowsBook(p, Replay(p, t[..|t| - 1]), t[|t| - 1]);
    }
  }

  predicate WasCalled(h: Handler, s: State) {
    exists c <- s.book.calls :: c.handler == h
  }

  lemma CountedMeansCalled(h: Handler, s: State)
    ensures Times(h, Callees(s.book.calls)) > 0 <==> WasCalled(h, s)
  {
    if Times(h, Callees(s.book.calls)) > 0 {
      var i :| 0 <= i < |s.book.calls| && Callees(s.book.calls)[i] == h;
      assert s.book.calls[i] in s.book.calls;
    }
    if c :| c in s.book.calls && c.handler == h {
      var i :| 0 <= i < |s.book.calls| && s.book.calls[i] == c;
      TimesOfMember(h, Callees(s.book.calls), i);
    }
  }

  /** A handler that was removed is never called, neither before nor in any continuation of the run. */
  lemma RemovedStaysSilent(p: Protocol, t: seq<Event>, n: nat, h: Handler)
    requires IsRun(p, t) && Fresh(Replay(p, t)) && n <= |t|
    requires h in Replay(p, t[..n]).book.removed
    ensures !WasCalled(h, Replay(p, t))
  {
    var s := Replay(p, t);
    BookOnlyGrows(p, t, n);
    HandlersAreConserved(h, p, t);
    DueOnce(h, s);
    CountedMeansCalled(h, s);
    assert h in s.book.removed;
  }

  /** The handler's request is being written. */
  predicate InFlightFor(h: Handler, s: State) {
    s.tx.inFlight.Some? && s.tx.inFlight.value.handler == h
  }

  /**
   * Completeness.  Once nothing is queued and nothing waits, every handler ever submitted has been removed
   * or called, and not both, except the one that is in flight, if there is one, which has been neither.
   */
  lemma DrainedMeansSettled(p: Protocol, t: seq<Event>, h: Handler)
    requires IsRun(p, t) && Fresh(Replay(p, t))
    requires Replay(p, t).tx.queue == [] && Replay(p, t).rx.awaiting == map[]
    requires h in Replay(p, t).book.submitted
    ensures var s := Replay(p, t);
      if InFlightFor(h, s) then !WasCalled(h, s) && h !in s.book.removed
      else WasCalled(h, s) <==> h !in s.book.removed
  {
    var s := Replay(p, t);
    HandlersAreConserved(h, p, t);
    DueOnce(h, s);
    CountedMeansCalled(h, s);
    WaitingNone(h, s.tx.nextSequence);
    assert Handlers([]) == [];
    assert Times(h, s.book.removed) > 0 <==> h in s.book.removed;
  }

  /** Shutting down settles every handler if and only if no request is being written at that moment. */
  lemma ShutdownIsCompleteIff(p: Protocol, t: seq<Event>)
    requires IsRun(p, t) && Fresh(Replay(p, t)) && Replay(p, t).keyed
    requires Replay(p, t).tx.queue == [] && Replay(p, t).rx.awaiting == map[]
    ensures var s := Replay(p, t);
      (forall h <- s.book.submitted :: WasCalled(h, s) || h in s.book.removed) <==> s.tx.inFlight.None?
  {
    hide WasCalled, IsRun, Replay;
    var s := Replay(p, t);
    forall h <- s.book.submitted
      ensures WasCalled(h, s) || h in s.book.removed <==> !InFlightFor(h, s)
    {
      DrainedMeansSettled(p, t, h);
    }
    if s.tx.inFlight.Some? {
      RunsAreNumbered(p, t);
      assert Line(s.tx)[|s.tx.wire|] == s.tx.inFlight.value;
      assert NumberedRequest(s.book.submitted, s.tx.inFlight.value);
      assert s.tx.inFlight.value.handler in s.book.submitted;
    }
  }

  /** A handler that has been called is nowhere in the pipeline any more. */
  lemma CalledMeansGone(p: Protocol, t: seq<Event>, h: Handler)
    requires IsRun(p, t) && Fresh(Replay(p, t)) && WasCalled(h, Replay(p, t))
    ensures var s := Replay(p, t);
      && (forall r <- s.tx.queue :: r.handler != h)
      && (s.tx.inFlight.Some? ==> s.tx.inFlight.value.handler != h)
      && (forall q <- s.rx.awaiting :: s.rx.awaiting[q].handler != h)
      && h !in s.book.removed
  {
    var s := Replay(p, t);
    HandlersAreConserved(h, p, t);
    DueOnce(h, s);
    CountedMeansCalled(h, s);
    RunsAreDisciplined(p, t);
    DisciplineGivesRange(p, s);
    NobodyQueued(h, s.tx.queue);
    forall q <- s.rx.awaiting ensures s.rx.awaiting[q].handler != h {
      WaitingRemove(h, s.rx.awaiting, q, s.tx.nextSequence);
    }
  }

  /** A handler that was submitted and is in no place of the pipeline has been called or removed. */
  lemma GoneMeansSettled(p: Protocol, t: seq<Event>, h: Handler)
    requires IsRun(p, t) && h in Replay(p, t).book.submitted
    requires var s := Replay(p, t);
      && (forall r <- InFlight(s.tx) + s.tx.queue :: r.handler != h)
      && (forall q <- s.rx.awaiting :: s.rx.awaiting[q].handler != h)
    ensures WasCalled(h, Replay(p, t)) || h in Replay(p, t).book.removed
  {
    var s := Replay(p, t);
    HandlersAreConserved(h, p, t);
    CountedMeansCalled(h, s);
    WaitingAgree(h, s.rx.awaiting, map[], s.tx.nextSequence);
    WaitingNone(h, s.tx.nextSequence);
    forall r <- s.tx.queue ensures r.handler != h {
      assert r in InFlight(s.tx) + s.tx.queue;
    }
    NobodyQueued(h, s.tx.queue);
    if s.tx.inFlight.Some? {
      assert s.tx.inFlight.value in InFlight(s.tx) + s.tx.queue;
    }
  }

  /** As long as nothing has been submitted, only the handshake's handler can be called. */
  lemma OnlyHandshakeCalled(p: Protocol, t: seq<Event>, i: nat)
    requires IsRun(p, t) && Replay(p, t).book.submitted == [] && i < |Replay(p, t).book.calls|
    ensures Replay(p, t).book.calls[i].handler == Handshake
  {
    var calls := Replay(p, t).book.calls;
    HandlersAreConserved(calls[i].handler, p, t);
    TimesOfMember(calls[i].handler, Callees(calls), i);
  }

  /** As long as nothing has been submitted, the handshake's handler either waits, alone, or has been called. */
  lemma BeforeFirstSubmission(p: Protocol, t: seq<Event>)
    requires IsRun(p, t)
    requires var s := Replay(p, t); s.tx == INITIAL.tx && s.book.submitted == [] && s.book.removed == []
    ensures var s := Replay(p, t);
      && (s.rx.awaiting == map[] <==> WasCalled(Handshake, s))
      && (WasCalled(Handshake, s) <==> |s.book.calls| == 1) && |s.book.calls| <= 1
  {
    hide IsRun, Replay;
    var s := Replay(p, t);
    RunsAreDisciplined(p, t);
    DisciplineGivesRange(p, s);
    assert Handlers([]) == [];
    if |s.book.calls| >= 2 {
      OnlyHandshakeCalled(p, t, 0);
      OnlyHandshakeCalled(p, t, 1);
      CalledAtMostOnce(p, t, 0, 1);
    }
    if |s.book.calls| == 1 {
      OnlyHandshakeCalled(p, t, 0);
      assert s.book.calls[0] in s.book.calls;
    }
    HandlersAreConserved(Handshake, p, t);
    CountedMeansCalled(Handshake, s);
    if HANDSHAKE_SEQUENCE in s.rx.awaiting {
      assert Accounted(s.tx.wire, HANDSHAKE_SEQUENCE, s.rx.awaiting[HANDSHAKE_SEQUENCE]);
    } else {
      assert forall q :: q !in s.rx.awaiting;
    }
  }

  // ---------------------------------------------------------------------- the request that is being written

  /** The packet with which a drive completes the handshake. */
  predicate Greeting(p: Protocol, packet: Packet) {
    && p.parseMessage(packet.message).Some?
    && var m := MeaningOf(p, packet);
    m.Acknowledged? && m.sequence == HANDSHAKE_SEQUENCE && m.command.status.Success?
  }

  /** A new connection on which one request is being written. */
  function FirstRequest(greeting: Packet, message: Message, command: Command, value: bytes): seq<Event> {
    [Reply(greeting), Accept(0, User(0), message, command, value), Start]
  }

  lemma FirstRequestIsInFlight(p: Protocol, greeting: Packet, message: Message, command: Command, value: bytes)
    requires Greeting(p, greeting)
    ensures var t := FirstRequest(greeting, message, command, value);
      && IsRun(p, t)
      && var s := Replay(p, t);
      && s.tx.queue == [] && s.tx.inFlight.Some? && s.tx.inFlight.value.handler == User(0)
      && s.tx.inFlight.value.key == 0
      && s.rx.awaiting == map[] && s.rx.sequenceOf == map[] && s.keyed && !s.failed
      && s.book.submitted == [User(0)] && s.book.removed == [] && !WasCalled(User(0), s)
  {
    var e, a := Reply(greeting), Accept(0, User(0), message, command, value);
    RunSnoc(p, [], e);
    RunSnoc(p, [e], a);
    RunSnoc(p, [e, a], Start);
    assert [] + [e] == [e] && [e] + [a] == [e, a];
    assert [e, a] + [Start] == FirstRequest(greeting, message, command, value);
  }

  /**
   * A connection that is shut down while its only request is being written: nothing is queued and nothing
   * waits, and yet that handler has been neither called nor removed.
   */
  lemma InFlightIsForgotten(p: Protocol, greeting: Packet, message: Message, command: Command, value: bytes)
    requires Greeting(p, greeting)
    ensures var t := FirstRequest(greeting, message, command, value) + [Close];
      && IsRun(p, t)
      && var s := Replay(p, t);
      && Fresh(s) && s.keyed && s.tx.queue == [] && s.rx.awaiting == map[]
      && User(0) in s.book.submitted && !WasCalled(User(0), s) && User(0) !in s.book.removed
  {
    FirstRequestIsInFlight(p, greeting, message, command, value);
    RunSnoc(p, FirstRequest(greeting, message, command, value), Close);
  }

  /**
   * A handler that is called after its request could no longer be removed: while the request is being
   * written its key is neither queued nor waiting, and then the write fails.
   */
  lemma InFlightIsCalledLater(p: Protocol, greeting: Packet, message: Message, command: Command, value: bytes)
    requires Greeting(p, greeting)
    ensures var t := FirstRequest(greeting, message, command, value);
      && IsRun(p, t + [WriteError])
      && var s, s' := Replay(p, t), Replay(p, t + [WriteError]);
      && s.keyed && Fresh(s') && s.tx.queue == [] && 0 !in s.rx.sequenceOf && User(0) in s.book.submitted
      && !WasCalled(User(0), s)
      && s'.book.calls == s.book.calls + [Call(User(0), Error(WriteFailed, None))]
  {
    FirstRequestIsInFlight(p, greeting, message, command, value);
    RunSnoc(p, FirstRequest(greeting, message, command, value), WriteError);
  }

  /** The handler was submitted, and its request is neither queued nor waiting. */
  predicate Withdrawn(h: Handler, s: State) {
    && h in s.book.submitted
    && (forall r <- s.tx.queue :: r.handler != h)
    && (forall q <- s.rx.awaiting :: s.rx.awaiting[q].handler != h)
  }

  /** The event is a call of a handler that had not been called before. */
  predicate Calls(p: Protocol, s: State, e: Event, h: Handler) {
    Enabled(p, s, e) && Fresh(Next(p, s, e)) && !WasCalled(h, s) && WasCalled(h, Next(p, s, e))
  }

  /**
   * Once its request is neither queued nor waiting, a handler that was not called by then is never called, in
   * any continuation, unless its request was being written.
   */
  lemma WithdrawnStaysSilent(p: Protocol, t: seq<Event>, u: seq<Event>, h: Handler)
    requires IsRun(p, t + u) && Fresh(Replay(p, t + u))
    requires Withdrawn(h, Replay(p, t)) && !InFlightFor(h, Replay(p, t)) && !WasCalled(h, Replay(p, t))
    ensures !WasCalled(h, Replay(p, t + u))
  {
    hide Replay, IsRun, WasCalled, Fresh;
    RunPrefix(p, t + u, |t|);
    assert (t + u)[..|t|] == t;
    GoneMeansSettled(p, t, h);
    RemovedStaysSilent(p, t + u, |t|, h);
  }

  /** Once the service has failed, it stays so, and the request that was being written stays where it is. */
  lemma {:induction false} FailedKeepsInFlight(p: Protocol, t: seq<Event>, u: seq<Event>)
    requires IsRun(p, t + u) && Replay(p, t).failed
    ensures Replay(p, t + u).failed && Replay(p, t + u).tx.inFlight == Replay(p, t).tx.inFlight
  {
    if u == [] {
      assert t + u == t;
    } else {
      var n := |u| - 1;
      assert (t + u)[..|t + u| - 1] == t + u[..n];
      FailedKeepsInFlight(p, t, u[..n]);
    }
  }

  /** Once the service has failed, the handler of the request that was being written is never called. */
  lemma FailedStaysSilent(p: Protocol, t: seq<Event>, u: seq<Event>, h: Handler)
    requires IsRun(p, t + u) && Fresh(Replay(p, t + u))
    requires Replay(p, t).failed && InFlightFor(h, Replay(p, t))
    ensures !WasCalled(h, Replay(p, t + u))
  {
    hide Replay, IsRun, WasCalled, Fresh;
    FailedKeepsInFlight(p, t, u);
    if WasCalled(h, Replay(p, t + u)) {
      CalledMeansGone(p, t + u, h);
    }
  }

  /** The handler's request is being written, and the service has not failed. */
  predicate StillWriting(h: Handler, s: State) {
    InFlightFor(h, s) && !s.failed
  }

  lemma NotWritingStaysSilent(p: Protocol, t: seq<Event>, u: seq<Event>, h: Handler)
    requires IsRun(p, t + u) && Fresh(Replay(p, t + u))
    requires Withdrawn(h, Replay(p, t)) && !StillWriting(h, Replay(p, t)) && !WasCalled(h, Replay(p, t))
    ensures !WasCalled(h, Replay(p, t + u))
  {
    hide Replay, IsRun, WasCalled, Fresh;
    if InFlightFor(h, Replay(p, t)) {
      FailedStaysSilent(p, t, u, h);
    } else {
      WithdrawnStaysSilent(p, t, u, h);
    }
  }

  /**
   * A handler whose request is neither queued nor waiting can be called by the next event if and only if its
   * request is being written and the service has not failed.
   */
  lemma MayStillBeCalledIff(p: Protocol, t: seq<Event>, h: Handler)
    requires IsRun(p, t) && Fresh(Replay(p, t)) && Withdrawn(h, Replay(p, t))
    ensures StillWriting(h, Replay(p, t)) <==> exists e :: Calls(p, Replay(p, t), e, h)
  {
    var s := Replay(p, t);
    if StillWriting(h, s) {
      WriteErrorCalls(p, t, h);
    }
    if e :| Calls(p, s, e, h) {
      RunSnoc(p, t, e);
      if !StillWriting(h, s) {
        NotWritingStaysSilent(p, t, [e], h);
      }
    }
  }

  lemma WriteErrorCalls(p: Protocol, t: seq<Event>, h: Handler)
    requires IsRun(p, t) && Fresh(Replay(p, t)) && StillWriting(h, Replay(p, t))
    ensures Calls(p, Replay(p, t), WriteError, h)
  {
    hide IsRun, Replay;
    var s := Replay(p, t);
    if WasCalled(h, s) {
      CalledMeansGone(p, t, h);
    }
    assert Call(h, Error(WriteFailed, None)) in Next(p, s, WriteError).book.calls;
  }

  /** After the error the handler has been called, whatever else happens. */
  lemma WriteErrorWasCalled(p: Protocol, t: seq<Event>, u: seq<Event>)
    requires IsRun(p, u) && t + [WriteError] <= u && Replay(p, t).tx.inFlight.Some?
    ensures WasCalled(Replay(p, t).tx.inFlight.value.handler, Replay(p, u))
  {
    var n := |t| + 1;
    assert u[..n] == t + [WriteError] && u[..n][..|t|] == t;
    RunPrefix(p, u, n);
    BookOnlyGrows(p, u, n);
    var s := Replay(p, t);
    var c := Call(s.tx.inFlight.value.handler, Error(WriteFailed, None));
    assert c in Replay(p, u[..n]).book.calls;
    assert c in Replay(p, u).book.calls;
  }

  /** And it can be called in some continuation under the same condition. */
  lemma MayEverBeCalledIff(p: Protocol, t: seq<Event>, h: Handler)
    requires IsRun(p, t) && Fresh(Replay(p, t)) && Withdrawn(h, Replay(p, t)) && !WasCalled(h, Replay(p, t))
    ensures StillWriting(h, Replay(p, t)) <==>
      exists u :: IsRun(p, t + u) && Fresh(Replay(p, t + u)) && WasCalled(h, Replay(p, t + u))
  {
    if StillWriting(h, Replay(p, t)) {
      WriteErrorCalls(p, t, h);
      RunSnoc(p, t, WriteError);
    }
    if u :| IsRun(p, t + u) && Fresh(Replay(p, t + u)) && WasCalled(h, Replay(p, t + u)) {
      if !StillWriting(h, Replay(p, t)) {
        NotWritingStaysSilent(p, t, u, h);
      }
    }
  }
}
