/** What every step of the pipeline keeps: the receiver's tables, the order of requests, and their keys. */
module PipelineInvariants {
  import opened Bytes
  import opened Hmac
  import opened Messages
  import opened Pipeline
  import opened Wrappers

  // ---------------------------------------------------------------------- the two tables

  /** The receiver's two tables are each other's inverse. */
  predicate Inverse(rx: Inbound) {
    && (forall q <- rx.awaiting :: rx.awaiting[q].key in rx.sequenceOf && rx.sequenceOf[rx.awaiting[q].key] == q)
    && (forall k <- rx.sequenceOf :: rx.sequenceOf[k] in rx.awaiting && rx.awaiting[rx.sequenceOf[k]].key == k)
  }

  lemma AwaitKeepsInverse(rx: Inbound, q: int, e: Entry)
    requires Inverse(rx) && HasRoom(rx, q, e.key)
    ensures Inverse(Await(rx, q, e))
  {}

  lemma LeaveKeepsInverse(rx: Inbound, q: int)
    requires Inverse(rx) && q in rx.awaiting
    ensures Inverse(Leave(rx, q))
  {}

  lemma StepKeepsInverse(p: Protocol, s: State, e: Event)
    requires Inverse(s.rx) && Enabled(p, s, e)
    ensures Inverse(Next(p, s, e).rx)
  {
    match e
    case Finish =>
      var r := s.tx.inFlight.value;
      if HasRoom(s.rx, r.sequence, r.key) {
        AwaitKeepsInverse(s.rx, r.sequence, Entry(r.handler, r.key));
      }
    case Reply(packet) =>
      var m := MeaningOf(p, packet);
      if m.Acknowledged? && m.sequence in s.rx.awaiting {
        LeaveKeepsInverse(Connected(s.rx.(replies := s.rx.replies + [packet]), m.command), m.sequence);
      }
    case Fail(q, _) => LeaveKeepsInverse(s.rx, q);
    case RemoveAwaiting(k) => LeaveKeepsInverse(s.rx, s.rx.sequenceOf[k]);
    case _ =>
  }

  /** In every reachable state the two tables are mutually inverse. */
  lemma {:induction false} TablesStayInverse(p: Protocol, t: seq<Event>)
    requires IsRun(p, t)
    ensures Inverse(Replay(p, t).rx)
  {
    if t != [] {
      TablesStayInverse(p, t[..|t| - 1]);
      StepKeepsInverse(p, Replay(p, t[..|t| - 1]), t[|t| - 1]);
    }
  }

  // ---------------------------------------------------------------------- sequence discipline

  /** All requests that have not been cut short, in the order of their sequence numbers. */
  function Line(tx: Outbound): seq<Request> {
    tx.wire + InFlight(tx) + tx.queue
  }

  function InFlight(tx: Outbound): seq<Request> {
    if tx.inFlight.Some? then [tx.inFlight.value] else []
  }

  predicate Increasing(rs: seq<Request>) {
    forall i, j :: 0 <= i < j < |rs| ==> rs[i].sequence < rs[j].sequence
  }

  /** The request was sealed with the sequence number it is filed under. */
  predicate Sealed(p: Protocol, r: Request) {
    && r.command.sequence == Some(r.sequence)
    && r.message.commandBytes == p.serializeCommand(r.command)
    && (r.message.authType.HmacAuthenticated? ==> Authentic(p, r.message))
  }

  /**
   * The request is what was submitted, under a number and a connection id: nothing else in the command, the
   * message or the value has changed, but for the digest of an authenticated message.
   */
  predicate Carries(p: Protocol, r: Request, e: Event, connectionId: int)
    requires e.Accept?
  {
    && r.key == e.key && r.handler == e.handler && r.value == e.value
    && r.command.sequence == Some(r.sequence) && r.command.connectionId == Some(connectionId)
    && r.command.ackSequence == e.command.ackSequence && r.command.clusterVersion == e.command.clusterVersion
    && r.command.status == e.command.status && r.command.body == e.command.body
    && r.message.commandBytes == p.serializeCommand(r.command)
    && r.message.authType == e.message.authType && r.message.pin == e.message.pin
    && (if e.message.authType.HmacAuthenticated? then
          r.message.hmacAuth.Some? && r.message.hmacAuth.value.identity == p.userId && Authentic(p, r.message)
        else r.message.hmacAuth == e.message.hmacAuth)
  }

  /** An entry that waits is the handshake's or that of a request on the wire. */
  predicate Accounted(wire: seq<Request>, q: int, e: Entry) {
    || (q == HANDSHAKE_SEQUENCE && e == Entry(Handshake, HANDSHAKE_KEY))
    || exists r <- wire :: r.sequence == q && Entry(r.handler, r.key) == e
  }

  predicate Disciplined(p: Protocol, s: State) {
    && Increasing(Line(s.tx))
    && (forall r <- Line(s.tx) :: 0 <= r.sequence < s.tx.nextSequence && Sealed(p, r))
    && (forall q <- s.rx.awaiting :: Accounted(s.tx.wire, q, s.rx.awaiting[q]))
  }

  /** What a step does to the line: one request joins at the end, one leaves, or nothing. */
  datatype Move = Stay | Join(r: Request) | Cut(i: nat)

  function MoveOf(p: Protocol, s: State, e: Event): Move {
    match e
    case Accept(_, _, _, _, _) => Join(NewRequest(p, s, e))
    case WriteError => Cut(|s.tx.wire|)
    case Drain(_) => Cut(|s.tx.wire| + |InFlight(s.tx)|)
    case RemoveQueued(k) => Cut(|s.tx.wire| + |InFlight(s.tx)| + k)
    case _ => Stay
  }

  function Moved(line: seq<Request>, m: Move): seq<Request> {
    match m
    case Stay => line
    case Join(r) => line + [r]
    case Cut(i) => if i < |line| then Without(line, i) else line
  }

  lemma PushMovesLine(tx: Outbound, r: Request)
    ensures Line(Push(tx, r)) == Line(tx) + [r]
  {
    Associate(tx.wire + InFlight(tx), tx.queue, [r]);
  }

  lemma BeginMovesLine(tx: Outbound)
    requires tx.inFlight.None? && tx.queue != []
    ensures Line(Begin(tx)) == Line(tx)
  {
    assert tx.queue == [tx.queue[0]] + tx.queue[1..];
    Associate(tx.wire, [tx.queue[0]], tx.queue[1..]);
    assert tx.wire + [] == tx.wire;
  }

  lemma CutInFlight(tx: Outbound)
    requires tx.inFlight.Some?
    ensures |tx.wire| < |Line(tx)|
    ensures Line(tx.(inFlight := None)) == Without(Line(tx), |tx.wire|)
  {
    Associate(tx.wire, [tx.inFlight.value], tx.queue);
    CutAfter(tx.wire, [tx.inFlight.value] + tx.queue, 0);
    assert Without([tx.inFlight.value] + tx.queue, 0) == tx.queue;
    assert tx.wire + [] == tx.wire;
  }

  lemma CutAfter<T>(a: seq<T>, b: seq<T>, k: nat)
    requires k < |b|
    ensures Without(a + b, |a| + k) == a + Without(b, k)
  {}

  lemma StepMovesLine(p: Protocol, s: State, e: Event)
    requires Enabled(p, s, e)
    ensures Line(Next(p, s, e).tx) == Moved(Line(s.tx), MoveOf(p, s, e))
  {
    hide Line, Without;
    match e
    case Accept(_, _, _, _, _) => PushMovesLine(s.tx, NewRequest(p, s, e));
    case Start => BeginMovesLine(s.tx);
    case Finish => CompleteMovesLine(s.tx);
    case WriteError => CutInFlight(s.tx);
    case Drain(_) => CutQueued(s.tx, 0);
    case RemoveQueued(k) => CutQueued(s.tx, k);
    case _ =>
  }

  lemma CompleteMovesLine(tx: Outbound)
    requires tx.inFlight.Some?
    ensures Line(Complete(tx, tx.inFlight.value)) == Line(tx)
  {
    var w := tx.wire + [tx.inFlight.value];
    assert w + [] == w;
  }

  lemma CutQueued(tx: Outbound, k: nat)
    requires k < |tx.queue|
    ensures |tx.wire| + |InFlight(tx)| + k < |Line(tx)|
    ensures Line(tx.(queue := Without(tx.queue, k))) == Without(Line(tx), |tx.wire| + |InFlight(tx)| + k)
    ensures k == 0 ==> Without(tx.queue, k) == tx.queue[1..]
  {
    CutAfter(tx.wire + InFlight(tx), tx.queue, k);
  }

  lemma MoveKeepsOrder(p: Protocol, line: seq<Request>, bound: nat, m: Move)
    requires Increasing(line)
    requires forall r <- line :: 0 <= r.sequence < bound && Sealed(p, r)
    requires m.Join? ==> m.r.sequence == bound && Sealed(p, m.r)
    ensures Increasing(Moved(line, m))
    ensures forall r <- Moved(line, m) :: 0 <= r.sequence < bound + (if m.Join? then 1 else 0) && Sealed(p, r)
  {}

  lemma StepKeepsDiscipline(p: Protocol, s: State, e: Event)
    requires Disciplined(p, s) && Enabled(p, s, e)
    ensures Disciplined(p, Next(p, s, e))
  {
    var s' := Next(p, s, e);
    StepMovesLine(p, s, e);
    MoveKeepsOrder(p, Line(s.tx), s.tx.nextSequence, MoveOf(p, s, e));
    assert s.tx.wire <= s'.tx.wire;
    forall q <- s'.rx.awaiting ensures Accounted(s'.tx.wire, q, s'.rx.awaiting[q]) {
      if q in s.rx.awaiting && s'.rx.awaiting[q] == s.rx.awaiting[q] {
        assert Accounted(s.tx.wire, q, s.rx.awaiting[q]);
      } else {
        assert s'.tx.wire[|s.tx.wire|] == s.tx.inFlight.value;
      }
    }
  }

  /** In every run the line is in order and sealed; in particular wire sequences strictly increase. */
  lemma {:induction false} RunsAreDisciplined(p: Protocol, t: seq<Event>)
    requires IsRun(p, t)
    ensures Disciplined(p, Replay(p, t))
  {
    if t != [] {
      RunsAreDisciplined(p, t[..|t| - 1]);
      StepKeepsDiscipline(p, Replay(p, t[..|t| - 1]), t[|t| - 1]);
    }
  }

  // ---------------------------------------------------------------------- keys

  /** Under the service, keys are sequence numbers and both number the submissions. */
  predicate Numbered(s: State) {
    && s.tx.nextSequence <= |s.book.submitted|
    && (!s.failed ==> s.tx.nextSequence == |s.book.submitted|)
    && (forall r <- Line(s.tx) :: NumberedRequest(s.book.submitted, r))
  }

  predicate NumberedRequest(submitted: seq<Handler>, r: Request) {
    r.key == r.sequence && 0 <= r.sequence < |submitted| && submitted[r.sequence] == r.handler
  }

  lemma StepKeepsNumbers(p: Protocol, s: State, e: Event)
    requires s.keyed ==> Numbered(s)
    requires Enabled(p, s, e)
    ensures Next(p, s, e).keyed ==> Numbered(Next(p, s, e))
  {
    var s' := Next(p, s, e);
    if s'.keyed {
      StepMovesLine(p, s, e);
      assert s.book.submitted <= s'.book.submitted;
      forall r <- Line(s'.tx) ensures NumberedRequest(s'.book.submitted, r) {
        assert r in Line(s.tx) ==> NumberedRequest(s.book.submitted, r);
      }
    }
  }

  /** In every run of the service, keys are sequence numbers, and `submitted` is indexed by both. */
  lemma {:induction false} RunsAreNumbered(p: Protocol, t: seq<Event>)
    requires IsRun(p, t)
    ensures Replay(p, t).keyed ==> Numbered(Replay(p, t))
  {
    if t != [] {
      RunsAreNumbered(p, t[..|t| - 1]);
      StepKeepsNumbers(p, Replay(p, t[..|t| - 1]), t[|t| - 1]);
    }
  }

  /** Under the service, the key of an entry that waits is its sequence number. */
  lemma WaitingKeys(p: Protocol, s: State, q: int)
    requires Disciplined(p, s) && Numbered(s) && Inverse(s.rx) && q in s.rx.awaiting
    ensures s.rx.awaiting[q].key == q
    ensures q != HANDSHAKE_SEQUENCE ==> 0 <= q < |s.book.submitted| && s.book.submitted[q] == s.rx.awaiting[q].handler
  {
    assert Accounted(s.tx.wire, q, s.rx.awaiting[q]);
    if r :| r in s.tx.wire && r.sequence == q && Entry(r.handler, r.key) == s.rx.awaiting[q] {
      assert r in Line(s.tx);
    }
  }

  /**
   * What waits comes before what is in flight, which comes before what is queued: no two places of the
   * pipeline ever hold the same sequence number.
   */
  lemma PlacesAreOrdered(p: Protocol, s: State)
    requires Disciplined(p, s)
    ensures forall q, r :: q in s.rx.awaiting && r in InFlight(s.tx) + s.tx.queue ==> q < r.sequence
    ensures forall w, r :: w in s.tx.wire && r in InFlight(s.tx) + s.tx.queue ==> w.sequence < r.sequence
    ensures forall f, r :: f in InFlight(s.tx) && r in s.tx.queue ==> f.sequence < r.sequence
    ensures Increasing(s.tx.wire) && Increasing(s.tx.queue)
  {
    var w, f, u := s.tx.wire, InFlight(s.tx), s.tx.queue;
    Associate(w, f, u);
    IncreasingSplit(w, f + u);
    IncreasingSplit(f, u);
    forall q, r: Request | q in s.rx.awaiting && r in f + u ensures q < r.sequence {
      assert r in w + (f + u);
      assert Accounted(w, q, s.rx.awaiting[q]);
    }
  }

  lemma IncreasingSplit(a: seq<Request>, b: seq<Request>)
    requires Increasing(a + b)
    ensures Increasing(a) && Increasing(b)
    ensures forall x, y :: x in a && y in b ==> x.sequence < y.sequence
  {
    var c := a + b;
    forall i, j | 0 <= i < j < |b| ensures b[i].sequence < b[j].sequence {
      assert c[|a| + i] == b[i] && c[|a| + j] == b[j];
    }
    forall i, j | 0 <= i < j < |a| ensures a[i].sequence < a[j].sequence {
      assert c[i] == a[i] && c[j] == a[j];
    }
    forall x: Request, y: Request | x in a && y in b ensures x.sequence < y.sequence {
      var i :| 0 <= i < |a| && a[i] == x;
      var j :| 0 <= j < |b| && b[j] == y;
      assert c[i] == x && c[|a| + j] == y;
    }
  }

  /** Under the service the receiver always has room for the request in flight. */
  lemma RejectionUnreachable(p: Protocol, t: seq<Event>)
    requires IsRun(p, t) && Replay(p, t).keyed && Replay(p, t).tx.inFlight.Some?
    ensures var s := Replay(p, t); HasRoom(s.rx, s.tx.inFlight.value.sequence, s.tx.inFlight.value.key)
  {
    var s := Replay(p, t);
    var r := s.tx.inFlight.value;
    TablesStayInverse(p, t);
    RunsAreDisciplined(p, t);
    RunsAreNumbered(p, t);
    PlacesAreOrdered(p, s);
    assert r in InFlight(s.tx) + s.tx.queue && r in Line(s.tx);
    if r.key in s.rx.sequenceOf {
      WaitingKeys(p, s, s.rx.sequenceOf[r.key]);
    }
  }

  /** Under the service a key is in one place only: queued once, in flight, or waiting. */
  lemma KeyIsInOnePlace(p: Protocol, t: seq<Event>, key: int)
    requires IsRun(p, t) && Replay(p, t).keyed
    ensures var s := Replay(p, t);
      && (key in s.rx.sequenceOf ==> forall r <- InFlight(s.tx) + s.tx.queue :: r.key != key)
      && (forall f <- InFlight(s.tx) :: f.key == key ==> forall r <- s.tx.queue :: r.key != key)
      && (forall i, j :: 0 <= i < j < |s.tx.queue| ==> s.tx.queue[i].key != s.tx.queue[j].key)
  {
    var s := Replay(p, t);
    TablesStayInverse(p, t);
    RunsAreDisciplined(p, t);
    RunsAreNumbered(p, t);
    PlacesAreOrdered(p, s);
    forall r <- InFlight(s.tx) + s.tx.queue ensures r.key == r.sequence {
      assert r in Line(s.tx);
    }
    forall r <- s.tx.queue ensures r.key == r.sequence {
      assert r in InFlight(s.tx) + s.tx.queue;
    }
    forall r <- InFlight(s.tx) ensures r.key == r.sequence {
      assert r in InFlight(s.tx) + s.tx.queue;
    }
    if key in s.rx.sequenceOf {
      WaitingKeys(p, s, s.rx.sequenceOf[key]);
    }
  }

  /** Under the service a key leads to the handler of the submission that it numbers. */
  lemma KeysFindHandlers(p: Protocol, t: seq<Event>, key: int)
    requires IsRun(p, t) && Replay(p, t).keyed
    ensures var s := Replay(p, t);
      && (forall r <- InFlight(s.tx) + s.tx.queue :: NumberedRequest(s.book.submitted, r))
      && (key in s.rx.sequenceOf && key != HANDSHAKE_KEY ==>
        && s.rx.sequenceOf[key] == key && key in s.rx.awaiting
        && 0 <= key < |s.book.submitted| && s.book.submitted[key] == s.rx.awaiting[key].handler)
  {
    var s := Replay(p, t);
    TablesStayInverse(p, t);
    RunsAreDisciplined(p, t);
    RunsAreNumbered(p, t);
    forall r <- InFlight(s.tx) + s.tx.queue ensures NumberedRequest(s.book.submitted, r) {
      assert r in Line(s.tx);
    }
    if key in s.rx.sequenceOf {
      WaitingKeys(p, s, s.rx.sequenceOf[key]);
    }
  }
}
