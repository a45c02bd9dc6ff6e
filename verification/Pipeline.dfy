/**
 * The request pipeline as a state machine: what the sender, the receiver and the service do to requests,
 * step by step, with the environment deciding which step comes next.  The classes that model those
 * components keep a trace of this machine and are proved to do nothing else.
 */
module Pipeline {
  import opened Bytes
  import opened Framing
  import opened Hmac
  import opened Messages
  import opened Wrappers

  // ---------------------------------------------------------------------- entities

  /** The identity of a handler object: the receiver's own, or one that a user submitted. */
  datatype Handler = Handshake | User(id: nat)

  datatype Failure =
    | WriteFailed
    | ReadFailed
    | CommandNotParsed
    | HmacMismatch
    | NoAckSequence
    | CouldNotEnqueue
    | SenderShutdown
    | ReceiverShutdown
    | AlreadyShutDown
    | Remote(code: int, clusterVersion: int)

  datatype Outcome = Handled(response: Command, value: bytes) | Error(failure: Failure, reply: Option<Command>)

  /** One invocation of a handler. */
  datatype Call = Call(handler: Handler, outcome: Outcome)

  datatype Request = Request(
    sequence: int, key: int, handler: Handler, command: Command, message: Message, value: bytes)

  /** An entry of the receiver's table of requests that wait for their response. */
  datatype Entry = Entry(handler: Handler, key: int)

  const HANDSHAKE_SEQUENCE := -1
  const HANDSHAKE_KEY := -1

  /** The sender: its queue, the request being written, its counter, and (in order) what it has written. */
  datatype Outbound = Outbound(queue: seq<Request>, inFlight: Option<Request>, nextSequence: nat, wire: seq<Request>)

  /** The receiver: its two tables, the connection id, and (in order) the packets it has read. */
  datatype Inbound = Inbound(
    awaiting: map<int, Entry>, sequenceOf: map<int, int>, connectionId: int, replies: seq<Packet>)

  /** What has become of the handlers. */
  datatype Ledger = Ledger(submitted: seq<Handler>, removed: seq<Handler>, calls: seq<Call>)

  /** The whole pipeline; `keyed` says that the key of every request is the number of its submission. */
  datatype State = State(tx: Outbound, rx: Inbound, book: Ledger, failed: bool, keyed: bool)

  const INITIAL := State(
    Outbound([], None, 0, []),
    Inbound(
      map[HANDSHAKE_SEQUENCE := Entry(Handshake, HANDSHAKE_KEY)], map[HANDSHAKE_KEY := HANDSHAKE_SEQUENCE], 0, []),
    Ledger([], [], []), false, true)

  datatype Event =
    | Accept(key: int, handler: Handler, message: Message, command: Command, value: bytes)
    | Refuse(refused: Handler)
    | Start
    | Finish
    | WriteError
    | Drain(failure: Failure)
    | Reply(packet: Packet)
    | Fail(sequence: int, failure: Failure)
    | RemoveQueued(index: nat)
    | RemoveAwaiting(key: int)
    | Close

  // ---------------------------------------------------------------------- messages

  /** The command as the sender completes it. */
  function Stamp(command: Command, connectionId: int, sequence: int): Command {
    command.(connectionId := Some(connectionId), sequence := Some(sequence))
  }

  /** The message as the sender completes it: command bytes, and a digest where one is asked for. */
  function Seal(p: Protocol, message: Message, command: Command): Message {
    var m := message.(commandBytes := p.serializeCommand(command));
    if m.authType.HmacAuthenticated? then m.(hmacAuth := Some(HmacAuth(p.userId, DigestOf(p, m)))) else m
  }

  /** What a received message is, as far as the receiver is concerned. */
  datatype Meaning = Forged | Garbled | Unacknowledged(command: Command) | Acknowledged(command: Command, sequence: int)

  function Interpret(p: Protocol, m: Message): Meaning {
    if m.hmacAuth.Some? && !Authentic(p, m) then Forged
    else match p.parseCommand(m.commandBytes)
      case None => Garbled
      case Some(c) =>
        var c' := if m.authType.UnsolicitedStatus? then c.(ackSequence := Some(HANDSHAKE_SEQUENCE)) else c;
        if c'.ackSequence.None? then Unacknowledged(c') else Acknowledged(c', c'.ackSequence.value)
  }

  function MeaningOf(p: Protocol, packet: Packet): Meaning
    requires p.parseMessage(packet.message).Some?
  {
    Interpret(p, p.parseMessage(packet.message).value)
  }

  function OutcomeOf(response: Command, value: bytes): Outcome {
    match response.status
    case Success => Handled(response, value)
    case Refused(code) => Error(Remote(code, response.clusterVersion), Some(response))
  }

  // ---------------------------------------------------------------------- steps

  predicate LastIs(p: Protocol, replies: seq<Packet>, test: Meaning -> bool) {
    && replies != []
    && var r := replies[|replies| - 1];
    p.parseMessage(r.message).Some? && test(MeaningOf(p, r))
  }

  /** Why the receiver may give up on everything that waits. */
  predicate Justified(p: Protocol, replies: seq<Packet>, f: Failure) {
    match f
    case ReadFailed => true
    case ReceiverShutdown => true
    case HmacMismatch => LastIs(p, replies, (m: Meaning) => m.Forged?)
    case CommandNotParsed => LastIs(p, replies, (m: Meaning) => m.Garbled?)
    case NoAckSequence => LastIs(p, replies, (m: Meaning) => m.Unacknowledged?)
    case _ => false
  }

  /**
   * What can happen next.  Once the service has failed nothing is written or read any more: what is left is
   * to refuse submissions, to remove requests, and to shut down.
   */
  predicate Enabled(p: Protocol, s: State, e: Event) {
    match e
    case Accept(_, _, _, _, _) => true
    case Refuse(_) => s.failed
    case Start => !s.failed && s.tx.inFlight.None? && s.tx.queue != []
    case Finish => !s.failed && s.tx.inFlight.Some?
    case WriteError => !s.failed && s.tx.inFlight.Some?
    case Drain(f) => s.tx.queue != [] && ((!s.failed && f.WriteFailed?) || f.SenderShutdown?)
    case Reply(packet) => !s.failed && p.parseMessage(packet.message).Some?
    case Fail(q, f) =>
      q in s.rx.awaiting && Justified(p, s.rx.replies, f) && (s.failed ==> f.ReceiverShutdown?)
    case RemoveQueued(i) => i < |s.tx.queue|
    case RemoveAwaiting(k) => k in s.rx.sequenceOf && s.rx.sequenceOf[k] in s.rx.awaiting
    case Close => true
  }

  function Next(p: Protocol, s: State, e: Event): State
    requires Enabled(p, s, e)
  {
    match e
    case Accept(key, handler, message, command, value) =>
      var keyed := s.keyed && !s.failed && key == |s.book.submitted|;
      var r := NewRequest(p, s, e);
      s.(tx := Push(s.tx, r),
         book := s.book.(submitted := s.book.submitted + [handler]),
         keyed := keyed)
    case Refuse(handler) =>
      s.(book := Called(s.book.(submitted := s.book.submitted + [handler]), handler, Error(AlreadyShutDown, None)))
    case Start => s.(tx := Begin(s.tx))
    case Finish => HandOver(s, s.tx.inFlight.value)
    case WriteError =>
      s.(tx := s.tx.(inFlight := None), book := Called(s.book, s.tx.inFlight.value.handler, Error(WriteFailed, None)))
    case Drain(f) =>
      s.(tx := s.tx.(queue := s.tx.queue[1..]), book := Called(s.book, s.tx.queue[0].handler, Error(f, None)))
    case Reply(packet) => Replied(p, s, packet)
    case Fail(q, f) =>
      s.(rx := Leave(s.rx, q), book := Called(s.book, s.rx.awaiting[q].handler, Error(f, None)))
    case RemoveQueued(i) =>
      s.(tx := s.tx.(queue := Without(s.tx.queue, i)), book := Removed(s.book, s.tx.queue[i].handler))
    case RemoveAwaiting(k) =>
      var q := s.rx.sequenceOf[k];
      s.(rx := Leave(s.rx, q), book := Removed(s.book, s.rx.awaiting[q].handler))
    case Close => s.(failed := true)
  }

  function Without<T>(s: seq<T>, i: nat): seq<T>
    requires i < |s|
  {
    s[..i] + s[i + 1..]
  }

  function Called(book: Ledger, h: Handler, outcome: Outcome): Ledger {
    book.(calls := book.calls + [Call(h, outcome)])
  }

  function Removed(book: Ledger, h: Handler): Ledger {
    book.(removed := book.removed + [h])
  }

  /** The request that the sender makes of a submission. */
  function NewRequest(p: Protocol, s: State, e: Event): Request
    requires e.Accept?
  {
    var c := Stamp(e.command, s.rx.connectionId, s.tx.nextSequence);
    Request(s.tx.nextSequence, e.key, e.handler, c, Seal(p, e.message, c), e.value)
  }

  function Push(tx: Outbound, r: Request): Outbound {
    tx.(queue := tx.queue + [r], nextSequence := tx.nextSequence + 1)
  }

  function Begin(tx: Outbound): Outbound
    requires tx.queue != []
  {
    tx.(inFlight := Some(tx.queue[0]), queue := tx.queue[1..])
  }

  function Complete(tx: Outbound, r: Request): Outbound {
    tx.(inFlight := None, wire := tx.wire + [r])
  }

  /** The receiver has room for a request: neither its sequence number nor its key is in the tables. */
  predicate HasRoom(rx: Inbound, sequence: int, key: int) {
    sequence !in rx.awaiting && key !in rx.sequenceOf
  }

  /** A request is on the wire and hands its handler to the receiver, which may turn it down. */
  function HandOver(s: State, r: Request): State {
    var s' := s.(tx := Complete(s.tx, r));
    if HasRoom(s.rx, r.sequence, r.key) then s'.(rx := Await(s.rx, r.sequence, Entry(r.handler, r.key)))
    else s'.(book := Called(s.book, r.handler, Error(CouldNotEnqueue, None)))
  }

  /** An entry joins both tables. */
  function Await(rx: Inbound, q: int, e: Entry): Inbound {
    rx.(awaiting := rx.awaiting[q := e], sequenceOf := rx.sequenceOf[e.key := q])
  }

  /** An entry leaves both tables. */
  function Leave(rx: Inbound, q: int): Inbound
    requires q in rx.awaiting
  {
    rx.(awaiting := rx.awaiting - {q}, sequenceOf := rx.sequenceOf - {rx.awaiting[q].key})
  }

  /** A packet has been read; it completes the request that it acknowledges, if that one waits. */
  function Replied(p: Protocol, s: State, packet: Packet): State
    requires p.parseMessage(packet.message).Some?
  {
    var rx := s.rx.(replies := s.rx.replies + [packet]);
    match MeaningOf(p, packet)
    case Forged => s.(rx := rx)
    case Garbled => s.(rx := rx)
    case Unacknowledged(c) => s.(rx := Connected(rx, c))
    case Acknowledged(c, q) =>
      if q in s.rx.awaiting then
        s.(rx := Leave(Connected(rx, c), q),
           book := Called(s.book, s.rx.awaiting[q].handler, OutcomeOf(c, packet.value)))
      else s.(rx := Connected(rx, c))
  }

  function Connected(rx: Inbound, c: Command): Inbound {
    rx.(connectionId := if c.connectionId.Some? then c.connectionId.value else rx.connectionId)
  }

  // ---------------------------------------------------------------------- runs

  function Replay(p: Protocol, t: seq<Event>): State {
    if t == [] then INITIAL
    else
      var s, e := Replay(p, t[..|t| - 1]), t[|t| - 1];
      if Enabled(p, s, e) then Next(p, s, e) else s
  }

  /** A run: every event could happen when it did. */
  predicate IsRun(p: Protocol, t: seq<Event>) {
    t != [] ==> IsRun(p, t[..|t| - 1]) && Enabled(p, Replay(p, t[..|t| - 1]), t[|t| - 1])
  }

  lemma RunSnoc(p: Protocol, t: seq<Event>, e: Event)
    requires IsRun(p, t) && Enabled(p, Replay(p, t), e)
    ensures IsRun(p, t + [e]) && Replay(p, t + [e]) == Next(p, Replay(p, t), e)
  {
    assert (t + [e])[..|t|] == t;
  }

  lemma {:induction false} RunPrefix(p: Protocol, t: seq<Event>, n: nat)
    requires IsRun(p, t) && n <= |t|
    ensures IsRun(p, t[..n])
  {
    if n < |t| {
      RunPrefix(p, t[..|t| - 1], n);
      assert t[..|t| - 1][..n] == t[..n];
    } else {
      assert t[..n] == t;
    }
  }
}
