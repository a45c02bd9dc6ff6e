/** Responses reach the handlers of the requests they answer, and nobody else. */
module Correlation {
  import opened Bytes
  import opened Framing
  import opened Hmac
  import opened Messages
  import opened Pipeline
  import opened PipelineInvariants
  import opened Wrappers

  /** The call passes on a response rather than a failure of the client. */
  predicate PassesOn(c: Call) {
    c.outcome.Handled? || c.outcome.failure.Remote? || c.outcome.reply.Some?
  }

  /** What a packet says, and to which sequence number: a drive's command, or an unsolicited status. */
  predicate Says(p: Protocol, packet: Packet, received: Command, told: Command) {
    && p.parseMessage(packet.message).Some?
    && var m := p.parseMessage(packet.message).value;
    && Genuine(p, m)
    && p.parseCommand(m.commandBytes) == Some(received)
    && told.ackSequence.Some?
    && told == if m.authType.UnsolicitedStatus? then received.(ackSequence := Some(HANDSHAKE_SEQUENCE)) else received
  }

  /** What a handler is told of it: a response, or the error that the drive reports. */
  predicate Tells(outcome: Outcome, received: Command, told: Command, value: bytes) {
    match received.status
    case Success => outcome == Handled(told, value)
    case Refused(code) => outcome == Error(Remote(code, received.clusterVersion), Some(told))
  }

  /**
   * The message carries no digest or the right one; its command acknowledges a request of this handler (or the
   * handshake); and the handler is told just that command and value, or the error in it.
   */
  ghost predicate Answers(p: Protocol, wire: seq<Request>, packet: Packet, c: Call) {
    exists received, told :: AnswersWith(p, wire, packet, c, received, told)
  }

  predicate AnswersWith(p: Protocol, wire: seq<Request>, packet: Packet, c: Call, received: Command, told: Command) {
    && Says(p, packet, received, told) && Tells(c.outcome, received, told, packet.value)
    && ((told.ackSequence.value == HANDSHAKE_SEQUENCE && c.handler == Handshake)
        || exists r <- wire :: r.sequence == told.ackSequence.value && r.handler == c.handler)
  }

  /**
   * Each call that passes something on has a packet of its own, at the index `at` says, and these packets
   * were received in the order in which the calls were made.
   */
  ghost predicate InOrder(p: Protocol, s: State, at: seq<nat>) {
    && |at| == |s.book.calls|
    && (forall i :: 0 <= i < |at| && PassesOn(s.book.calls[i]) ==>
      at[i] < |s.rx.replies| && Answers(p, s.tx.wire, s.rx.replies[at[i]], s.book.calls[i]))
    && (forall i, j :: 0 <= i < j < |at| && PassesOn(s.book.calls[i]) && PassesOn(s.book.calls[j]) ==> at[i] < at[j])
  }

  lemma StepKeepsOrder(p: Protocol, s: State, e: Event, at: seq<nat>) returns (at': seq<nat>)
    requires InOrder(p, s, at) && Disciplined(p, s) && Enabled(p, s, e)
    ensures InOrder(p, Next(p, s, e), at')
  {
    hide Answers, PassesOn, Disciplined;
    var s' := Next(p, s, e);
    StepMakesOneCall(p, s, e);
    assert s.rx.replies <= s'.rx.replies;
    if s'.book.calls == s.book.calls {
      at' := at;
    } else {
      at' := at + [|s.rx.replies|];
      var c := s'.book.calls[|at|];
      if PassesOn(c) {
        NewAnswer(p, s, e, c);
      }
    }
    forall i | 0 <= i < |at| && PassesOn(s.book.calls[i])
      ensures Answers(p, s'.tx.wire, s'.rx.replies[at[i]], s'.book.calls[i])
    {
      StillAnswers(p, s, e, s.rx.replies[at[i]], s.book.calls[i]);
    }
  }

  lemma StepMakesOneCall(p: Protocol, s: State, e: Event)
    requires Enabled(p, s, e)
    ensures var before, after := s.book.calls, Next(p, s, e).book.calls;
      after == before || (|after| == |before| + 1 && after == before + [after[|before|]])
  {}

  lemma StillAnswers(p: Protocol, s: State, e: Event, packet: Packet, c: Call)
    requires Enabled(p, s, e) && packet in s.rx.replies && Answers(p, s.tx.wire, packet, c)
    ensures packet in Next(p, s, e).rx.replies && Answers(p, Next(p, s, e).tx.wire, packet, c)
  {
    assert s.tx.wire <= Next(p, s, e).tx.wire;
    assert s.rx.replies <= Next(p, s, e).rx.replies;
    var received, told :| AnswersWith(p, s.tx.wire, packet, c, received, told);
    assert AnswersWith(p, Next(p, s, e).tx.wire, packet, c, received, told);
  }

  /** Only the arrival of a packet makes a call that passes something on. */
  lemma NewAnswer(p: Protocol, s: State, e: Event, c: Call)
    requires Disciplined(p, s) && Enabled(p, s, e)
    requires Next(p, s, e).book.calls == s.book.calls + [c] && PassesOn(c)
    ensures e.Reply? && Next(p, s, e).rx.replies == s.rx.replies + [e.packet]
    ensures Answers(p, Next(p, s, e).tx.wire, e.packet, c)
  {
    assert Next(p, s, e).book.calls[|s.book.calls|] == c;
    if e.Reply? {
      var m := MeaningOf(p, e.packet);
      assert Accounted(s.tx.wire, m.sequence, s.rx.awaiting[m.sequence]);
      var received := p.parseCommand(p.parseMessage(e.packet.message).value.commandBytes).value;
      assert AnswersWith(p, s.tx.wire, e.packet, c, received, m.command);
    }
  }

  /**
   * Correlation.  In every run, whatever order the responses come in and whatever else comes in between, a
   * handler that is given a response is given the command and the value of a received packet that acknowledges
   * the sequence number of a request of this handler that is on the wire.  No packet is passed on twice, and
   * they are passed on in the order in which they came.
   */
  lemma {:induction false} ResponsesReachTheirRequests(p: Protocol, t: seq<Event>)
    requires IsRun(p, t)
    ensures exists at :: InOrder(p, Replay(p, t), at)
  {
    if t == [] {
      assert InOrder(p, Replay(p, t), []);
    } else {
      var u := t[..|t| - 1];
      ResponsesReachTheirRequests(p, u);
      RunsAreDisciplined(p, u);
      var at :| InOrder(p, Replay(p, u), at);
      var at' := StepKeepsOrder(p, Replay(p, u), t[|t| - 1], at);
      assert InOrder(p, Replay(p, t), at');
    }
  }

  /** The other way round: whatever a packet says to a request that waits, its handler is told, at once and alone. */
  lemma ResponsesAreDelivered(p: Protocol, t: seq<Event>, packet: Packet, received: Command, told: Command)
    requires IsRun(p, t) && !Replay(p, t).failed && Says(p, packet, received, told)
    requires told.ackSequence.value in Replay(p, t).rx.awaiting
    ensures IsRun(p, t + [Reply(packet)])
    ensures var s, s', q := Replay(p, t), Replay(p, t + [Reply(packet)]), told.ackSequence.value;
      && |s'.book.calls| == |s.book.calls| + 1 && s.book.calls <= s'.book.calls
      && s'.book.calls[|s.book.calls|].handler == s.rx.awaiting[q].handler
      && Tells(s'.book.calls[|s.book.calls|].outcome, received, told, packet.value)
      && s'.rx.awaiting == s.rx.awaiting - {q} && s.rx.awaiting[q].key !in s'.rx.sequenceOf
  {
    RunSnoc(p, t, Reply(packet));
  }

  /** What the receiver makes of a packet, in terms of the message and the command in it. */
  lemma MeaningIs(p: Protocol, packet: Packet)
    requires p.parseMessage(packet.message).Some?
    ensures var meaning, m := MeaningOf(p, packet), p.parseMessage(packet.message).value;
      && (meaning.Forged? <==> !Genuine(p, m))
      && (meaning.Garbled? <==> Genuine(p, m) && p.parseCommand(m.commandBytes).None?)
      && (meaning.Acknowledged? <==> exists received, told :: Says(p, packet, received, told))
    ensures forall received, told :: Says(p, packet, received, told) ==>
      MeaningOf(p, packet) == Acknowledged(told, told.ackSequence.value)
  {
    var meaning, m := MeaningOf(p, packet), p.parseMessage(packet.message).value;
    if meaning.Acknowledged? {
      assert Says(p, packet, p.parseCommand(m.commandBytes).value, meaning.command);
    }
  }

  /** Why a packet ends everything that waits: a wrong digest, no command, or no number that it acknowledges. */
  predicate IsCause(p: Protocol, packet: Packet, f: Failure) {
    && p.parseMessage(packet.message).Some?
    && var m := p.parseMessage(packet.message).value;
    && var c := p.parseCommand(m.commandBytes);
    && (f.HmacMismatch? ==> !Genuine(p, m))
    && (f.CommandNotParsed? ==> Genuine(p, m) && c.None?)
    && (f.NoAckSequence? ==>
      Genuine(p, m) && c.Some? && c.value.ackSequence.None? && !m.authType.UnsolicitedStatus?)
  }

  predicate BlamesPacket(c: Call) {
    c.outcome.Error? &&
    (c.outcome.failure.HmacMismatch? || c.outcome.failure.CommandNotParsed? || c.outcome.failure.NoAckSequence?)
  }

  predicate Explained(p: Protocol, s: State) {
    forall c <- s.book.calls :: BlamesPacket(c) ==>
      exists packet <- s.rx.replies :: IsCause(p, packet, c.outcome.failure)
  }

  lemma StepKeepsExplained(p: Protocol, s: State, e: Event)
    requires Explained(p, s) && Enabled(p, s, e)
    ensures Explained(p, Next(p, s, e))
  {
    hide IsCause;
    var s' := Next(p, s, e);
    StepMakesOneCall(p, s, e);
    assert s.rx.replies <= s'.rx.replies;
    forall c <- s'.book.calls | BlamesPacket(c)
      ensures exists packet <- s'.rx.replies :: IsCause(p, packet, c.outcome.failure)
    {
      if c in s.book.calls {
        var packet :| packet in s.rx.replies && IsCause(p, packet, c.outcome.failure);
        assert packet in s'.rx.replies;
      } else {
        BlameIsJustified(p, s, e, c);
      }
    }
  }

  lemma BlameIsJustified(p: Protocol, s: State, e: Event, c: Call)
    requires Enabled(p, s, e) && BlamesPacket(c)
    requires c in Next(p, s, e).book.calls && c !in s.book.calls
    ensures s.rx.replies != [] && IsCause(p, s.rx.replies[|s.rx.replies| - 1], c.outcome.failure)
    ensures Next(p, s, e).rx.replies == s.rx.replies
  {
    hide Authentic;
  }

  /** In every run a handler that is told of a bad packet is told so after such a packet has come. */
  lemma {:induction false} FailuresHaveCauses(p: Protocol, t: seq<Event>)
    requires IsRun(p, t)
    ensures Explained(p, Replay(p, t))
  {
    if t != [] {
      FailuresHaveCauses(p, t[..|t| - 1]);
      StepKeepsExplained(p, Replay(p, t[..|t| - 1]), t[|t| - 1]);
    }
  }

  /** The sequence number has been used: by the handshake or by a request on the wire. */
  predicate Used(wire: seq<Request>, q: int) {
    q == HANDSHAKE_SEQUENCE || exists r <- wire :: r.sequence == q
  }

  lemma StepKeepsGone(p: Protocol, s: State, e: Event, q: int)
    requires Disciplined(p, s) && Enabled(p, s, e)
    requires Used(s.tx.wire, q) && q !in s.rx.awaiting
    ensures Used(Next(p, s, e).tx.wire, q) && q !in Next(p, s, e).rx.awaiting
  {
    assert s.tx.wire <= Next(p, s, e).tx.wire;
    if e.Finish? {
      PlacesAreOrdered(p, s);
      assert s.tx.inFlight.value in InFlight(s.tx) + s.tx.queue;
      assert Line(s.tx)[|s.tx.wire|] == s.tx.inFlight.value;
    }
  }

  /** A sequence number that has been used and no longer waits never waits again. */
  lemma {:induction false} GoneForGood(p: Protocol, t: seq<Event>, n: nat, q: int)
    requires IsRun(p, t) && n <= |t|
    requires Used(Replay(p, t[..n]).tx.wire, q) && q !in Replay(p, t[..n]).rx.awaiting
    ensures Used(Replay(p, t).tx.wire, q) && q !in Replay(p, t).rx.awaiting
  {
    if n == |t| {
      assert t[..n] == t;
    } else {
      var u := t[..|t| - 1];
      assert u[..n] == t[..n];
      GoneForGood(p, u, n, q);
      RunsAreDisciplined(p, u);
      StepKeepsGone(p, Replay(p, u), t[|t| - 1], q);
    }
  }

  /** What the arrival of one more packet leads to; once the service has failed it is not even read. */
  lemma ReplySnoc(p: Protocol, t: seq<Event>, packet: Packet)
    requires IsRun(p, t) && p.parseMessage(packet.message).Some?
    ensures Replay(p, t + [Reply(packet)]) ==
      if Replay(p, t).failed then Replay(p, t) else Replied(p, Replay(p, t), packet)
  {
    assert (t + [Reply(packet)])[..|t|] == t;
  }

  /**
   * A response that comes too late, because its request has been answered, failed or removed, is given to
   * nobody, however much later it comes.
   */
  lemma LateResponsesAreIgnored(p: Protocol, t: seq<Event>, n: nat, packet: Packet)
    requires IsRun(p, t) && n <= |t| && p.parseMessage(packet.message).Some?
    requires MeaningOf(p, packet).Acknowledged?
    requires Used(Replay(p, t[..n]).tx.wire, MeaningOf(p, packet).sequence)
    requires MeaningOf(p, packet).sequence !in Replay(p, t[..n]).rx.awaiting
    ensures var s, s' := Replay(p, t), Replay(p, t + [Reply(packet)]);
      s'.book == s.book && s'.rx.awaiting == s.rx.awaiting && s'.rx.sequenceOf == s.rx.sequenceOf && s'.tx == s.tx
  {
    GoneForGood(p, t, n, MeaningOf(p, packet).sequence);
    ReplySnoc(p, t, packet);
  }

  /** After the handshake an unsolicited status completes no request, whatever it claims to acknowledge. */
  lemma UnsolicitedStatusIsIgnored(p: Protocol, t: seq<Event>, n: nat, packet: Packet)
    requires IsRun(p, t) && n <= |t| && HANDSHAKE_SEQUENCE !in Replay(p, t[..n]).rx.awaiting
    requires p.parseMessage(packet.message).Some?
    requires p.parseMessage(packet.message).value.authType.UnsolicitedStatus?
    ensures var s, s' := Replay(p, t), Replay(p, t + [Reply(packet)]);
      s'.book == s.book && s'.rx.awaiting == s.rx.awaiting && s'.rx.sequenceOf == s.rx.sequenceOf && s'.tx == s.tx
  {
    ReplySnoc(p, t, packet);
    if MeaningOf(p, packet).Acknowledged? {
      LateResponsesAreIgnored(p, t, n, packet);
    }
  }
}
