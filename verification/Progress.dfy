/** What has to arrive for a request to be answered, and that it then is. */
module Progress {
  import opened Bytes
  import opened Conservation
  import opened Framing
  import opened Messages
  import opened Pipeline
  import opened PipelineInvariants
  import opened Receivers

  /** The packet is a response to the request with this number. */
  predicate Acks(p: Protocol, packet: Packet, sequence: int) {
    Responds(p, packet) && MeaningOf(p, packet).sequence == sequence
  }

  /** And it reports success. */
  predicate Succeeds(p: Protocol, packet: Packet) {
    Responds(p, packet) && MeaningOf(p, packet).command.status.Success?
  }

  /** The packets from `known` on are responses, and those to this request report success. */
  predicate Favourable(p: Protocol, packets: seq<Packet>, known: nat, sequence: int) {
    forall i :: known <= i < |packets| ==>
      Responds(p, packets[i]) && (Acks(p, packets[i], sequence) ==> Succeeds(p, packets[i]))
  }

  predicate AckedFrom(p: Protocol, packets: seq<Packet>, known: nat, sequence: int) {
    exists i :: known <= i < |packets| && Acks(p, packets[i], sequence)
  }

  /**
   * The octets decode to packets, with no more than the beginning of another one after them; those from
   * `known` on are responses, and at least one is to this request, and reports success.
   */
  predicate Answers(p: Protocol, octets: bytes, known: nat, sequence: int) {
    && var (packets, rest) := DecodeAll(octets);
    && Decode(rest).NeedMore?
    && Favourable(p, packets, known, sequence) && AckedFrom(p, packets, known, sequence)
  }

  predicate WaitsFor(s: State, sequence: int, h: Handler) {
    sequence in s.rx.awaiting && s.rx.awaiting[sequence].handler == h
  }

  predicate HasSucceeded(h: Handler, s: State) {
    exists c <- s.book.calls :: c.handler == h && c.outcome.Handled?
  }

  /** A request that waits does so under its key. */
  lemma WaitsUnderItsKey(p: Protocol, t: seq<Event>, q: int, key: int)
    requires IsRun(p, t) && Replay(p, t).keyed && Fresh(Replay(p, t)) && q in Replay(p, t).rx.awaiting
    requires 0 <= key < |Replay(p, t).book.submitted|
    requires Replay(p, t).book.submitted[key] == Replay(p, t).rx.awaiting[q].handler
    ensures q == key == Replay(p, t).rx.awaiting[q].key
  {
    hide IsRun, Replay;
    var s := Replay(p, t);
    TablesStayInverse(p, t);
    RunsAreDisciplined(p, t);
    RunsAreNumbered(p, t);
    WaitingKeys(p, s, q);
    if q == HANDSHAKE_SEQUENCE {
      assert Accounted(s.tx.wire, q, s.rx.awaiting[q]);
      forall r <- s.tx.wire ensures r.sequence != q {
        assert r in Line(s.tx);
      }
    }
  }

  /** Once everything is sent, a request that has been neither answered nor removed waits under its key. */
  lemma SentMeansWaiting(p: Protocol, t: seq<Event>, key: int, h: Handler)
    requires IsRun(p, t) && Replay(p, t).keyed && Fresh(Replay(p, t))
    requires Replay(p, t).tx.queue == [] && Replay(p, t).tx.inFlight.None?
    requires 0 <= key < |Replay(p, t).book.submitted| && Replay(p, t).book.submitted[key] == h
    requires !WasCalled(h, Replay(p, t)) && h !in Replay(p, t).book.removed
    ensures WaitsFor(Replay(p, t), key, h)
  {
    hide IsRun, Replay, WasCalled;
    var s := Replay(p, t);
    if forall q <- s.rx.awaiting :: s.rx.awaiting[q].handler != h {
      GoneMeansSettled(p, t, h);
    }
    var q :| q in s.rx.awaiting && s.rx.awaiting[q].handler == h;
    WaitsUnderItsKey(p, t, q, key);
  }

  lemma LastStep(p: Protocol, t: seq<Event>, e: Event)
    requires IsRun(p, t + [e])
    ensures IsRun(p, t) && Enabled(p, Replay(p, t), e) && Replay(p, t + [e]) == Next(p, Replay(p, t), e)
  {
    assert (t + [e])[..|t|] == t;
  }

  lemma AckedFromSnoc(p: Protocol, ps: seq<Packet>, last: Packet, q: int)
    requires Favourable(p, ps + [last], 0, q)
    ensures Favourable(p, ps, 0, q) && Responds(p, last) && (Acks(p, last, q) ==> Succeeds(p, last))
    ensures AckedFrom(p, ps + [last], 0, q) <==> AckedFrom(p, ps, 0, q) || Acks(p, last, q)
  {
    hide Acks, Succeeds, Responds;
    assert forall i :: 0 <= i < |ps| ==> (ps + [last])[i] == ps[i];
    assert (ps + [last])[|ps|] == last;
  }

  /** Responses arrive: the request goes on waiting until one of them is to it, and then it has succeeded. */
  lemma {:induction false} ArrivalsDeliver(p: Protocol, t: seq<Event>, ps: seq<Packet>, q: int, h: Handler)
    requires IsRun(p, t + Arrivals(ps)) && WaitsFor(Replay(p, t), q, h) && Favourable(p, ps, 0, q)
    ensures var s := Replay(p, t + Arrivals(ps));
      if AckedFrom(p, ps, 0, q) then HasSucceeded(h, s) else WaitsFor(s, q, h)
  {
    hide IsRun, Replay, Enabled, Next, Acks, Succeeds, Responds, WaitsFor, HasSucceeded, Favourable;
    if ps == [] {
      assert t + Arrivals(ps) == t;
    } else {
      var init, last := ps[..|ps| - 1], ps[|ps| - 1];
      var u := t + Arrivals(init);
      assert t + Arrivals(ps) == u + [Reply(last)];
      assert ps == init + [last];
      hide AckedFrom, Arrivals;
      AckedFromSnoc(p, init, last, q);
      LastStep(p, u, Reply(last));
      ArrivalsDeliver(p, t, init, q, h);
      OneDelivers(p, Replay(p, u), last, q, h);
    }
  }

  lemma OneDelivers(p: Protocol, s: State, packet: Packet, q: int, h: Handler)
    requires Enabled(p, s, Reply(packet)) && Responds(p, packet)
    requires Acks(p, packet, q) ==> Succeeds(p, packet)
    ensures var s' := Next(p, s, Reply(packet));
      && (HasSucceeded(h, s) ==> HasSucceeded(h, s'))
      && (WaitsFor(s, q, h) ==> if Acks(p, packet, q) then HasSucceeded(h, s') else WaitsFor(s', q, h))
  {
    var s' := Next(p, s, Reply(packet));
    assert s.book.calls <= s'.book.calls;
    if WaitsFor(s, q, h) && Acks(p, packet, q) {
      var m := MeaningOf(p, packet);
      assert s'.book.calls[|s.book.calls|] == Call(h, Handled(m.command, packet.value));
    } else if HasSucceeded(h, s) {
      var c :| c in s.book.calls && c.handler == h && c.outcome.Handled?;
      assert c in s'.book.calls;
    }
  }
  /** What is known of the packets read, when some of those that an answer decodes to have been read. */
  lemma AnswersSoFar(p: Protocol, octets: bytes, known: nat, q: int, before: seq<Packet>, ps: seq<Packet>)
    requires Answers(p, octets, known, q) && known <= |before| && before + ps <= DecodeAll(octets).0
    ensures Favourable(p, ps, 0, q) && RespondsFrom(p, before + ps, |before|)
    ensures AckedFrom(p, before + ps, known, q) <==> AckedFrom(p, before, known, q) || AckedFrom(p, ps, 0, q)
  {
    hide Acks, Succeeds, Responds;
    var read, packets := before + ps, DecodeAll(octets).0;
    assert forall i :: 0 <= i < |read| ==> read[i] == packets[i];
    assert forall i :: 0 <= i < |before| ==> read[i] == before[i];
    assert forall i :: 0 <= i < |ps| ==> read[|before| + i] == ps[i];
    assert forall i :: |before| <= i < |read| ==> read[i] == ps[i - |before|];
  }

  // ---------------------------------------------------------------------- octets

  /** What comes after octets that are no packet, or a whole one, does not change what they begin with. */
  lemma DecodeMore(tail: bytes, ahead: bytes)
    ensures Decode(tail).BadMagic? ==> Decode(DecodeAll(tail + ahead).1).BadMagic?
    ensures Decode(tail).Whole? ==>
      DecodeAll(tail + ahead).0 != [] && DecodeAll(tail + ahead).0[0] == Decode(tail).packet
  {
    if Decode(tail).Whole? {
      var packet, rest := Decode(tail).packet, Decode(tail).rest;
      DecodeSound(tail);
      Associate(Frame(packet), rest, ahead);
      DecodeFrame(packet, rest + ahead);
    }
  }

  lemma AnswersRespond(p: Protocol, octets: bytes, known: nat, q: int, i: nat)
    requires Answers(p, octets, known, q) && known <= i < |DecodeAll(octets).0|
    ensures Responds(p, DecodeAll(octets).0[i])
  {}

  /** If the octets that have come and are to come are an answer, the receiver has no reason to fail. */
  lemma AnswersAreNoFault(receiver: Receiver, q: int, known: nat, n: nat, ahead: bytes)
    requires known <= |receiver.client.state.rx.replies| && known <= n
    requires Answers(receiver.p, receiver.socket.received + ahead, known, q)
    ensures !receiver.Malformed(receiver.client.state.rx.replies)
    ensures !receiver.Garbles(receiver.client.state.rx.replies, n)
  {
    hide Decode;
    var p, replies, received := receiver.p, receiver.client.state.rx.replies, receiver.socket.received;
    if receiver.Malformed(replies) {
      var tail :| received == Stream(replies) + tail && receiver.NoPacket(tail);
      Associate(Stream(replies), tail, ahead);
      DecodeAllAfter(replies, tail + ahead);
      DecodeMore(tail, ahead);
      if Decode(tail).Whole? {
        AnswersRespond(p, received + ahead, known, q, |replies|);
      }
    }
    if receiver.Garbles(replies, n) {
      DecodeAllAfter(replies, ahead);
      AnswersRespond(p, received + ahead, known, q, |replies| - 1);
    }
  }

  /** Once no octet is left to be read, the receiver has read every packet that there is. */
  lemma EverythingRead(receiver: Receiver)
    requires receiver.Valid() && !receiver.dead && receiver.socket.incoming == []
    ensures receiver.client.state.rx.replies == DecodeAll(receiver.socket.received).0
  {
    hide IsRun, Replay, Decode;
    var replies := receiver.client.state.rx.replies;
    var tail := if receiver.reader == null then [] else receiver.reader.Consumed();
    assert Decode([]).NeedMore? by {
      NothingDecodes();
    }
    DecodeAllAfter(replies, tail);
    assert DecodeAll(tail).0 == [];
    assert replies + [] == replies;
  }

  lemma NothingDecodes()
    ensures Decode([]).NeedMore?
  {}
}
