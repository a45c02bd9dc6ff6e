/** Where requests and connection ids come from. */
module Origins {
  import opened Framing
  import opened Hmac
  import opened Messages
  import opened Pipeline
  import opened PipelineInvariants
  import opened Wrappers

  /** The connection id that a packet brings, unless its message is forged or its command does not parse. */
  function ConnectionIdIn(p: Protocol, packet: Packet): Option<int> {
    match p.parseMessage(packet.message)
    case None => None
    case Some(m) =>
      if !Genuine(p, m) then None
      else match p.parseCommand(m.commandBytes)
        case None => None
        case Some(c) => c.connectionId
  }

  /** The last connection id that the packets brought; before the first one it is 0. */
  function LastConnectionId(p: Protocol, packets: seq<Packet>): int {
    if packets == [] then 0
    else
      var last := ConnectionIdIn(p, packets[|packets| - 1]);
      if last.Some? then last.value else LastConnectionId(p, packets[..|packets| - 1])
  }

  lemma StepKeepsConnectionId(p: Protocol, s: State, e: Event)
    requires s.rx.connectionId == LastConnectionId(p, s.rx.replies) && Enabled(p, s, e)
    ensures var rx := Next(p, s, e).rx; rx.connectionId == LastConnectionId(p, rx.replies)
  {
    hide LastConnectionId, Authentic, Seal, Justified, Stamp;
    if e.Reply? {
      ReplyKeepsConnectionId(p, s, e.packet);
    }
  }

  lemma ReplyKeepsConnectionId(p: Protocol, s: State, packet: Packet)
    requires s.rx.connectionId == LastConnectionId(p, s.rx.replies) && p.parseMessage(packet.message).Some?
    ensures Replied(p, s, packet).rx.replies == s.rx.replies + [packet]
    ensures Replied(p, s, packet).rx.connectionId == LastConnectionId(p, s.rx.replies + [packet])
  {
    hide Authentic;
    assert (s.rx.replies + [packet])[..|s.rx.replies|] == s.rx.replies;
  }

  /** In every run the receiver's connection id is the last one that came. */
  lemma {:induction false} ConnectionIdIsLast(p: Protocol, t: seq<Event>)
    requires IsRun(p, t)
    ensures Replay(p, t).rx.connectionId == LastConnectionId(p, Replay(p, t).rx.replies)
  {
    if t != [] {
      ConnectionIdIsLast(p, t[..|t| - 1]);
      StepKeepsConnectionId(p, Replay(p, t[..|t| - 1]), t[|t| - 1]);
    }
  }

  /** The request was made of the submission at this point of the run, and has the next number of then. */
  predicate ComesFrom(p: Protocol, t: seq<Event>, i: int, r: Request) {
    && 0 <= i < |t| && t[i].Accept?
    && var s := Replay(p, t[..i]);
    r.sequence == s.tx.nextSequence && Carries(p, r, t[i], LastConnectionId(p, s.rx.replies))
  }

  lemma NewRequestCarries(p: Protocol, s: State, e: Event)
    requires e.Accept?
    ensures NewRequest(p, s, e).sequence == s.tx.nextSequence
    ensures Carries(p, NewRequest(p, s, e), e, s.rx.connectionId)
  {}

  lemma ComesFromExtends(p: Protocol, t: seq<Event>, e: Event, i: int, r: Request)
    requires ComesFrom(p, t, i, r)
    ensures ComesFrom(p, t + [e], i, r)
  {
    assert (t + [e])[..i] == t[..i];
  }

  lemma StepBringsRequests(p: Protocol, t: seq<Event>, e: Event, r: Request)
    requires IsRun(p, t) && Enabled(p, Replay(p, t), e) && r in Line(Next(p, Replay(p, t), e).tx)
    requires r in Line(Replay(p, t).tx) ==> exists i :: ComesFrom(p, t, i, r)
    ensures exists i :: ComesFrom(p, t + [e], i, r)
  {
    hide IsRun, Replay, Carries, Line;
    var s := Replay(p, t);
    StepMovesLine(p, s, e);
    if r in Line(s.tx) {
      var i :| ComesFrom(p, t, i, r);
      ComesFromExtends(p, t, e, i, r);
    } else {
      NewRequestCarries(p, s, e);
      ConnectionIdIsLast(p, t);
      assert (t + [e])[..|t|] == t;
      assert ComesFrom(p, t + [e], |t|, r);
    }
  }

  /**
   * In every run each request that is on the wire, in flight or queued comes from one submission: it has its
   * value, command and message, the number that was next at that moment, and the connection id that came last
   * before it.
   */
  lemma {:induction false} RequestsComeFromSubmissions(p: Protocol, t: seq<Event>, r: Request)
    requires IsRun(p, t) && r in Line(Replay(p, t).tx)
    ensures exists i :: ComesFrom(p, t, i, r)
  {
    if t != [] {
      var u, e := t[..|t| - 1], t[|t| - 1];
      if r in Line(Replay(p, u).tx) {
        RequestsComeFromSubmissions(p, u, r);
      }
      StepBringsRequests(p, u, e, r);
      assert u + [e] == t;
    }
  }

  /** No two requests come from the same submission. */
  lemma SubmissionsAreUsedOnce(p: Protocol, t: seq<Event>, i: int, a: nat, b: nat)
    requires IsRun(p, t) && a < |Line(Replay(p, t).tx)| && b < |Line(Replay(p, t).tx)|
    requires ComesFrom(p, t, i, Line(Replay(p, t).tx)[a]) && ComesFrom(p, t, i, Line(Replay(p, t).tx)[b])
    ensures a == b
  {
    hide IsRun, Replay, Carries, Line;
    RunsAreDisciplined(p, t);
  }
}
