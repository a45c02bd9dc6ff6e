/** The wire format: `F`, two big-endian lengths, the serialised message and the value. */
module Framing {
  import opened Bytes

  const MAGIC: byte := 70  // 'F'
  const HEADER_SIZE := 9

  /** A serialised message together with its value. */
  datatype Packet = Packet(message: bytes, value: bytes)

  /** Both lengths fit the four octets that the header has for them. */
  predicate Fits(p: Packet) {
    |p.message| < WORD && |p.value| < WORD
  }

  function Header(p: Packet): (h: bytes)
    ensures |h| == HEADER_SIZE
  {
    [MAGIC] + ToBigEndian(Word32(|p.message|)) + ToBigEndian(Word32(|p.value|))
  }

  /** The octets a writer puts on the wire for one packet. */
  function Frame(p: Packet): (f: bytes)
    ensures |f| == HEADER_SIZE + |p.message| + |p.value|
  {
    Header(p) + p.message + p.value
  }

  /** Where everything is in a frame; lengths are cut to 32 bits, with the most significant octet first. */
  lemma FrameLayout(p: Packet)
    ensures var f, m := Frame(p), |p.message|;
      && f[0] as int == 'F' as int
      && f[1] as int * 0x100_0000 + f[2] as int * 0x1_0000 + f[3] as int * 0x100 + f[4] as int == m % WORD
      && f[5] as int * 0x100_0000 + f[6] as int * 0x1_0000 + f[7] as int * 0x100 + f[8] as int == |p.value| % WORD
      && f[9..9 + m] == p.message && f[9 + m..] == p.value
  {
    var a, b := ToBigEndian(Word32(|p.message|)), ToBigEndian(Word32(|p.value|));
    BigEndianDigits(Word32(|p.message|));
    BigEndianDigits(Word32(|p.value|));
    assert Frame(p)[1..5] == a && Frame(p)[5..9] == b;
  }

  /** What a reader can tell from the octets it has so far. */
  datatype Decoded = NeedMore | BadMagic | Whole(packet: Packet, rest: bytes)

  function MessageSize(s: bytes): nat
    requires |s| >= HEADER_SIZE
  {
    FromBigEndian(s[1..5])
  }

  function ValueSize(s: bytes): nat
    requires |s| >= HEADER_SIZE
  {
    FromBigEndian(s[5..9])
  }

  /** Reference decoder: takes the first packet off a byte string. */
  function Decode(s: bytes): Decoded {
    if s == [] then NeedMore
    else if s[0] != MAGIC then BadMagic
    else if |s| < HEADER_SIZE then NeedMore
    else
      var m, v := MessageSize(s), ValueSize(s);
      if |s| < HEADER_SIZE + m + v then NeedMore
      else Whole(Packet(s[9..9 + m], s[9 + m..9 + m + v]), s[9 + m + v..])
  }

  /** The reference decoder takes a written packet back off the wire and leaves what follows it. */
  lemma DecodeFrame(p: Packet, rest: bytes)
    requires Fits(p)
    ensures Decode(Frame(p) + rest) == Whole(p, rest)
  {
    var s := Frame(p) + rest;
    var m, v := |p.message|, |p.value|;
    assert s[1..5] == ToBigEndian(m);
    assert s[5..9] == ToBigEndian(v);
    FromToBigEndian(m);
    FromToBigEndian(v);
    assert s[9..9 + m] == p.message;
    assert s[9 + m..9 + m + v] == p.value;
    assert s[9 + m + v..] == rest;
  }

  /** Whatever decodes was the frame of a packet that fits: the decoder accepts no other spelling. */
  lemma DecodeSound(s: bytes)
    requires Decode(s).Whole?
    ensures Fits(Decode(s).packet)
    ensures s == Frame(Decode(s).packet) + Decode(s).rest
  {
    var p, rest := Decode(s).packet, Decode(s).rest;
    var m, v := MessageSize(s), ValueSize(s);
    assert Header(p) == s[..9] by {
      ToFromBigEndian(s[1..5]);
      ToFromBigEndian(s[5..9]);
      assert s[..9] == [s[0]] + s[1..5] + s[5..9];
    }
    hide Header;
    assert p.message == s[9..9 + m] && p.value == s[9 + m..9 + m + v] && rest == s[9 + m + v..];
    assert s == s[..9] + s[9..9 + m] + s[9 + m..9 + m + v] + s[9 + m + v..];
  }

  /** A frame can be read back if and only if both lengths fit in 32 bits. */
  lemma FrameRoundTripIff(p: Packet)
    ensures Decode(Frame(p)) == Whole(p, []) <==> Fits(p)
  {
    if Fits(p) {
      DecodeFrame(p, []);
      assert Frame(p) + [] == Frame(p);
    } else if Decode(Frame(p)) == Whole(p, []) {
      DecodeSound(Frame(p));
    }
  }

  /** The reader is waiting for more exactly while it holds a proper prefix of some frame. */
  lemma NeedMoreIffProperPrefix(s: bytes)
    ensures Decode(s).NeedMore? <==> exists p :: Fits(p) && s < Frame(p)
  {
    if Decode(s).NeedMore? {
      var p := Completion(s);
      assert Fits(p) && s < Frame(p);
    }
    if p :| Fits(p) && s < Frame(p) {
      ProperPrefixNeedsMore(s, p);
    }
  }

  lemma ProperPrefixNeedsMore(s: bytes, p: Packet)
    requires Fits(p) && s < Frame(p)
    ensures Decode(s).NeedMore?
  {
    if |s| >= HEADER_SIZE {
      assert s[1..5] == Frame(p)[1..5] == ToBigEndian(|p.message|);
      assert s[5..9] == Frame(p)[5..9] == ToBigEndian(|p.value|);
      FromToBigEndian(|p.message|);
      FromToBigEndian(|p.value|);
    }
  }

  /** A packet whose frame goes on where `s` stops. */
  lemma Completion(s: bytes) returns (p: Packet)
    requires Decode(s).NeedMore?
    ensures Fits(p) && s < Frame(p)
  {
    var h := if s == [] then [MAGIC] + seq(8, _ => 0)
      else if |s| < HEADER_SIZE then s + seq(HEADER_SIZE - |s|, _ => 0) else s;
    var total := HEADER_SIZE + MessageSize(h) + ValueSize(h);
    var full := h + seq(total - |h|, _ => 0);
    assert full[1..5] == h[1..5] && full[5..9] == h[5..9];
    DecodeSound(full);
    p := Decode(full).packet;
    assert full == Frame(p) + [] == Frame(p);
  }

  /** The octets of packets written one after the other. */
  function Stream(ps: seq<Packet>): bytes {
    if ps == [] then [] else Stream(ps[..|ps| - 1]) + Frame(ps[|ps| - 1])
  }

  lemma StreamSnoc(ps: seq<Packet>, p: Packet)
    ensures Stream(ps + [p]) == Stream(ps) + Frame(p)
  {
    assert (ps + [p])[..|ps|] == ps;
  }

  lemma {:induction false} StreamCons(p: Packet, ps: seq<Packet>)
    ensures Stream([p] + ps) == Frame(p) + Stream(ps)
  {
    if ps == [] {
      assert [p] + ps == [] + [p];
      StreamSnoc([], p);
    } else {
      var init, last := ps[..|ps| - 1], ps[|ps| - 1];
      calc {
        Stream([p] + ps);
        { assert [p] + ps == ([p] + init) + [last]; StreamSnoc([p] + init, last); }
        Stream([p] + init) + Frame(last);
        { StreamCons(p, init); }
        Frame(p) + Stream(init) + Frame(last);
        { Associate(Frame(p), Stream(init), Frame(last)); }
        Frame(p) + Stream(ps);
      }
    }
  }

  /** All packets a reader gets off a byte string, and the unfinished rest. */
  function DecodeAll(s: bytes): (seq<Packet>, bytes)
    decreases |s|
  {
    match Decode(s)
    case Whole(p, rest) => var r := DecodeAll(rest); ([p] + r.0, r.1)
    case _ => ([], s)
  }

  /** Packets that were written one after the other are the first ones to be read back. */
  lemma {:induction false} DecodeAllAfter(qs: seq<Packet>, more: bytes)
    requires forall q <- qs :: Fits(q)
    ensures DecodeAll(Stream(qs) + more) == (qs + DecodeAll(more).0, DecodeAll(more).1)
  {
    if qs == [] {
      assert Stream(qs) + more == more;
      assert qs + DecodeAll(more).0 == DecodeAll(more).0;
    } else {
      var q, rest := qs[0], qs[1..];
      var r := DecodeAll(Stream(rest) + more);
      calc {
        DecodeAll(Stream(qs) + more);
        { assert qs == [q] + rest; StreamCons(q, rest); }
        DecodeAll(Frame(q) + Stream(rest) + more);
        { Associate(Frame(q), Stream(rest), more); }
        DecodeAll(Frame(q) + (Stream(rest) + more));
        { DecodeFrame(q, Stream(rest) + more); }
        ([q] + r.0, r.1);
        { DecodeAllAfter(rest, more); }
        ([q] + (rest + DecodeAll(more).0), DecodeAll(more).1);
        { Associate([q], rest, DecodeAll(more).0); assert qs == [q] + rest; }
        (qs + DecodeAll(more).0, DecodeAll(more).1);
      }
    }
  }

  /**
   * Pipelined round trip.  `ps` was written; of those octets the reader has taken the frames of `qs`
   * and then `tail`.  Then it has read the first packets of `ps`, in order and unchanged, and when
   * it has taken every octet it has read them all.
   */
  lemma PipelinedRoundTrip(ps: seq<Packet>, qs: seq<Packet>, tail: bytes, ahead: bytes)
    requires forall p <- ps :: Fits(p)
    requires forall q <- qs :: Fits(q)
    requires Decode(tail).NeedMore?
    requires Stream(qs) + tail + ahead == Stream(ps)
    ensures qs <= ps
    ensures ahead == [] ==> qs == ps && tail == []
  {
    var a := DecodeAll(Stream(ps) + []);
    assert a == (ps, []) by {
      DecodeAllAfter(ps, []);
      assert DecodeAll([]) == ([], []);
      assert ps + [] == ps;
    }
    assert a == (qs + DecodeAll(tail + ahead).0, DecodeAll(tail + ahead).1) by {
      Associate(Stream(qs), tail, ahead);
      assert Stream(ps) + [] == Stream(ps);
      DecodeAllAfter(qs, tail + ahead);
    }
    if ahead == [] {
      assert tail + ahead == tail;
      assert DecodeAll(tail) == ([], tail);
      assert qs + [] == qs;
    }
  }
}
