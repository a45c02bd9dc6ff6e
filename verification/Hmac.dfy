/** Message authentication: which octets are authenticated, and how a received digest is compared. */
module Hmac {
  import opened Bytes
  import opened Messages

  /** The octets that go into the digest of a message: nothing, or a big-endian length and the command. */
  function MacInput(commandBytes: bytes): bytes {
    if commandBytes == [] then [] else ToBigEndian(Word32(|commandBytes|)) + commandBytes
  }

  /** Commands with the same authenticated octets are the same command, whatever their length. */
  lemma MacInputInjective(a: bytes, b: bytes)
    requires MacInput(a) == MacInput(b)
    ensures a == b
  {
    if a != [] && b != [] {
      assert a == MacInput(a)[4..];
      assert b == MacInput(b)[4..];
    }
  }

  function DigestOf(p: Protocol, m: Message): Digest {
    p.mac(p.hmacKey, MacInput(m.commandBytes))
  }

  /** The message carries a digest, and it is the right one. */
  predicate Authentic(p: Protocol, m: Message) {
    m.hmacAuth.Some? && m.hmacAuth.value.hmac == DigestOf(p, m)
  }

  /** The message carries no digest, or the right one. */
  predicate Genuine(p: Protocol, m: Message) {
    m.hmacAuth.Some? ==> Authentic(p, m)
  }

  /** The digest of a command: of nothing if it is empty, and else of its length in four octets and itself. */
  lemma DigestIs(p: Protocol, m: Message)
    ensures m.commandBytes == [] ==> DigestOf(p, m) == p.mac(p.hmacKey, [])
    ensures m.commandBytes != [] ==>
      exists pre :: |pre| == 4 && FromBigEndian(pre) == |m.commandBytes| % WORD
        && DigestOf(p, m) == p.mac(p.hmacKey, pre + m.commandBytes)
  {
    var pre := ToBigEndian(Word32(|m.commandBytes|));
    FromToBigEndian(Word32(|m.commandBytes|));
    assert m.commandBytes != [] ==> DigestOf(p, m) == p.mac(p.hmacKey, pre + m.commandBytes);
  }

  /** The four octets of a length are determined by it. */
  lemma DigestIff(p: Protocol, m: Message, digest: Digest)
    ensures digest == DigestOf(p, m) <==>
      if m.commandBytes == [] then digest == p.mac(p.hmacKey, [])
      else
        exists pre ::
          && |pre| == 4 && FromBigEndian(pre) == |m.commandBytes| % WORD
          && digest == p.mac(p.hmacKey, pre + m.commandBytes)
  {
    DigestIs(p, m);
    forall pre: bytes, pre': bytes | |pre| == |pre'| == 4 && FromBigEndian(pre) == FromBigEndian(pre')
      ensures pre == pre'
    {
      ToFromBigEndian(pre);
      ToFromBigEndian(pre');
    }
  }

  method ComputeHmac(p: Protocol, m: Message) returns (digest: Digest)
    ensures digest == DigestOf(p, m)
    ensures m.commandBytes == [] ==> digest == p.mac(p.hmacKey, [])
    ensures m.commandBytes != [] ==>
      exists pre :: |pre| == 4 && FromBigEndian(pre) == |m.commandBytes| % WORD
        && digest == p.mac(p.hmacKey, pre + m.commandBytes)
  {
    DigestIs(p, m);
    var context: bytes := [];
    if |m.commandBytes| != 0 {
      context := context + ToBigEndian(Word32(|m.commandBytes|));
      context := context + m.commandBytes;
      assert context == MacInput(m.commandBytes);
    }
    digest := p.mac(p.hmacKey, context);
  }

  /** Compares without stopping early; the accumulated difference is zero exactly for equal digests. */
  method ValidateHmac(p: Protocol, m: Message) returns (ok: bool)
    ensures ok <==> Authentic(p, m)
    ensures m.hmacAuth.None? ==> !ok
    ensures m.hmacAuth.Some? ==>
      var digest := m.hmacAuth.value.hmac;
      ok <==>
      if m.commandBytes == [] then digest == p.mac(p.hmacKey, [])
      else
        exists pre ::
          && |pre| == 4 && FromBigEndian(pre) == |m.commandBytes| % WORD
          && digest == p.mac(p.hmacKey, pre + m.commandBytes)
  {
    if m.hmacAuth.Some? {
      DigestIff(p, m, m.hmacAuth.value.hmac);
    }
    var correct := ComputeHmac(p, m);
    if m.hmacAuth.None? {
      return false;
    }
    var provided := m.hmacAuth.value.hmac;
    if |provided| != |correct| {
      return false;
    }
    var result: bv8 := 0;
    for i := 0 to |correct|
      invariant result == 0 <==> provided[..i] == correct[..i]
    {
      OrXorZero(result, provided[i], correct[i]);
      assert provided[..i + 1] == provided[..i] + [provided[i]];
      assert correct[..i + 1] == correct[..i] + [correct[i]];
      result := result | (provided[i] ^ correct[i]);
    }
    assert provided[..|correct|] == provided && correct[..|correct|] == correct;
    return result == 0;
  }

  lemma OrXorZero(acc: bv8, a: bv8, b: bv8)
    ensures acc | (a ^ b) == 0 <==> acc == 0 && a == b
  {
    assert a ^ b == 0 <==> a == b;
    assert acc | (a ^ b) == 0 <==> acc == 0 && a ^ b == 0;
  }
}
