/** Peer-to-peer pushes: the tree of operations that a user asks for, and the message made of it. */
module P2P {
  import opened Bytes
  import opened Wrappers

  /** Operations for one drive; an operation may carry a request for that drive to pass on in turn. */
  datatype Request = Request(host: bytes, port: int, operations: seq<Operation>)

  /** `newKey` is empty where the key is to stay the same. */
  datatype Operation =
    Operation(key: bytes, version: bytes, newKey: bytes, force: bool, request: Option<Request>)

  /** The message as a value. */
  datatype Tree = Tree(host: bytes, port: int, operations: seq<Item>)

  datatype Item = Item(key: bytes, version: bytes, newKey: Option<bytes>, force: bool, p2pop: Option<Tree>)

  // ---------------------------------------------------------------------- translation

  function NewKeyOf(o: Operation): Option<bytes> {
    if o.newKey != [] && o.newKey != o.key then Some(o.newKey) else None
  }

  function Translate(r: Request): Tree {
    Tree(r.host, r.port, TranslateAll(r.operations))
  }

  function TranslateAll(os: seq<Operation>): seq<Item> {
    if os == [] then []
    else
      var o := os[0];
      var sub := if o.request.Some? then Some(Translate(o.request.value)) else None;
      [Item(o.key, o.version, NewKeyOf(o), o.force, sub)] + TranslateAll(os[1..])
  }

  lemma {:induction false} TranslateSnoc(os: seq<Operation>, o: Operation)
    ensures TranslateAll(os + [o]) == TranslateAll(os) + TranslateAll([o])
  {
    if os == [] {
      assert os + [o] == [o];
    } else {
      assert (os + [o])[1..] == os[1..] + [o];
      TranslateSnoc(os[1..], o);
    }
  }

  /** Reads a message back. */
  function Decode(t: Tree): Request {
    Request(t.host, t.port, DecodeAll(t.operations))
  }

  function DecodeAll(items: seq<Item>): seq<Operation> {
    if items == [] then []
    else
      var i := items[0];
      var sub := if i.p2pop.Some? then Some(Decode(i.p2pop.value)) else None;
      [Operation(i.key, i.version, if i.newKey.Some? then i.newKey.value else [], i.force, sub)] + DecodeAll(items[1..])
  }

  /** The same request, but where a new key that is the old one is left blank, at every depth. */
  function Normalize(r: Request): Request {
    Request(r.host, r.port, NormalizeAll(r.operations))
  }

  function NormalizeAll(os: seq<Operation>): seq<Operation> {
    if os == [] then []
    else
      var o := os[0];
      var sub := if o.request.Some? then Some(Normalize(o.request.value)) else None;
      [o.(newKey := if o.newKey == o.key then [] else o.newKey, request := sub)] + NormalizeAll(os[1..])
  }

  /** Reading the message back gives the normalised request. */
  lemma {:induction false} DecodeTranslate(r: Request)
    ensures Decode(Translate(r)) == Normalize(r)
  {
    DecodeTranslateAll(r.operations);
  }

  lemma {:induction false} DecodeTranslateAll(os: seq<Operation>)
    ensures DecodeAll(TranslateAll(os)) == NormalizeAll(os)
  {
    if os != [] {
      if os[0].request.Some? {
        DecodeTranslate(os[0].request.value);
      }
      DecodeTranslateAll(os[1..]);
      assert TranslateAll(os)[1..] == TranslateAll(os[1..]);
    }
  }

  /** Normalising makes no difference to the message. */
  lemma {:induction false} TranslateNormalize(r: Request)
    ensures Translate(Normalize(r)) == Translate(r)
  {
    TranslateNormalizeAll(r.operations);
  }

  lemma {:induction false} TranslateNormalizeAll(os: seq<Operation>)
    ensures TranslateAll(NormalizeAll(os)) == TranslateAll(os)
  {
    if os != [] {
      if os[0].request.Some? {
        TranslateNormalize(os[0].request.value);
      }
      TranslateNormalizeAll(os[1..]);
      assert NormalizeAll(os)[1..] == NormalizeAll(os[1..]);
    }
  }

  /** Two requests become the same message if and only if they differ in redundant new keys only. */
  lemma SameMessageIff(a: Request, b: Request)
    ensures Translate(a) == Translate(b) <==> Normalize(a) == Normalize(b)
  {
    DecodeTranslate(a);
    DecodeTranslate(b);
    TranslateNormalize(a);
    TranslateNormalize(b);
  }

  lemma NormalizeIdempotent(r: Request)
    ensures Normalize(Normalize(r)) == Normalize(r)
  {
    SameMessageIff(Normalize(r), r);
    TranslateNormalize(r);
  }

  /** No operation, at any depth, has a new key that is also its key (unless both are blank). */
  predicate Plain(r: Request) {
    PlainAll(r.operations)
  }

  predicate PlainAll(os: seq<Operation>) {
    os == [] ||
    (var o := os[0];
     (o.newKey == [] || o.newKey != o.key) && (o.request.Some? ==> Plain(o.request.value)) && PlainAll(os[1..]))
  }

  /** A request survives the translation unchanged if and only if it has no redundant new key. */
  lemma {:induction false} RoundTripIff(r: Request)
    ensures Decode(Translate(r)) == r <==> Plain(r)
  {
    DecodeTranslate(r);
    NormalIff(r.operations);
  }

  lemma {:induction false} NormalIff(os: seq<Operation>)
    ensures NormalizeAll(os) == os <==> PlainAll(os)
  {
    if os != [] {
      if os[0].request.Some? {
        NormalIff(os[0].request.value.operations);
      }
      NormalIff(os[1..]);
      assert NormalizeAll(os)[1..] == NormalizeAll(os[1..]);
      assert os == [os[0]] + os[1..];
    }
  }

  // ---------------------------------------------------------------------- meaning

  datatype Peer = Peer(host: bytes, port: int)

  /** One copy: the drives it passes through, what is copied, under which key and with which version. */
  datatype Copy = Copy(hops: seq<Peer>, key: bytes, target: bytes, version: bytes, force: bool)

  /** The key an operation copies to. */
  function Target(o: Operation): bytes {
    if o.newKey == [] then o.key else o.newKey
  }

  /** Every copy that a request asks for, in order, at every depth. */
  function Copies(hops: seq<Peer>, r: Request): seq<Copy>
    decreases r
  {
    CopiesOfAll(hops + [Peer(r.host, r.port)], r.operations)
  }

  function CopiesOfAll(hops: seq<Peer>, os: seq<Operation>): seq<Copy>
    decreases os
  {
    if os == [] then []
    else
      var o := os[0];
      [Copy(hops, o.key, Target(o), o.version, o.force)]
      + (if o.request.Some? then Copies(hops, o.request.value) else [])
      + CopiesOfAll(hops, os[1..])
  }

  /** Every copy that a message asks for, as the drives understand it. */
  function Orders(hops: seq<Peer>, t: Tree): seq<Copy>
    decreases t
  {
    OrdersOfAll(hops + [Peer(t.host, t.port)], t.operations)
  }

  function OrdersOfAll(hops: seq<Peer>, items: seq<Item>): seq<Copy>
    decreases items
  {
    if items == [] then []
    else
      var i := items[0];
      [Copy(hops, i.key, if i.newKey.Some? then i.newKey.value else i.key, i.version, i.force)]
      + (if i.p2pop.Some? then Orders(hops, i.p2pop.value) else [])
      + OrdersOfAll(hops, items[1..])
  }

  /**
   * Meaning is preserved: the message orders exactly the copies that the request asks for, in the same
   * order, through the same drives, to the same keys, with the same versions and force flags.
   */
  lemma {:induction false} MeaningPreserved(hops: seq<Peer>, r: Request)
    ensures Orders(hops, Translate(r)) == Copies(hops, r)
    decreases r
  {
    MeaningOfAllPreserved(hops + [Peer(r.host, r.port)], r.operations);
  }

  lemma {:induction false} MeaningOfAllPreserved(hops: seq<Peer>, os: seq<Operation>)
    ensures OrdersOfAll(hops, TranslateAll(os)) == CopiesOfAll(hops, os)
    decreases os
  {
    if os != [] {
      if os[0].request.Some? {
        MeaningPreserved(hops, os[0].request.value);
      }
      MeaningOfAllPreserved(hops, os[1..]);
      assert TranslateAll(os)[1..] == TranslateAll(os[1..]);
    }
  }

  // ---------------------------------------------------------------------- the mutable message

  /** An element of the repeated field `operation`, and its optional submessage. */
  datatype Slot = Slot(key: bytes, version: bytes, newKey: Option<bytes>, force: bool, p2pop: P2PMessage?)

  const BLANK := Slot([], [], None, false, null)

  ghost function ItemOf(s: Slot): Item
    requires s.p2pop != null ==> s.p2pop.Valid()
    reads s.p2pop, if s.p2pop == null then {} else s.p2pop.Repr
    decreases if s.p2pop == null then {} else s.p2pop.Repr, 2
  {
    Item(s.key, s.version, s.newKey, s.force, if s.p2pop == null then None else Some(s.p2pop.Value()))
  }

  class P2PMessage {
    var hostname: bytes
    var port: int
    var operation: seq<Slot>
    ghost var Repr: set<P2PMessage>

    ghost predicate Valid()
      reads this, Repr
      decreases Repr
    {
      && this in Repr
      && forall s <- operation | s.p2pop != null ::
           s.p2pop in Repr && s.p2pop.Repr < Repr && this !in s.p2pop.Repr && s.p2pop.Valid()
    }

    ghost function Items(): (items: seq<Item>)
      requires Valid()
      reads this, Repr
      ensures |items| == |operation|
      decreases Repr, 0
    {
      seq(|operation|, i requires 0 <= i < |operation| && Valid() reads this, Repr => ItemOf(operation[i]))
    }

    /** The message as a value. */
    ghost function Value(): Tree
      requires Valid()
      reads this, Repr
      decreases Repr, 1
    {
      Tree(hostname, port, Items())
    }

    constructor ()
      ensures Valid() && fresh(Repr) && Items() == []
    {
      hostname, port, operation, Repr := [], 0, [], {this};
    }

    /** `mutable_peer()`, with its fields. */
    method SetPeer(host: bytes, port: int)
      requires Valid()
      modifies this`hostname, this`port
      ensures Valid() && hostname == host && this.port == port && Items() == old(Items())
    {
      ghost var items := Items();
      hostname, this.port := host, port;
      assert forall k | 0 <= k < |items| :: ItemOf(operation[k]) == items[k];
    }

    /** `add_operation()`, with its fields. */
    method AddOperation(s: Slot)
      requires Valid() && (s.p2pop != null ==> this !in s.p2pop.Repr && s.p2pop.Valid())
      modifies this`operation, this`Repr
      ensures Valid() && operation == old(operation) + [s]
      ensures Repr == old(Repr) + if s.p2pop == null then {} else s.p2pop.Repr
      ensures Items() == old(Items()) + [ItemOf(s)]
      ensures ItemOf(s) == old(ItemOf(s))
    {
      ghost var items := Items();
      operation := operation + [s];
      if s.p2pop != null {
        Repr := Repr + s.p2pop.Repr;
      }
      assert forall k | 0 <= k < |items| :: ItemOf(operation[k]) == items[k];
    }
  }

  /** Adds the operations of the request, with everything below them, to the message. */
  method PopulateP2PMessage(m: P2PMessage, r: Request)
    requires m.Valid()
    modifies m
    ensures m.Valid() && fresh(m.Repr - old(m.Repr))
    ensures m.hostname == r.host && m.port == r.port
    ensures m.Items() == old(m.Items()) + Translate(r).operations
    ensures old(m.Items()) == [] ==> m.Value() == Translate(r)
    decreases r
  {
    hide P2PMessage.Valid, P2PMessage.Items, ItemOf;
    m.SetPeer(r.host, r.port);
    var i := 0;
    while i < |r.operations|
      invariant i <= |r.operations|
      invariant m.Valid() && fresh(m.Repr - old(m.Repr))
      invariant m.hostname == r.host && m.port == r.port
      invariant m.Items() == old(m.Items()) + TranslateAll(r.operations[..i])
    {
      PopulateOperation(m, r.operations[i]);
      assert r.operations[..i + 1] == r.operations[..i] + [r.operations[i]];
      TranslateSnoc(r.operations[..i], r.operations[i]);
      i := i + 1;
    }
    assert r.operations[..i] == r.operations;
  }

  /** The body of the loop. */
  method PopulateOperation(m: P2PMessage, o: Operation)
    requires m.Valid()
    modifies m`operation, m`Repr
    ensures m.Valid() && fresh(m.Repr - old(m.Repr))
    ensures m.Items() == old(m.Items()) + TranslateAll([o])
    decreases o
  {
    hide P2PMessage.Valid, P2PMessage.Items;
    var op := BLANK;
    op := op.(key := o.key);
    op := op.(version := o.version);
    if o.newKey != [] && o.newKey != o.key {
      op := op.(newKey := Some(o.newKey));
    }
    op := op.(force := o.force);
    if o.request.Some? {
      var req := new P2PMessage();
      PopulateP2PMessage(req, o.request.value);
      assert req.Items() == Translate(o.request.value).operations;
      op := op.(p2pop := req);
      assert ItemOf(op).p2pop == Some(Translate(o.request.value));
    }
    assert ItemOf(op) == TranslateAll([o])[0];
    m.AddOperation(op);
  }
}
