/** Keys in the drive's order, and ranges of a sorted key store. */
module KeyStore {
  import opened Bytes

  type Key = bytes

  /** A store: keys in strictly ascending order. */
  predicate Ascending(s: seq<Key>) {
    forall i, j :: 0 <= i < j < |s| ==> Less(s[i], s[j])
  }

  /** The bounds of a range, each of which may be part of it or not. */
  datatype Bounds = Bounds(first: Key, firstIncluded: bool, last: Key, lastIncluded: bool)

  predicate Within(k: Key, b: Bounds) {
    && (Less(b.first, k) || (b.firstIncluded && k == b.first))
    && (Less(k, b.last) || (b.lastIncluded && k == b.last))
  }

  /** A key is within bounds if it is before neither of them and they are included where it is one of them. */
  lemma WithinIff(k: Key, b: Bounds)
    ensures Within(k, b) <==>
      && !Less(k, b.first) && (k == b.first ==> b.firstIncluded)
      && !Less(b.last, k) && (k == b.last ==> b.lastIncluded)
  {
    LessTotal(b.first, k);
    LessTotal(k, b.last);
    LessIrreflexive(k);
    if Less(k, b.first) && Less(b.first, k) {
      LessTransitive(k, b.first, k);
    }
    if Less(k, b.last) && Less(b.last, k) {
      LessTransitive(k, b.last, k);
    }
  }

  /** The keys of a store within the bounds, in order: the plain range filter. */
  function Range(store: seq<Key>, b: Bounds): seq<Key> {
    if store == [] then []
    else (if Within(store[0], b) then [store[0]] else []) + Range(store[1..], b)
  }

  function Take(s: seq<Key>, n: nat): (t: seq<Key>)
    ensures t <= s && |t| == if n < |s| then n else |s|
  {
    if |s| <= n then s else s[..n]
  }

  lemma {:induction false} RangeMembers(store: seq<Key>, b: Bounds)
    ensures forall k :: k in Range(store, b) <==> k in store && Within(k, b)
  {
    if store != [] {
      RangeMembers(store[1..], b);
      assert store == [store[0]] + store[1..];
    }
  }

  lemma {:induction false} RangeAscending(store: seq<Key>, b: Bounds)
    requires Ascending(store)
    ensures Ascending(Range(store, b))
  {
    if store != [] {
      var rest := store[1..];
      RangeAscending(rest, b);
      RangeMembers(rest, b);
      forall k | k in Range(rest, b) ensures Less(store[0], k) {
        var i :| 0 <= i < |rest| && rest[i] == k;
        assert store[i + 1] == k;
      }
    }
  }

  /** The bounds that are left once everything up to `k` has been seen. */
  function After(b: Bounds, k: Key): Bounds {
    b.(first := k, firstIncluded := false)
  }

  /** Two ascending sequences with the same members are the same. */
  lemma {:induction false} AscendingUnique(a: seq<Key>, b: seq<Key>)
    requires Ascending(a) && Ascending(b)
    requires forall k :: k in a <==> k in b
    ensures a == b
  {
    hide Less, Ascending;
    if b != [] {
      assert b[0] in b && b[0] in a;
    }
    if a != [] {
      assert a[0] in a && a[0] in b;
      assert b[0] in b && b[0] in a;
      FirstIsLeast(a, b[0]);
      FirstIsLeast(b, a[0]);
      if a[0] != b[0] {
        LessTransitive(a[0], b[0], a[0]);
        LessIrreflexive(a[0]);
      }
      Headless(a);
      Headless(b);
      AscendingUnique(a[1..], b[1..]);
      assert a == [a[0]] + a[1..] && b == [b[0]] + b[1..];
    }
  }

  lemma FirstIsLeast(a: seq<Key>, k: Key)
    requires Ascending(a) && k in a
    ensures a[0] == k || Less(a[0], k)
  {
    hide Less;
    var i :| 0 <= i < |a| && a[i] == k;
  }

  lemma Headless(a: seq<Key>)
    requires Ascending(a) && a != []
    ensures Ascending(a[1..]) && forall k :: k in a[1..] <==> k in a && k != a[0]
  {
    assert a == [a[0]] + a[1..];
    LessIrreflexive(a[0]);
  }

  /** What is left of a range after its first keys is the range that starts after the last of them. */
  lemma RangeAfter(store: seq<Key>, b: Bounds, n: nat)
    requires Ascending(store) && 0 < n <= |Range(store, b)|
    ensures Range(store, After(b, Range(store, b)[n - 1])) == Range(store, b)[n..]
  {
    var r := Range(store, b);
    var k := r[n - 1];
    var rest := Range(store, After(b, k));
    RangeAscending(store, b);
    RangeAscending(store, After(b, k));
    RangeMembers(store, b);
    RangeMembers(store, After(b, k));
    assert k in r;
    hide Less, Range;
    forall x ensures x in rest <==> x in r[n..] {
      if x in rest {
        LessFrom(b, k, x);
        assert x in r;
        LaterMember(r, n, x);
      }
      if x in r[n..] {
        var i :| n <= i < |r| && r[i] == x;
        assert Less(r[n - 1], r[i]);
        assert x in r;
        assert x in store && Within(x, After(b, k));
      }
    }
    assert Ascending(r[n..]);
    AscendingUnique(rest, r[n..]);
  }

  lemma LaterMember(r: seq<Key>, n: nat, x: Key)
    requires Ascending(r) && 0 < n <= |r| && x in r && Less(r[n - 1], x)
    ensures x in r[n..]
  {
    hide Less;
    var i :| 0 <= i < |r| && r[i] == x;
    if i < n {
      if i < n - 1 {
        LessTransitive(x, r[n - 1], x);
      }
      LessIrreflexive(x);
    } else {
      assert r[n..][i - n] == x;
    }
  }

  /** The bounds that are left after the keys in `seen`. */
  function Left(origin: Bounds, seen: seq<Key>): Bounds {
    if seen == [] then origin else After(origin, seen[|seen| - 1])
  }

  /** Keys that were fetched in order from within the bounds, each from one of the stores. */
  predicate Fetched(origin: Bounds, seen: seq<Key>, stores: seq<seq<Key>>) {
    && Ascending(seen)
    && forall k <- seen :: Within(k, origin) && exists store <- stores :: k in store
  }

  /** The key is within the bounds and was in the store every time. */
  predicate Stable(k: Key, origin: Bounds, stores: seq<seq<Key>>) {
    Within(k, origin) && forall store <- stores :: k in store
  }

  /** No stable key has been missed: it has been seen, or it comes after everything seen. */
  ghost predicate NoneMissed(origin: Bounds, seen: seq<Key>, stores: seq<seq<Key>>) {
    forall k :: Stable(k, origin, stores) ==> k in seen || seen == [] || Less(seen[|seen| - 1], k)
  }

  /** Every stable key has been seen. */
  ghost predicate AllSeen(origin: Bounds, seen: seq<Key>, stores: seq<seq<Key>>) {
    forall k :: Stable(k, origin, stores) ==> k in seen
  }

  /** One more frame, fetched from whatever the store is now, goes on where the ones before it stopped. */
  lemma FrameFollows(origin: Bounds, seen: seq<Key>, stores: seq<seq<Key>>, store: seq<Key>, size: nat)
    requires Fetched(origin, seen, stores) && Ascending(store)
    ensures Fetched(origin, seen + Take(Range(store, Left(origin, seen)), size), stores + [store])
  {
    var b := Left(origin, seen);
    var all := Range(store, b);
    var frame := Take(all, size);
    RangeAscending(store, b);
    RangeMembers(store, b);
    forall k <- frame ensures k in store && Within(k, origin) && (seen != [] ==> Less(seen[|seen| - 1], k)) {
      assert k in all;
      if seen != [] {
        assert seen[|seen| - 1] in seen;
        LessFrom(origin, seen[|seen| - 1], k);
      }
    }
    AscendingConcat(seen, frame);
    assert store in stores + [store];
  }

  lemma AscendingConcat(a: seq<Key>, b: seq<Key>)
    requires Ascending(a) && Ascending(b)
    requires a != [] ==> forall k <- b :: Less(a[|a| - 1], k)
    ensures Ascending(a + b)
  {
    hide Less;
    forall i, j | 0 <= i < |a| && 0 <= j < |b| ensures Less(a[i], b[j]) {
      assert b[j] in b;
      if i < |a| - 1 {
        LessTransitive(a[i], a[|a| - 1], b[j]);
      }
    }
  }

  lemma LessFrom(b: Bounds, k: Key, x: Key)
    requires Within(k, b) && Within(x, After(b, k))
    ensures Within(x, b) && Less(k, x)
  {
    if Less(b.first, k) {
      LessTransitive(b.first, k, x);
    }
  }

  /** A frame misses nothing; and an empty one, if it could have held a key, shows that nothing is left. */
  lemma FrameMissesNothing(origin: Bounds, seen: seq<Key>, stores: seq<seq<Key>>, store: seq<Key>, size: nat)
    requires Fetched(origin, seen, stores) && NoneMissed(origin, seen, stores) && Ascending(store) && size > 0
    ensures var frame := Take(Range(store, Left(origin, seen)), size);
      && NoneMissed(origin, seen + frame, stores + [store])
      && (frame == [] ==> AllSeen(origin, seen, stores + [store]))
  {
    var b := Left(origin, seen);
    var all := Range(store, b);
    var frame := Take(all, size);
    RangeAscending(store, b);
    RangeMembers(store, b);
    forall k | Stable(k, origin, stores + [store])
      ensures k in seen || (frame != [] && (k in frame || Less(frame[|frame| - 1], k)))
    {
      assert forall s <- stores :: s in stores + [store];
      assert store in stores + [store];
      assert Stable(k, origin, stores);
      if k !in seen {
        assert k in all;
        var i :| 0 <= i < |all| && all[i] == k;
        if i < |frame| {
          assert frame[i] == k;
        } else {
          assert Less(all[|frame| - 1], all[i]);
        }
      }
    }
  }
}
