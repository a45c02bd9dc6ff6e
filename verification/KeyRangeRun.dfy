/** Whole iterations over the keys of a drive, from `IterateKeyRange` to `KeyRangeEnd()`. */
module KeyRangeRuns {
  import opened Bytes
  import opened KeyStore
  import opened KeyRangeIterators

  /** How many frames of a size the keys fill, the last of them perhaps only in part. */
  function Frames(n: nat, size: nat): nat
    requires size > 0
  {
    (n + size - 1) / size
  }

  lemma FramesOfMultiple(k: nat, size: nat, last: nat)
    requires size > 0 && 0 < last <= size
    ensures Frames(size * k + last, size) == k + 1
  {
    assert size * k + last + size - 1 == size * (k + 1) + (last - 1);
    Divide(k + 1, size, last - 1);
  }

  lemma Divide(k: nat, size: nat, r: nat)
    requires r < size
    ensures (size * k + r) / size == k
  {
    var x := size * k + r;
    QuotientUnique(size, x / size - k, r - x % size);
  }

  lemma QuotientUnique(size: nat, d: int, r: int)
    requires size * d == r && r < size && -r < size
    ensures d == 0
  {
    Multiples(size, if d < 0 then -d else d);
  }

  lemma Multiples(size: nat, d: nat)
    ensures d == 0 || size * d >= size
  {}

  lemma NoFrames(size: nat)
    requires size > 0
    ensures Frames(0, size) == 0
  {
    Divide(0, size, size - 1);
  }

  /** More keys fill at least as many frames. */
  lemma FramesAtLeast(n: nat, size: nat, k: nat)
    requires size > 0 && n > size * k
    ensures Frames(n, size) >= k + 1
  {
    var x := n + size - 1 - size * (k + 1);
    assert n + size - 1 == size * (k + 1 + x / size) + x % size;
    Divide(k + 1 + x / size, size, x % size);
  }

  /** The next frame of a store that has not changed goes on in the range. */
  lemma NextFrame(r: seq<Key>, passed: seq<Key>, frame: seq<Key>, store: seq<Key>, b: Bounds, size: nat)
    requires Ascending(store) && r == Range(store, b)
    requires passed <= r && frame == Take(r[|passed|..], size) && frame != []
    ensures passed + frame <= r
    ensures Range(store, Left(b, passed + frame)) == r[|passed + frame|..]
    ensures |passed + frame| < |r| ==> |frame| == size
  {
    hide Less, Within, Ascending;
    var n := |passed + frame|;
    assert (passed + frame)[n - 1] == r[n - 1];
    RangeAfter(store, b, n);
  }

  /** None of the first requests is refused. */
  predicate Granted(refusals: seq<bool>, n: nat) {
    forall i :: 0 <= i < n && i < |refusals| ==> !refusals[i]
  }

  function After(refusals: seq<bool>, n: nat): seq<bool> {
    if n <= |refusals| then refusals[n..] else []
  }

  lemma FirstRequest(before: seq<bool>)
    ensures Later(before) == After(before, 1) && (Refused(before) <==> !Granted(before, 1))
  {}

  lemma GrantedSoFar(before: seq<bool>, n: nat, m: nat)
    ensures After(After(before, n), m) == After(before, n + m)
    ensures Granted(before, n) && Granted(After(before, n), m) <==> Granted(before, n + m)
  {
    var mid := After(before, n);
    if Granted(before, n) && Granted(mid, m) {
      forall i | 0 <= i < n + m && i < |before| ensures !before[i] {
        if i >= n {
          assert !mid[i - n];
        }
      }
    }
    if Granted(before, n + m) {
      forall i | 0 <= i < m && i < |mid| ensures !mid[i] {
        assert mid[i] == before[n + i];
      }
    }
  }

  /** How many keys the iterator has gone past. */
  ghost function Index(it: KeyRangeIterator): int
    reads it
  {
    |it.passed| + if it.eol then 0 else it.position
  }

  /** Where an iterator is that has made its requests to an unchanging store: `r` are the keys in the range. */
  ghost predicate At(it: KeyRangeIterator, r: seq<Key>, requests: nat)
    reads it
  {
    && it.Live() && it.frameSize > 0 && requests >= 1
    && it.passed <= r && it.keys.value == Take(r[|it.passed|..], it.frameSize)
    && it.eol == (it.keys.value == [])
    && (!it.eol ==> 0 <= it.position < |it.keys.value| && |it.passed| == it.frameSize * (requests - 1))
    && (it.eol ==> it.passed == r && requests == Frames(|r|, it.frameSize) + 1)
  }

  lemma AtStart(it: KeyRangeIterator, r: seq<Key>)
    requires it.Live() && it.frameSize > 0 && it.position == 0 && it.passed == []
    requires it.keys.value == Take(r, it.frameSize) && it.eol == (it.keys.value == [])
    ensures At(it, r, 1) && Index(it) == 0
  {
    assert r[0..] == r;
    NoFrames(it.frameSize);
  }

  lemma AtWithin(it: KeyRangeIterator, r: seq<Key>, requests: nat)
    requires At(it, r, requests)
    ensures 0 <= Index(it) <= |r| && (it.eol <==> Index(it) == |r|)
    ensures it.eol ==> requests == Frames(|r|, it.frameSize) + 1
    ensures !it.eol ==> requests <= Frames(|r|, it.frameSize)
  {
    if !it.eol {
      FramesAtLeast(|r|, it.frameSize, requests - 1);
    }
  }

  /** One round of the loop. */
  method Round(it: KeyRangeIterator, ghost r: seq<Key>, ghost requests: nat)
    returns (key: Key, ok: bool, ghost more: nat)
    requires it.Usable() && it.drive != null && At(it, r, requests) && !it.eol
    requires r == Range(it.drive.store, it.origin)
    modifies it, it.drive
    ensures it.Valid() && it.drive == old(it.drive) && it.drive.store == old(it.drive.store)
    ensures it.origin == old(it.origin) && it.frameSize == old(it.frameSize)
    ensures old(Index(it)) < |r| && key == r[old(Index(it))]
    ensures more <= 1 && it.drive.fetches == old(it.drive.fetches) + more
    ensures it.drive.refusals == After(old(it.drive.refusals), more)
    ensures ok <==> Granted(old(it.drive.refusals), more)
    ensures ok ==> At(it, r, requests + more) && Index(it) == old(Index(it)) + 1
    ensures !ok ==> more == 1
  {
    hide Ascending, Range, KeyRangeIterator.Sound, Frames, Left;
    var k := it.Deref();
    key := k.value;
    ghost var passed, frame := it.passed, it.keys.value;
    ghost var last := it.position + 1 == |frame|;
    assert key == r[|passed|..][it.position];
    var result := it.Increment();
    ok := result.Return?;
    more := if last then 1 else 0;
    if last && ok {
      NextFrame(r, passed, frame, it.drive.store, it.origin, it.frameSize);
      assert it.passed == passed + frame;
      assert it.frameSize * (requests - 1) + it.frameSize == it.frameSize * requests;
      if |passed + frame| == |r| {
        FramesOfMultiple(requests - 1, it.frameSize, |frame|);
      }
    }
  }

  /** How many requests the whole iteration makes: one for each frame, and one more. */
  function Requests(n: nat, size: nat): nat {
    1 + if size == 0 then 0 else Frames(n, size)
  }

  /**
   * The loop that users write.  If the store does not change and no request fails, the keys are exactly
   * those in the range, in order and once each, whatever the frame size; and there is one request for each
   * frame and one more.  Frames of no keys at all are the exception: they end the iteration at once.  If a
   * request fails, the keys up to there are the first ones in the range.
   */
  method Collect(drive: Drive, b: Bounds, frameSize: nat) returns (ok: bool, keys: seq<Key>)
    requires Ascending(drive.store)
    modifies drive
    ensures drive.store == old(drive.store)
    ensures var r := Range(drive.store, b); var requests := Requests(|r|, frameSize);
      && (ok <==> Granted(old(drive.refusals), requests))
      && (ok ==> drive.fetches == old(drive.fetches) + requests)
      && (ok ==> keys == if frameSize > 0 then r else [])
      && (!ok ==> keys <= r)
  {
    hide Range, Ascending, Left, KeyRangeIterator.Sound, Frames, Take, At, Index, After;
    ghost var r, before := Range(drive.store, b), drive.refusals;
    keys := [];
    FirstRequest(before);
    hide Granted, Later, Refused;
    var it := IterateKeyRange(drive, b, frameSize);
    if it == null {
      GrantedSoFar(before, 1, Requests(|r|, frameSize) - 1);
      return false, keys;
    }
    var end := new KeyRangeIterator.End();
    ghost var requests := 1;
    EmptyFrame(r);
    if frameSize > 0 {
      AtStart(it, r);
      AtWithin(it, r, requests);
    }
    while !it.Equals(end)
      invariant it.Valid() && it.drive == drive && it.frameSize == frameSize && it.origin == b
      invariant fresh(it) && fresh(end) && end.Valid() && end.eol && end.position == -1
      invariant it != end && drive.store == old(drive.store)
      invariant frameSize == 0 ==> it.eol && keys == [] && requests == 1
      invariant frameSize > 0 ==>
        && At(it, r, requests) && 0 <= Index(it) <= |r| && keys == r[..Index(it)]
        && (it.eol <==> Index(it) == |r|)
      invariant drive.fetches == old(drive.fetches) + requests
      invariant drive.refusals == After(before, requests) && Granted(before, requests)
      decreases |r| - |keys|
    {
      AtWithin(it, r, requests);
      var key, ok', more := Round(it, r, requests);
      keys := keys + [key];
      GrantedSoFar(before, requests, more);
      if !ok' {
        GrantedSoFar(before, requests + 1, Frames(|r|, frameSize) - requests);
        return false, keys;
      }
      requests := requests + more;
      AtWithin(it, r, requests);
    }
    if frameSize > 0 {
      AtWithin(it, r, requests);
    }
    return true, keys;
  }

  lemma EmptyFrame(r: seq<Key>)
    ensures Take(r, 0) == []
  {}

  // ---------------------------------------------------------------------- a store that changes

  lemma FetchedPrefix(b: Bounds, seen: seq<Key>, stores: seq<seq<Key>>, n: nat)
    requires Fetched(b, seen, stores) && n <= |seen|
    ensures Fetched(b, seen[..n], stores)
  {
    hide Less, Within;
    assert forall k <- seen[..n] :: k in seen;
  }

  lemma NothingFetched(b: Bounds)
    ensures Fetched(b, [], [])
  {}

  /** How many keys are left if the store does not change any more. */
  ghost function Remaining(it: KeyRangeIterator): nat
    requires it.drive != null
    reads it, it.drive
  {
    if it.eol then 0 else 1 + |Range(it.drive.store, Left(it.origin, it.Seen()))|
  }

  lemma FrameLeavesLess(store: seq<Key>, b: Bounds, seen: seq<Key>, frame: seq<Key>, size: nat)
    requires Ascending(store) && frame == Take(Range(store, Left(b, seen)), size) && frame != []
    ensures |Range(store, Left(b, seen + frame))| < |Range(store, Left(b, seen))|
  {
    hide Ascending, Range;
    assert (seen + frame)[|seen + frame| - 1] == frame[|frame| - 1];
    RangeAfter(store, Left(b, seen), |frame|);
  }

  /** The keys are what has been collected from an iterator that is still usable. */
  ghost predicate Collected(it: KeyRangeIterator, keys: seq<Key>)
    reads it
  {
    it.Live() && keys == it.passed + if it.eol then [] else Start(it.keys.value, it.position)
  }

  function Start(keys: seq<Key>, n: int): seq<Key> {
    if 0 <= n <= |keys| then keys[..n] else keys
  }

  lemma CollectedSoFar(it: KeyRangeIterator, keys: seq<Key>)
    requires it.Valid() && Collected(it, keys)
    ensures Fetched(it.origin, keys, it.stores)
    ensures it.eol && it.frameSize > 0 ==> AllSeen(it.origin, keys, it.stores)
  {
    hide Fetched, AllSeen, NoneMissed;
    assert keys == it.Seen()[..|keys|];
    FetchedPrefix(it.origin, it.Seen(), it.stores, |keys|);
    assert it.eol ==> keys == it.passed;
  }

  /** One round of the loop. */
  method RoundWhileChanging(it: KeyRangeIterator, ghost keys: seq<Key>) returns (key: Key, ok: bool)
    requires it.Usable() && it.drive != null && Collected(it, keys) && !it.eol
    modifies it, it.drive
    ensures it.Valid() && it.drive == old(it.drive) && it.drive.store == old(it.drive.store)
    ensures it.origin == old(it.origin) && it.frameSize == old(it.frameSize)
    ensures ok ==> Collected(it, keys + [key]) && |keys| + 1 <= |it.Seen()|
    ensures !ok ==> Fetched(it.origin, keys + [key], old(it.stores))
    ensures ok ==> it.stores == old(it.stores) || it.stores == old(it.stores) + [it.drive.store]
    ensures ok ==> |it.stores| - |old(it.stores)| == it.drive.fetches - old(it.drive.fetches)
    ensures !ok ==> it.drive.fetches == old(it.drive.fetches) + 1
    ensures ok ==> Remaining(it) < old(Remaining(it)) || (Remaining(it) == old(Remaining(it)) && it.Seen() == old(it.Seen()))
  {
    hide Ascending, Range, KeyRangeIterator.Sound, Left, Take, Fetched;
    var k := it.Deref();
    key := k.value;
    ghost var last := it.position + 1 == |it.keys.value|;
    ghost var seen, stores := it.Seen(), it.stores;
    assert keys + [key] == seen[..|keys| + 1];
    SeenIsFetched(it);
    FetchedPrefix(it.origin, seen, stores, |keys| + 1);
    var result := it.Increment();
    ok := result.Return?;
    if last && ok {
      assert keys + [key] == seen;
      if !it.eol {
        FrameLeavesLess(it.drive.store, it.origin, seen, it.keys.value, it.frameSize);
      }
    }
  }

  lemma SeenIsFetched(it: KeyRangeIterator)
    requires it.Valid() && it.Live()
    ensures Fetched(it.origin, it.Seen(), it.stores)
  {
    hide Fetched;
  }

  /** The stores are the ones that the drive had at these times, one after the other. */
  ghost predicate AtTimes(stores: seq<seq<Key>>, times: seq<nat>, history: seq<seq<Key>>) {
    && |times| == |stores|
    && (forall i :: 0 <= i < |times| ==> times[i] < |history| && stores[i] == history[times[i]])
    && (forall i, j :: 0 <= i < j < |times| ==> times[i] <= times[j])
  }

  /** The first request was made at once, and the last one when there had been at most `now` changes. */
  ghost predicate Timeline(stores: seq<seq<Key>>, times: seq<nat>, history: seq<seq<Key>>, now: nat) {
    AtTimes(stores, times, history) && now < |history| && times != [] && times[0] == 0 && times[|times| - 1] <= now
  }

  lemma TimelineStarts(history: seq<seq<Key>>)
    requires history != []
    ensures AtTimes([], [], history) && Timeline([history[0]], [0], history, 0)
  {}

  lemma TimelineIsOrdered(stores: seq<seq<Key>>, times: seq<nat>, history: seq<seq<Key>>, now: nat)
    requires Timeline(stores, times, history, now)
    ensures AtTimes(stores, times, history) && (times != [] ==> times[0] == 0)
  {}

  /** Time goes on, and perhaps there is one more request. */
  lemma TimelineGoesOn(
    stores: seq<seq<Key>>, stores': seq<seq<Key>>, times: seq<nat>, history: seq<seq<Key>>, now: nat, now': nat)
    returns (times': seq<nat>)
    requires Timeline(stores, times, history, now) && now <= now' < |history|
    requires stores' == stores || stores' == stores + [history[now']]
    ensures Timeline(stores', times', history, now')
  {
    times' := if stores' == stores then times else times + [now'];
  }

  /**
   * The same loop while somebody else changes the store: before each step it may become the next of the
   * `changes`.  `stores` are the stores that were asked, one for each successful request, and `times` how many
   * changes there had been by then.  The keys still come in strictly ascending order, from within the bounds,
   * each from one of those stores; and if the end is reached, every key in the range that was in the store at
   * each request is among them.
   */
  method CollectWhileChanging(drive: Drive, b: Bounds, frameSize: nat, changes: seq<seq<Key>>)
    returns (ok: bool, keys: seq<Key>, ghost stores: seq<seq<Key>>, ghost times: seq<nat>)
    requires Ascending(drive.store) && forall store <- changes :: Ascending(store)
    modifies drive
    ensures Fetched(b, keys, stores)
    ensures drive.fetches == old(drive.fetches) + |stores| + if ok then 0 else 1
    ensures AtTimes(stores, times, [old(drive.store)] + changes) && (times != [] ==> times[0] == 0)
    ensures ok && frameSize > 0 ==> AllSeen(b, keys, stores)
  {
    hide Ascending, Range, Left, Take, Fetched, AllSeen, KeyRangeIterator.Sound, Remaining, AtTimes;
    ghost var history := [drive.store] + changes;
    keys, stores, times := [], [], [];
    NothingFetched(b);
    TimelineStarts(history);
    var it := IterateKeyRange(drive, b, frameSize);
    if it == null {
      return false, keys, stores, times;
    }
    var end := new KeyRangeIterator.End();
    var i := 0;
    stores, times := it.stores, [0];
    assert Collected(it, keys);
    hide Collected, Timeline;
    while !it.Equals(end)
      invariant i <= |changes| && it.drive == drive && it.frameSize == frameSize && it.origin == b
      invariant it.Usable() && it.Live()
      invariant fresh(it) && fresh(end) && end.Valid() && end.eol && end.position == -1
      invariant it != end && stores == it.stores && Collected(it, keys)
      invariant drive.fetches == old(drive.fetches) + |stores|
      invariant Timeline(stores, times, history, i) && drive.store == history[i]
      decreases |changes| - i, Remaining(it), |it.Seen()| - |keys|
    {
      ghost var now := i;
      if i < |changes| {
        drive.store := changes[i];
        i := i + 1;
      }
      var key, more := RoundWhileChanging(it, keys);
      keys := keys + [key];
      if !more {
        TimelineIsOrdered(stores, times, history, now);
        return false, keys, stores, times;
      }
      times := TimelineGoesOn(stores, it.stores, times, history, now, i);
      stores := it.stores;
    }
    CollectedSoFar(it, keys);
    TimelineIsOrdered(stores, times, history, i);
    return true, keys, stores, times;
  }
}
