/** The paging cursor over the keys of a drive. */
module KeyRangeIterators {
  import opened KeyStore
  import opened Wrappers

  /** Whether the next request fails, and what comes after it. */
  predicate Refused(refusals: seq<bool>) {
    refusals != [] && refusals[0]
  }

  function Later(refusals: seq<bool>): seq<bool> {
    if refusals == [] then [] else refusals[1..]
  }

  /** The drive, as the iterator sees it; its store may change between any two calls. */
  class Drive {
    var store: seq<Key>
    /** Which of the next requests fail; the ones after that do not. */
    var refusals: seq<bool>
    ghost var fetches: nat

    constructor (store: seq<Key>, refusals: seq<bool>)
      ensures this.store == store && this.refusals == refusals && fetches == 0
    {
      this.store, this.refusals, fetches := store, refusals, 0;
    }

    /** The first keys in the range, at most `max` of them, in ascending order; nothing on an error. */
    method GetKeyRange(first: Key, firstIncluded: bool, last: Key, lastIncluded: bool, max: nat)
      returns (keys: Option<seq<Key>>)
      modifies this`refusals, this`fetches
      ensures fetches == old(fetches) + 1
      ensures keys.Some? ==> keys.value == Take(Range(store, Bounds(first, firstIncluded, last, lastIncluded)), max)
      ensures keys.None? <==> Refused(old(refusals))
      ensures refusals == Later(old(refusals))
    {
      fetches := fetches + 1;
      var refused := Refused(refusals);
      refusals := Later(refusals);
      keys := if refused then None
        else Some(Take(Range(store, Bounds(first, firstIncluded, last, lastIncluded)), max));
    }
  }

  /** The exceptions of the iterator. */
  datatype Result<T> = Return(value: T) | BadState | OutOfBounds | RequestFailed

  class KeyRangeIterator {
    var drive: Drive?
    var first: Key
    var firstIncluded: bool
    var last: Key
    var lastIncluded: bool
    var frameSize: nat
    var position: int
    var eol: bool
    var keys: Option<seq<Key>>
    /** The bounds asked for, the keys of the frames before the current one, the store at each fetch. */
    ghost var origin: Bounds
    ghost var passed: seq<Key>
    ghost var stores: seq<seq<Key>>

    /** All keys fetched so far. */
    ghost function Seen(): seq<Key>
      reads this
    {
      passed + if keys.Some? then keys.value else []
    }

    /** Usable: after a failed request or for `KeyRangeEnd()` it is not. */
    predicate Live()
      reads this
    {
      position != -1 && keys.Some?
    }

    /**
     * What holds however the store changes: the keys are in order and within the bounds, and (unless frames
     * are empty by request) no stable key is missed, and none is left when the end is reached.
     */
    ghost predicate Sound()
      reads this
    {
      && position >= -1
      && (Live() ==>
        && drive != null && eol == (keys.value == [])
        && Bounds(first, firstIncluded, last, lastIncluded) == Left(origin, passed)
        && Fetched(origin, Seen(), stores)
        && (frameSize > 0 ==> NoneMissed(origin, Seen(), stores) && (eol ==> AllSeen(origin, passed, stores))))
    }

    ghost predicate Valid()
      reads this
    {
      Sound() && (Live() && !eol ==> position < |keys.value|)
    }

    /** `KeyRangeEnd()`. */
    constructor End()
      ensures Valid() && eol && !Live() && position == -1
    {
      drive, first, firstIncluded, last, lastIncluded := null, [], false, [], false;
      frameSize, position, eol, keys := 1, -1, true, None;
      origin, passed, stores := Bounds([], false, [], false), [], [];
    }

    /** The fields of a new iterator, before its first frame. */
    constructor New(drive: Drive, frameSize: nat, bounds: Bounds)
      ensures Valid() && !Live() && !eol && position == -1 && keys == None
      ensures this.drive == drive && this.frameSize == frameSize
      ensures Bounds(first, firstIncluded, last, lastIncluded) == bounds
      ensures origin == bounds && passed == [] && stores == []
    {
      this.drive, first, firstIncluded := drive, bounds.first, bounds.firstIncluded;
      last, lastIncluded := bounds.last, bounds.lastIncluded;
      this.frameSize, position, eol, keys := frameSize, -1, false, None;
      origin, passed, stores := bounds, [], [];
    }

    /** The copy constructor: a separate iterator at the same place. */
    constructor Copy(rhs: KeyRangeIterator)
      requires rhs.Valid()
      ensures Valid() && Same(rhs)
    {
      drive, first, firstIncluded, last, lastIncluded :=
        rhs.drive, rhs.first, rhs.firstIncluded, rhs.last, rhs.lastIncluded;
      frameSize, position, eol, keys := rhs.frameSize, rhs.position, rhs.eol, rhs.keys;
      origin, passed, stores := rhs.origin, rhs.passed, rhs.stores;
    }

    ghost predicate Same(rhs: KeyRangeIterator)
      reads this, rhs
    {
      && drive == rhs.drive && first == rhs.first && firstIncluded == rhs.firstIncluded
      && last == rhs.last && lastIncluded == rhs.lastIncluded && frameSize == rhs.frameSize
      && position == rhs.position && eol == rhs.eol && keys == rhs.keys
      && origin == rhs.origin && passed == rhs.passed && stores == rhs.stores
    }

    /** Exactly one of the two is used up, and the other still has a key: the source reads past a vector. */
    predicate OneUsedUp(rhs: KeyRangeIterator)
      reads this, rhs
    {
      Live() && rhs.Live() && eol != rhs.eol
    }

    /** `operator==`. */
    predicate Equals(rhs: KeyRangeIterator)
      requires Valid() && rhs.Valid() && !OneUsedUp(rhs)
      reads this, rhs
    {
      || (rhs.eol && eol)
      || (Live() && rhs.Live() && rhs.keys.value[rhs.position] == keys.value[position])
    }

    /** An iterator equals `KeyRangeEnd()` exactly when it has reached the end. */
    lemma EqualsEnd(end: KeyRangeIterator)
      requires Valid() && end.Valid() && end.eol && end.position == -1
      ensures Equals(end) <==> eol
    {}

    /** Two iterators that still have keys are equal if and only if they are at the same key. */
    lemma EqualsIffSameKey(rhs: KeyRangeIterator)
      requires Valid() && rhs.Valid() && Live() && rhs.Live() && !eol && !rhs.eol
      ensures Equals(rhs) <==> keys.value[position] == rhs.keys.value[rhs.position]
    {}

    /** A usable iterator equals a copy of it; a bad one that is not at the end equals nothing. */
    lemma EqualsCopy(rhs: KeyRangeIterator)
      requires Valid() && rhs.Valid()
      ensures Same(rhs) && (Live() || eol) ==> Equals(rhs)
      ensures !Live() && !eol ==> !Equals(rhs)
    {}

    /** Another frame, which starts after the last key of this one. */
    method NextFrame() returns (ok: bool)
      requires Sound() && drive != null && Ascending(drive.store)
      requires (!Live() && keys.None? && passed == [] && stores == [] && !eol
          && Bounds(first, firstIncluded, last, lastIncluded) == origin)
        || (Live() && !eol)
      modifies this`first, this`firstIncluded, this`position, this`eol, this`keys, this`passed, this`stores
      modifies drive`refusals, drive`fetches
      ensures Valid()
      ensures drive.fetches == old(drive.fetches) + 1 && (ok <==> !Refused(old(drive.refusals)))
      ensures drive.refusals == Later(old(drive.refusals))
      ensures !ok ==> position == -1 && !Live() && eol == old(eol)
      ensures ok ==>
        && Live() && position == 0 && passed == old(Seen()) && stores == old(stores) + [drive.store]
        && keys == Some(Take(Range(drive.store, Left(origin, passed)), frameSize))
    {
      hide Fetched, NoneMissed, AllSeen, Range, Take, Ascending;
      ghost var seen := Seen();
      MoveBoundary();
      hide Left, Seen;
      var result := drive.GetKeyRange(first, firstIncluded, last, lastIncluded, frameSize);
      if result.None? {
        position := -1;
        return false;
      }
      FrameFollows(origin, seen, stores, drive.store, frameSize);
      if frameSize > 0 {
        FrameMissesNothing(origin, seen, stores, drive.store, frameSize);
      }
      Load(result.value, seen, drive.store);
      return true;
    }

    /** The last part of `NextFrame`: the frame has come. */
    method Load(frame: seq<Key>, ghost seen: seq<Key>, ghost store: seq<Key>)
      requires drive != null && !eol && Bounds(first, firstIncluded, last, lastIncluded) == Left(origin, seen)
      requires Fetched(origin, seen + frame, stores + [store])
      requires frameSize > 0 ==> NoneMissed(origin, seen + frame, stores + [store])
      requires frameSize > 0 && frame == [] ==> AllSeen(origin, seen, stores + [store])
      modifies this`position, this`eol, this`keys, this`passed, this`stores
      ensures Valid() && Live() && position == 0
      ensures keys == Some(frame) && passed == seen && stores == old(stores) + [store]
    {
      hide Fetched, NoneMissed, AllSeen, Left;
      keys := Some(frame);
      passed, stores := seen, stores + [store];
      position := 0;
      if |keys.value| == 0 {
        eol := true;
      }
    }

    /** The first part of `NextFrame`: unless this is the first frame, start after the last key. */
    method MoveBoundary()
      requires Sound() && drive != null
      requires (!Live() && keys.None? && passed == [] && Bounds(first, firstIncluded, last, lastIncluded) == origin)
        || (Live() && !eol)
      modifies this`first, this`firstIncluded
      ensures Bounds(first, firstIncluded, last, lastIncluded) == Left(origin, Seen())
    {
      if position != -1 && keys.Some? {
        first := keys.value[|keys.value| - 1];
        firstIncluded := false;
      }
    }

    /** Goes on to the next key; the store is asked only for the key after the last one of a frame. */
    method Advance() returns (ok: bool)
      requires Valid() && Live() && drive != null && Ascending(drive.store)
      modifies this`first, this`firstIncluded, this`position, this`eol, this`keys, this`passed, this`stores
      modifies drive`refusals, drive`fetches
      ensures Valid()
      ensures !ok ==> position == -1 && eol == old(eol)
      ensures ok ==> Live()
      ensures old(position) + 1 != |old(keys).value| ==>
        && ok && position == old(position) + 1 && drive.fetches == old(drive.fetches)
        && drive.refusals == old(drive.refusals)
        && keys == old(keys) && passed == old(passed) && stores == old(stores) && eol == old(eol)
      ensures old(position) + 1 == |old(keys).value| ==>
        && drive.fetches == old(drive.fetches) + 1 && (ok <==> !Refused(old(drive.refusals)))
        && drive.refusals == Later(old(drive.refusals))
        && (ok ==> position == 0 && passed == old(Seen()) && stores == old(stores) + [drive.store])
        && (ok ==> keys == Some(Take(Range(drive.store, Left(origin, passed)), frameSize)))
    {
      hide Fetched, NoneMissed, AllSeen, Range, Take, Ascending;
      position := position + 1;
      ok := true;
      if position == |keys.value| {
        ok := NextFrame();
      }
    }

    /** Any use of a bad iterator throws and changes nothing. */
    ghost predicate Usable()
      reads this, drive
    {
      Valid() && (drive != null ==> Ascending(drive.store))
    }

    /** The drive, unless there is none. */
    function Drives(): set<Drive>
      reads this
    {
      if drive == null then {} else {drive}
    }

    /** `++it`: past the end it asks for nothing more and stays at the end. */
    method Increment() returns (result: Result<()>)
      requires Usable()
      modifies this`first, this`firstIncluded, this`position, this`eol, this`keys, this`passed, this`stores
      modifies Drives()
      ensures Valid() && drive == old(drive) && (drive != null ==> drive.store == old(drive.store))
      ensures result == if !old(Live()) then BadState else if Live() then Return(()) else RequestFailed
      ensures result.Return? ==> Live()
      ensures old(Live() && eol) ==> result.Return? && eol && drive.fetches == old(drive.fetches)
      ensures result.BadState? ==> position == old(position) && keys == old(keys) && eol == old(eol)
      ensures result.BadState? && drive != null ==>
        drive.fetches == old(drive.fetches) && drive.refusals == old(drive.refusals)
      ensures old(Live()) && old(position + 1 != |keys.value|) ==>
        && result.Return? && position == old(position) + 1 && drive.fetches == old(drive.fetches)
        && drive.refusals == old(drive.refusals)
        && keys == old(keys) && passed == old(passed) && stores == old(stores) && eol == old(eol)
      ensures old(Live()) && old(position + 1 == |keys.value|) ==>
        && drive.fetches == old(drive.fetches) + 1 && (result.Return? <==> !Refused(old(drive.refusals)))
        && drive.refusals == Later(old(drive.refusals))
        && (result.Return? ==>
          && position == 0 && passed == old(Seen()) && stores == old(stores) + [drive.store]
          && keys == Some(Take(Range(drive.store, Left(origin, passed)), frameSize)) && eol == (keys.value == []))
    {
      if position == -1 || keys.None? {
        return BadState;
      }
      var ok := Advance();
      return if ok then Return(()) else RequestFailed;
    }

    /** `it++`: the copy that is returned stays where the iterator was, whatever happens to the iterator. */
    method PostIncrement() returns (result: Result<()>, copy: KeyRangeIterator?)
      requires Usable()
      modifies this`first, this`firstIncluded, this`position, this`eol, this`keys, this`passed, this`stores
      modifies Drives()
      ensures Valid() && drive == old(drive) && (drive != null ==> drive.store == old(drive.store))
      ensures result == if !old(Live()) then BadState else if Live() then Return(()) else RequestFailed
      ensures copy != null <==> result.Return?
      ensures copy != null ==>
        && fresh(copy) && copy.Valid() && copy.Live()
        && copy.drive == drive && copy.position == old(position) && copy.keys == old(keys) && copy.eol == old(eol)
        && Bounds(copy.first, copy.firstIncluded, copy.last, copy.lastIncluded)
          == old(Bounds(first, firstIncluded, last, lastIncluded))
        && copy.passed == old(passed) && copy.stores == old(stores)
        && copy.frameSize == frameSize && copy.origin == origin
    {
      hide Fetched, NoneMissed, AllSeen, Range, Take, Ascending, Left;
      if position == -1 || keys.None? {
        return BadState, null;
      }
      copy := new KeyRangeIterator.Copy(this);
      var ok := Advance();
      if !ok {
        return RequestFailed, null;
      }
      return Return(()), copy;
    }

    /** `*it`. */
    method Deref() returns (result: Result<Key>)
      requires Valid()
      ensures result.BadState? <==> !Live()
      ensures result.OutOfBounds? <==> Live() && eol
      ensures result.Return? <==> Live() && !eol
      ensures result.Return? ==>
        && 0 <= position < |keys.value| && result.value == keys.value[position] && Within(result.value, origin)
      ensures !result.RequestFailed?
    {
      if position == -1 || keys.None? {
        return BadState;
      }
      if eol {
        return OutOfBounds;
      }
      assert Seen()[|passed| + position] == keys.value[position];
      return Return(keys.value[position]);
    }

    /** `operator=`. */
    method Assign(rhs: KeyRangeIterator)
      requires Valid() && rhs.Valid()
      modifies this
      ensures Valid() && Same(rhs) && rhs.Valid()
    {
      hide Sound, Valid;
      if rhs != this {
        CopyRange(rhs);
        CopyPlace(rhs);
        SameIsValid(rhs);
      }
    }

    method CopyRange(rhs: KeyRangeIterator)
      requires rhs != this
      modifies this`drive, this`first, this`firstIncluded, this`last, this`lastIncluded, this`frameSize
      ensures drive == rhs.drive && first == rhs.first && firstIncluded == rhs.firstIncluded
      ensures last == rhs.last && lastIncluded == rhs.lastIncluded && frameSize == rhs.frameSize
    {
      drive, first, firstIncluded := rhs.drive, rhs.first, rhs.firstIncluded;
      last, lastIncluded, frameSize := rhs.last, rhs.lastIncluded, rhs.frameSize;
    }

    method CopyPlace(rhs: KeyRangeIterator)
      requires rhs != this
      modifies this`position, this`eol, this`keys, this`origin, this`passed, this`stores
      ensures position == rhs.position && eol == rhs.eol && keys == rhs.keys
      ensures origin == rhs.origin && passed == rhs.passed && stores == rhs.stores
    {
      position, eol := rhs.position, rhs.eol;
      keys := None;
      if rhs.keys.Some? {
        keys := rhs.keys;
      }
      origin, passed, stores := rhs.origin, rhs.passed, rhs.stores;
    }

    lemma SameIsValid(rhs: KeyRangeIterator)
      requires rhs.Valid() && Same(rhs)
      ensures Valid()
    {
      hide Fetched, NoneMissed, AllSeen, Left;
      assert Seen() == rhs.Seen();
    }
  }

  /** `IterateKeyRange`: an iterator on the first key of the range, unless the first request fails. */
  method IterateKeyRange(drive: Drive, b: Bounds, frameSize: nat) returns (it: KeyRangeIterator?)
    requires Ascending(drive.store)
    modifies drive`refusals, drive`fetches
    ensures drive.fetches == old(drive.fetches) + 1 && drive.refusals == Later(old(drive.refusals))
    ensures it == null <==> Refused(old(drive.refusals))
    ensures it != null ==>
      && fresh(it) && it.Valid() && it.Live() && it.drive == drive && it.frameSize == frameSize
      && it.origin == b && it.position == 0 && it.passed == [] && it.stores == [drive.store]
      && it.keys == Some(Take(Range(drive.store, b), frameSize)) && it.eol == (it.keys.value == [])
  {
    it := new KeyRangeIterator.New(drive, frameSize, b);
    var ok := it.NextFrame();
    if !ok {
      it := null;
    }
  }
}
