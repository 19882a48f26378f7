/** removeOutdatedRecords: the sweep over every slot that removes the entries whose last write
    is at least timeToLive old. The source's loop is modelled as written (SweepAsWritten) and
    corrected (Sweep); see the lemmas for what separates them. */
module Sweep {

  import opened JavaInt
  import opened Header
  import opened FlowKeys
  import opened SlotTable
  import opened GetLemmas
  import opened RemoveLemmas

  /** isChunkOutdated: `currentTime - lastAccessTime >= timeToLive` in Java `long` arithmetic.
      While the difference does not overflow, a slot is outdated exactly when its last write
      lies at least timeToLive before now. */
  function IsChunkOutdated(lastWrite: int, now: Int64, timeToLive: Int64): (r: bool)
    ensures -0x8000_0000_0000_0000 <= now - lastWrite < 0x8000_0000_0000_0000
            ==> (r <==> lastWrite + timeToLive <= now)
  {
    Wrap64(now - lastWrite) >= timeToLive
  }

  /** What the corrected sweep removes at slot `y`: an occupied slot that is outdated. */
  predicate Expired(t: Table, y: int, now: Int64, timeToLive: Int64)
    requires IsSlot(t, y)
  {
    Occupied(t, y) && IsChunkOutdated(t.headers[y].lastWrite, now, timeToLive)
  }

  // ---------------------------------------------------------------------------------------
  // The corrected sweep

  /** One turn of the corrected loop: remove slot `i` when it is expired. */
  function SweepStep(t: Table, i: int, now: Int64, timeToLive: Int64): (r: Table)
    requires WellFormed(t) && LinksOk(t) && IsSlot(t, i)
    ensures WellFormed(r) && LinksOk(r) && |r.headers| == |t.headers| && r.keys == t.keys
  {
    if Expired(t, i, now, timeToLive) then RemoveAt(t, i) else t
  }

  /** Visit slots `i` .. mapSize - 1 in order, removing each expired one. */
  function SweepFrom(t: Table, i: int, now: Int64, timeToLive: Int64): (r: Table)
    requires WellFormed(t) && LinksOk(t) && 0 <= i <= |t.headers|
    ensures WellFormed(r) && LinksOk(r) && |r.headers| == |t.headers| && r.keys == t.keys
    decreases |t.headers| - i
  {
    if i == |t.headers| then t
    else SweepFrom(SweepStep(t, i, now, timeToLive), i + 1, now, timeToLive)
  }

  /** removeOutdatedRecords with the loop bound `offset < totalSize` and the occupancy test
      that the source lacks. */
  function Sweep(t: Table, now: Int64, timeToLive: Int64): (r: Table)
    requires WellFormed(t) && LinksOk(t)
    ensures WellFormed(r) && LinksOk(r) && |r.headers| == |t.headers| && r.keys == t.keys
  {
    SweepFrom(t, 0, now, timeToLive)
  }

  /** The corrected loop after it has visited slots 0 .. i - 1, counted from the front. */
  function SweptUpTo(t: Table, i: int, now: Int64, timeToLive: Int64): (r: Table)
    requires WellFormed(t) && LinksOk(t) && 0 <= i <= |t.headers|
    ensures WellFormed(r) && LinksOk(r) && |r.headers| == |t.headers| && r.keys == t.keys
  {
    if i == 0 then t else SweepStep(SweptUpTo(t, i - 1, now, timeToLive), i - 1, now, timeToLive)
  }

  /** One more turn of the loop. */
  lemma SweptUpToNext(t: Table, i: int, now: Int64, timeToLive: Int64)
    requires WellFormed(t) && LinksOk(t) && 0 <= i < |t.headers|
    ensures SweptUpTo(t, i + 1, now, timeToLive) == SweepStep(SweptUpTo(t, i, now, timeToLive), i, now, timeToLive)
  {
  }

  /** Counting from the front and from the back agree: the slots visited so far followed by
      the rest make the whole sweep. */
  lemma {:induction false} SweptUpToThenRest(t: Table, i: int, now: Int64, timeToLive: Int64)
    requires WellFormed(t) && LinksOk(t) && 0 <= i <= |t.headers|
    ensures SweepFrom(SweptUpTo(t, i, now, timeToLive), i, now, timeToLive) == Sweep(t, now, timeToLive)
    decreases i
  {
    if i > 0 {
      SweptUpToThenRest(t, i - 1, now, timeToLive);
      var u := SweptUpTo(t, i - 1, now, timeToLive);
      assert SweepFrom(u, i - 1, now, timeToLive) == SweepFrom(SweepStep(u, i - 1, now, timeToLive), i, now, timeToLive);
    }
  }

  /** The loop that visits every slot from the front computes the sweep. */
  lemma SweptUpToAll(t: Table, now: Int64, timeToLive: Int64)
    requires WellFormed(t) && LinksOk(t)
    ensures SweptUpTo(t, |t.headers|, now, timeToLive) == Sweep(t, now, timeToLive)
  {
    SweptUpToThenRest(t, |t.headers|, now, timeToLive);
  }

  /** The number of expired slots among `i` .. mapSize - 1. */
  function CountExpired(t: Table, i: int, now: Int64, timeToLive: Int64): (n: nat)
    requires 0 <= i <= |t.headers|
    ensures n <= |t.headers| - i
    decreases |t.headers| - i
  {
    if i == |t.headers| then 0
    else (if Expired(t, i, now, timeToLive) then 1 else 0) + CountExpired(t, i + 1, now, timeToLive)
  }

  /** A removal at slot `s` changes neither the occupancy nor the stamp of a later slot, so it
      leaves the count of expired slots after `s` as it was. */
  lemma {:induction false} CountExpiredAfterRemove(t: Table, s: int, i: int, now: Int64, timeToLive: Int64)
    requires WellFormed(t) && LinksOk(t) && IsSlot(t, s) && s < i <= |t.headers|
    ensures CountExpired(RemoveAt(t, s), i, now, timeToLive) == CountExpired(t, i, now, timeToLive)
    decreases |t.headers| - i
  {
    RemoveAtOccupancy(t, s);
    if i < |t.headers| {
      CountExpiredAfterRemove(t, s, i + 1, now, timeToLive);
    }
  }

  /** What the sweep from slot `i` leaves: every slot from `i` on is occupied exactly when it
      was occupied and not outdated, the slots before `i` keep their occupancy, no stamp
      changes, and the size drops by the number of expired slots. */
  lemma {:induction false} SweepFromEffect(t: Table, i: int, now: Int64, timeToLive: Int64)
    requires WellFormed(t) && LinksOk(t) && 0 <= i <= |t.headers|
    ensures var r := SweepFrom(t, i, now, timeToLive);
      (forall y :: 0 <= y < |t.headers| ==> r.headers[y].lastWrite == t.headers[y].lastWrite)
      && (forall y :: 0 <= y < i ==> Occupied(r, y) == Occupied(t, y))
      && (forall y :: i <= y < |t.headers| ==> Occupied(r, y) == (Occupied(t, y) && !IsChunkOutdated(t.headers[y].lastWrite, now, timeToLive)))
      && r.size == t.size - CountExpired(t, i, now, timeToLive)
    decreases |t.headers| - i
  {
    if i < |t.headers| {
      var t2 := SweepStep(t, i, now, timeToLive);
      SweepStepEffect(t, i, now, timeToLive);
      SweepFromEffect(t2, i + 1, now, timeToLive);
      var r := SweepFrom(t2, i + 1, now, timeToLive);
      assert SweepFrom(t, i, now, timeToLive) == r;
      forall y | i <= y < |t.headers|
        ensures Occupied(r, y) == (Occupied(t, y) && !IsChunkOutdated(t.headers[y].lastWrite, now, timeToLive))
      {
        if y > i {
          assert t2.headers[y].lastWrite == t.headers[y].lastWrite;
        }
      }
    }
  }

  /** One turn of the corrected loop frees slot `i` exactly when it is expired and changes no
      other slot's occupancy, no stamp and no later slot's expiry. */
  lemma SweepStepEffect(t: Table, i: int, now: Int64, timeToLive: Int64)
    requires WellFormed(t) && LinksOk(t) && IsSlot(t, i)
    ensures var r := SweepStep(t, i, now, timeToLive);
      (forall y :: 0 <= y < |t.headers| ==> r.headers[y].lastWrite == t.headers[y].lastWrite)
      && (forall y :: 0 <= y < |t.headers| && y != i ==> Occupied(r, y) == Occupied(t, y))
      && Occupied(r, i) == (Occupied(t, i) && !IsChunkOutdated(t.headers[i].lastWrite, now, timeToLive))
      && r.size == t.size - (if Expired(t, i, now, timeToLive) then 1 else 0)
      && CountExpired(r, i + 1, now, timeToLive) == CountExpired(t, i + 1, now, timeToLive)
  {
    if Expired(t, i, now, timeToLive) {
      RemoveAtOccupancy(t, i);
      CountExpiredAfterRemove(t, i, i + 1, now, timeToLive);
    }
  }

  /** One turn of the corrected loop keeps the invariant: an expired slot is occupied, so it
      lies on some chain, and RemoveAtKeepsValid says what that chain becomes. */
  lemma SweepStepKeepsValid(t: Table, C: Chains, home: Flow -> int, i: int, now: Int64, timeToLive: Int64)
    returns (C2: Chains)
    requires Valid(t, C, home) && IsSlot(t, i)
    ensures LinksOk(t)
    ensures Valid(SweepStep(t, i, now, timeToLive), C2, home)
  {
    ValidLinksOk(t, C, home);
    C2 := C;
    if Expired(t, i, now, timeToLive) {
      var b := home(KeyAt(t, i));
      assert b in C && i in C[b];
      var j :| 0 <= j < |C[b]| && C[b][j] == i;
      RemoveAtKeepsValid(t, C, home, b, j);
      C2 := ChainsAfter(C, b, j);
    }
  }

  /** The corrected sweep keeps the invariant, with the chains each removal leaves. */
  lemma {:induction false} SweepFromKeepsValid(t: Table, C: Chains, home: Flow -> int, i: int, now: Int64, timeToLive: Int64)
    requires Valid(t, C, home) && 0 <= i <= |t.headers|
    ensures LinksOk(t)
    ensures exists C2 :: Valid(SweepFrom(t, i, now, timeToLive), C2, home)
    decreases |t.headers| - i
  {
    ValidLinksOk(t, C, home);
    if i == |t.headers| {
      assert Valid(SweepFrom(t, i, now, timeToLive), C, home);
    } else {
      var C2 := SweepStepKeepsValid(t, C, home, i, now, timeToLive);
      assert SweepFrom(t, i, now, timeToLive) == SweepFrom(SweepStep(t, i, now, timeToLive), i + 1, now, timeToLive);
      SweepFromKeepsValid(SweepStep(t, i, now, timeToLive), C2, home, i + 1, now, timeToLive);
    }
  }

  /** removeOutdatedRecords, corrected: the table stays valid, exactly the occupied slots that
      are outdated become free, and the size counts them out. */
  lemma SweepEffect(t: Table, C: Chains, home: Flow -> int, now: Int64, timeToLive: Int64)
    requires Valid(t, C, home)
    ensures LinksOk(t)
    ensures var r := Sweep(t, now, timeToLive);
      (exists C2 :: Valid(r, C2, home))
      && (forall y :: IsSlot(t, y) ==> Occupied(r, y) == (Occupied(t, y) && !IsChunkOutdated(t.headers[y].lastWrite, now, timeToLive)))
      && r.size == t.size - CountExpired(t, 0, now, timeToLive)
  {
    SweepFromKeepsValid(t, C, home, 0, now, timeToLive);
    SweepFromEffect(t, 0, now, timeToLive);
  }

  // ---------------------------------------------------------------------------------------
  // The sweep as the source writes it

  /** The stamp read of isChunkOutdated at slot position `i` (byte offset `i` times the
      slot size, plus 8): getLong succeeds inside the table and throws at position mapSize,
      whose stamp would lie past the end of the buffer. */
  function StampAt(t: Table, i: nat): (r: Result<int>)
    ensures r.Ok? <==> i < |t.headers|
    ensures r.Ok? ==> r.value == t.headers[i].lastWrite
  {
    if i < |t.headers| then Ok(t.headers[i].lastWrite) else Err(OutOfBounds)
  }

  /** One turn of the do-while as written, at a position inside the table: remove(offset) as
      written when the slot's stamp is outdated, whether or not the slot is occupied. Only the
      promotion remove(offset) cannot complete makes it fail; otherwise the size counts an
      outdated slot out, and no turn changes a stamp. */
  function SweepTurn(t: Table, i: nat, now: Int64, timeToLive: Int64): (r: (Result<()>, Table))
    requires WellFormed(t) && LinksOk(t) && i < |t.headers|
    ensures WellFormed(r.1) && LinksOk(r.1) && |r.1.headers| == |t.headers| && r.1.keys == t.keys
    ensures forall y :: 0 <= y < |t.headers| ==> r.1.headers[y].lastWrite == t.headers[y].lastWrite
    ensures r.0.Err? ==> r.0 == Err(IllegalArgument)
    ensures r.0.Ok? ==>
      r.1.size == t.size - (if IsChunkOutdated(t.headers[i].lastWrite, now, timeToLive) then 1 else 0)
  {
    if IsChunkOutdated(t.headers[i].lastWrite, now, timeToLive) then RemoveAtAsWritten(t, i) else (Ok(()), t)
  }

  /** The do-while of removeOutdatedRecords as written, from slot position `i` on: read the
      stamp (which may throw), call remove(offset) when it is outdated, whether or not the
      slot is occupied, then step on while `offset <= totalSize`, i.e. while `i + 1 <= mapSize`.
      That test always holds once the stamp at `i` has been read, since the read succeeds only
      for `i < mapSize`, so the recursion steps on unconditionally and the loop ends only by the
      stamp read at `i == mapSize` throwing. An exception, from the stamp read or from
      remove(offset), ends the loop and the removals already made stay. */
  function SweepAllFrom(t: Table, i: nat, now: Int64, timeToLive: Int64): (r: (Result<()>, Table))
    requires WellFormed(t) && LinksOk(t) && i <= |t.headers|
    ensures WellFormed(r.1) && LinksOk(r.1) && |r.1.headers| == |t.headers| && r.1.keys == t.keys
    decreases |t.headers| - i
  {
    match StampAt(t, i)
    case Err(e) => (Err(e), t)
    case Ok(_) =>
      var rm := SweepTurn(t, i, now, timeToLive);
      if rm.0.Err? then rm else SweepAllFrom(rm.1, i + 1, now, timeToLive)
  }

  /** The loop as written never leaves through its test: from any position it either reaches
      position mapSize, whose stamp read throws, or stops earlier at a promotion that
      remove(offset) cannot complete. */
  lemma {:induction false} SweepAllFromThrows(t: Table, i: nat, now: Int64, timeToLive: Int64)
    requires WellFormed(t) && LinksOk(t) && i <= |t.headers|
    ensures var e := SweepAllFrom(t, i, now, timeToLive).0;
      e == Err(OutOfBounds) || e == Err(IllegalArgument)
    decreases |t.headers| - i
  {
    if i < |t.headers| {
      var rm := SweepTurn(t, i, now, timeToLive);
      if rm.0.Ok? {
        assert SweepAllFrom(t, i, now, timeToLive) == SweepAllFrom(rm.1, i + 1, now, timeToLive);
        SweepAllFromThrows(rm.1, i + 1, now, timeToLive);
      }
    }
  }

  /** remove(offset) of a slot without a next link sets no next link anywhere: it cuts a
      predecessor's link or drops a bucket, and clears the slot's own flags. */
  lemma UnlinkAddsNoNext(t: Table, s: int)
    requires WellFormed(t) && LinksOk(t) && IsSlot(t, s) && !IsNextLinkFlagSet(t.headers[s].word)
    ensures forall y :: IsSlot(t, y) && IsNextLinkFlagSet(Unlink(t, s, false).headers[y].word) ==>
                          IsNextLinkFlagSet(t.headers[y].word)
  {
    var d := Detach(t, s, false);
    assert FlagsOf(RemoveNextLink(t.headers[s].word)).nextLink == false;
    if IsPrevLinkFlagSet(t.headers[s].word) {
      var p := t.headers[s].prev;
      assert d == CutNext(t, p);
      assert FlagsOf(RemoveNextLink(t.headers[p].word)).nextLink == false;
    } else {
      assert d.headers == t.headers;
    }
  }

  /** On a table where no slot from `i` on links forward (a fresh map, or one whose chains are
      single slots there), no promotion is attempted and the loop as written runs to position
      mapSize, whose stamp read throws. */
  lemma {:induction false} SweepAllFromReachesEnd(t: Table, i: nat, now: Int64, timeToLive: Int64)
    requires WellFormed(t) && LinksOk(t) && i <= |t.headers|
    requires forall y :: i <= y < |t.headers| ==> !IsNextLinkFlagSet(t.headers[y].word)
    ensures SweepAllFrom(t, i, now, timeToLive).0 == Err(OutOfBounds)
    decreases |t.headers| - i
  {
    if i < |t.headers| {
      var rm := SweepTurn(t, i, now, timeToLive);
      assert rm.0.Ok?;
      if IsChunkOutdated(t.headers[i].lastWrite, now, timeToLive) {
        assert rm.1 == Unlink(t, i, false);
        UnlinkAddsNoNext(t, i);
      }
      assert SweepAllFrom(t, i, now, timeToLive) == SweepAllFrom(rm.1, i + 1, now, timeToLive);
      SweepAllFromReachesEnd(rm.1, i + 1, now, timeToLive);
    }
  }

  /** removeOutdatedRecords as written: the loop runs from offset 0 and never returns
      normally (SweepAllFromThrows); on a table without forward links it ends in the
      out-of-bounds read (SweepAllFromReachesEnd). The table it leaves keeps its shape. */
  function SweepAsWritten(t: Table, now: Int64, timeToLive: Int64): (r: (Result<()>, Table))
    requires WellFormed(t) && LinksOk(t)
    ensures r.0 == Err(OutOfBounds) || r.0 == Err(IllegalArgument)
    ensures (forall y :: 0 <= y < |t.headers| ==> !IsNextLinkFlagSet(t.headers[y].word))
      ==> r.0 == Err(OutOfBounds)
    ensures WellFormed(r.1) && LinksOk(r.1) && |r.1.headers| == |t.headers| && r.1.keys == t.keys
  {
    SweepAllFromThrows(t, 0, now, timeToLive);
    if forall y :: 0 <= y < |t.headers| ==> !IsNextLinkFlagSet(t.headers[y].word) then
      SweepAllFromReachesEnd(t, 0, now, timeToLive);
      SweepAllFrom(t, 0, now, timeToLive)
    else
      SweepAllFrom(t, 0, now, timeToLive)
  }

  /** How many slots from position `i` on carry an outdated stamp, occupied or not. */
  function CountOutdated(t: Table, i: nat, now: Int64, timeToLive: Int64): (n: nat)
    requires i <= |t.headers|
    ensures n <= |t.headers| - i
    ensures (forall y :: i <= y < |t.headers| ==> IsChunkOutdated(t.headers[y].lastWrite, now, timeToLive))
      ==> n == |t.headers| - i
    decreases |t.headers| - i
  {
    if i == |t.headers| then 0
    else
      var here := if IsChunkOutdated(t.headers[i].lastWrite, now, timeToLive) then 1 else 0;
      here + CountOutdated(t, i + 1, now, timeToLive)
  }

  /** The count depends on the stamps alone. */
  lemma {:induction false} CountOutdatedSameStamps(t: Table, u: Table, i: nat, now: Int64, timeToLive: Int64)
    requires i <= |t.headers| == |u.headers|
    requires forall y :: i <= y < |t.headers| ==> u.headers[y].lastWrite == t.headers[y].lastWrite
    ensures CountOutdated(u, i, now, timeToLive) == CountOutdated(t, i, now, timeToLive)
    decreases |t.headers| - i
  {
    if i < |t.headers| {
      CountOutdatedSameStamps(t, u, i + 1, now, timeToLive);
    }
  }

  /** Whenever the sweep as written runs through to position mapSize, it has counted every
      slot from `i` on whose stamp is outdated out of the size, free or not. */
  lemma {:induction false} SweepAllFromCountsAll(t: Table, i: nat, now: Int64, timeToLive: Int64)
    requires WellFormed(t) && LinksOk(t) && i <= |t.headers|
    ensures var r := SweepAllFrom(t, i, now, timeToLive);
      r.0 == Err(OutOfBounds) ==> r.1.size == t.size - CountOutdated(t, i, now, timeToLive)
    decreases |t.headers| - i
  {
    if i < |t.headers| {
      var rm := SweepTurn(t, i, now, timeToLive);
      if rm.0.Ok? {
        var here := if IsChunkOutdated(t.headers[i].lastWrite, now, timeToLive) then 1 else 0;
        assert CountOutdated(t, i, now, timeToLive) == here + CountOutdated(t, i + 1, now, timeToLive);
        assert rm.1.size == t.size - here;
        var r := SweepAllFrom(rm.1, i + 1, now, timeToLive);
        assert SweepAllFrom(t, i, now, timeToLive) == r;
        SweepAllFromCountsAll(rm.1, i + 1, now, timeToLive);
        CountOutdatedSameStamps(t, rm.1, i + 1, now, timeToLive);
      } else {
        assert SweepAllFrom(t, i, now, timeToLive) == rm;
      }
    } else {
      assert StampAt(t, i).Err?;
    }
  }

  /** On a fresh map every stamp is 0, so once `now >= timeToLive` the sweep as written throws
      and leaves a size of -mapSize although nothing is stored: the invariant is broken. The
      corrected sweep leaves the fresh map as it is. */
  lemma SweepOnEmpty(mapSize: int, keySize: int, now: Int64, timeToLive: Int64)
    requires mapSize > 0 && keySize >= KEY_SIZE && now >= 0 && now >= timeToLive
    ensures var t := Empty(mapSize, keySize);
      var w := SweepAsWritten(t, now, timeToLive);
      w.0 == Err(OutOfBounds) && w.1.size == -mapSize
      && (forall C, home :: !Valid(w.1, C, home))
      && Sweep(t, now, timeToLive) == t
  {
    var t := Empty(mapSize, keySize);
    assert Valid(t, map[], x => 0);
    ValidLinksOk(t, map[], x => 0);
    SweepAllFromCountsAll(t, 0, now, timeToLive);
    assert CountOutdated(t, 0, now, timeToLive) == mapSize;
    SweepUnchanged(t, 0, now, timeToLive);
  }

  /** The corrected sweep leaves a table without expired slots from `i` on unchanged. */
  lemma {:induction false} SweepUnchanged(t: Table, i: int, now: Int64, timeToLive: Int64)
    requires WellFormed(t) && LinksOk(t) && 0 <= i <= |t.headers|
    requires forall y :: i <= y < |t.headers| ==> !Occupied(t, y)
    ensures SweepFrom(t, i, now, timeToLive) == t
    decreases |t.headers| - i
  {
    if i < |t.headers| {
      SweepUnchanged(t, i + 1, now, timeToLive);
    }
  }
}
