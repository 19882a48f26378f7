/** What getOffset, lock, unlock and isLocked do on a table that keeps the invariant. */
module LockLemmas {

  import opened JavaInt
  import opened Header
  import opened FlowKeys
  import opened SlotTable
  import opened GetLemmas

  /** `t2` differs from `t` at most in lock bits and write stamps: same keys, size, maps, links
      and occupancy and link flags. */
  ghost predicate SameShape(t: Table, t2: Table)
  {
    |t2.headers| == |t.headers| && t2.keys == t.keys && t2.size == t.size
    && t2.buckets == t.buckets && t2.heads == t.heads
    && forall x :: 0 <= x < |t.headers| ==>
         t2.headers[x].next == t.headers[x].next && t2.headers[x].prev == t.headers[x].prev
         && IsBucketFree(t2.headers[x].word) == IsBucketFree(t.headers[x].word)
         && IsNextLinkFlagSet(t2.headers[x].word) == IsNextLinkFlagSet(t.headers[x].word)
         && IsPrevLinkFlagSet(t2.headers[x].word) == IsPrevLinkFlagSet(t.headers[x].word)
  }

  lemma SameShapeChainOk(t: Table, t2: Table, c: seq<int>, b: int, home: Flow -> int)
    requires WellFormed(t) && SameShape(t, t2) && ChainOk(t, c, b, home)
    ensures WellFormed(t2) && ChainOk(t2, c, b, home)
  {
    forall j | 0 <= j < |c| ensures NodeOk(t2, c, j, b, home) {
      assert NodeOk(t, c, j, b, home);
    }
  }

  /** Changing lock bits and stamps keeps the invariant, with the same chains. */
  lemma SameShapeValid(t: Table, t2: Table, C: Chains, home: Flow -> int)
    requires Valid(t, C, home) && SameShape(t, t2)
    ensures Valid(t2, C, home)
  {
    forall b | b in C ensures ChainOk(t2, C[b], b, home) {
      SameShapeChainOk(t, t2, C[b], b, home);
    }
    assert forall x :: IsSlot(t, x) ==> Occupied(t2, x) == Occupied(t, x) && KeyAt(t2, x) == KeyAt(t, x);
    assert Reachable(t2, C, home);
    assert MapsOk(t2, C);
    assert FreeSlotsUnlinked(t2);
    CountSame(t.headers, t2.headers);
  }

  /** Under the invariant getOffset(key) is the slot that holds the key when one does, and the
      tail of the key's home chain otherwise. */
  lemma GetOffsetFinds(t: Table, C: Chains, f: Flow, home: Flow -> int)
    requires Valid(t, C, home) && home(f) in t.buckets
    ensures var s := GetOffset(t, C, f, home);
      (forall x :: IsSlot(t, x) && Occupied(t, x) && KeyAt(t, x) == f ==> s == x)
      && ((forall x :: IsSlot(t, x) && Occupied(t, x) ==> KeyAt(t, x) != f)
          ==> s == C[home(f)][|C[home(f)]| - 1])
  {
    var b := home(f);
    ChainFacts(t, C, home, b);
    var c := C[b];
    var s := GetOffset(t, C, f, home);
    forall x | IsSlot(t, x) && Occupied(t, x) && KeyAt(t, x) == f ensures s == x {
      GetStored(t, C, f, 0, home, x);
      var j :| 0 <= j < |c| && c[j] == x;
      MatchesKeyAt(t, x, f);
      var k := FindIndex(t, c, f);
      MatchesKeyAt(t, c[k], f);
      KeysUnique(t, C, home, c[k], x);
    }
    if forall x :: IsSlot(t, x) && Occupied(t, x) ==> KeyAt(t, x) != f {
      AbsentWalk(t, C, f, home);
    }
  }

  /** The walk of getOffset reads only keys, so a change of lock bits does not move it. */
  lemma GetOffsetSameShape(t: Table, t2: Table, C: Chains, f: Flow, home: Flow -> int)
    requires Valid(t, C, home) && SameShape(t, t2) && home(f) in t.buckets
    ensures Valid(t2, C, home) && GetOffset(t2, C, f, home) == GetOffset(t, C, f, home)
  {
    SameShapeValid(t, t2, C, home);
    var c := C[home(f)];
    ChainFacts(t, C, home, home(f));
    var k := FindIndex(t, c, f);
    var k2 := FindIndex(t2, c, f);
    assert forall x :: IsSlot(t, x) ==> (Matches(t2, x, f) <==> Matches(t, x, f));
    if k != k2 {
      assert false;
    }
  }

  /** lock(key) keeps the invariant: it sets one lock bit and nothing else. */
  lemma LockKeepsValid(t: Table, C: Chains, f: Flow, home: Flow -> int)
    requires Valid(t, C, home)
    ensures Valid(LockKey(t, C, f, home), C, home)
  {
    if home(f) in t.buckets {
      SameShapeValid(t, LockKey(t, C, f, home), C, home);
    }
  }

  /** unlock(key) keeps the invariant: it clears one lock bit and nothing else. */
  lemma UnlockKeepsValid(t: Table, C: Chains, f: Flow, home: Flow -> int)
    requires Valid(t, C, home)
    ensures Valid(UnlockKey(t, C, f, home), C, home)
  {
    if home(f) in t.buckets {
      SameShapeValid(t, UnlockKey(t, C, f, home), C, home);
    }
  }

  /** lock(key) sets the lock bit of the slot that holds the key, or of the tail of its chain
      when no slot does; when the home bucket is unused it does nothing. No other slot and no
      other bit changes. */
  lemma LockSetsOneBit(t: Table, C: Chains, f: Flow, home: Flow -> int)
    requires Valid(t, C, home)
    ensures var t2 := LockKey(t, C, f, home);
      (home(f) !in t.buckets ==> t2 == t)
      && (home(f) in t.buckets ==>
            var s := GetOffset(t, C, f, home);
            FlagsOf(t2.headers[s].word) == FlagsOf(t.headers[s].word).(locked := true)
            && t2.headers[s].next == t.headers[s].next && t2.headers[s].prev == t.headers[s].prev
            && t2.keys == t.keys && t2.size == t.size && t2.buckets == t.buckets && t2.heads == t.heads
            && (forall x :: IsSlot(t, x) && x != s ==> t2.headers[x] == t.headers[x])
            && (forall x :: IsSlot(t, x) && Occupied(t, x) && KeyAt(t, x) == f ==> s == x))
  {
    if home(f) in t.buckets {
      GetOffsetFinds(t, C, f, home);
    }
  }

  /** unlock(key) clears the lock bit of the slot getOffset finds and changes nothing else. */
  lemma UnlockClearsOneBit(t: Table, C: Chains, f: Flow, home: Flow -> int)
    requires Valid(t, C, home)
    ensures var t2 := UnlockKey(t, C, f, home);
      (home(f) !in t.buckets ==> t2 == t)
      && (home(f) in t.buckets ==>
            var s := GetOffset(t, C, f, home);
            FlagsOf(t2.headers[s].word) == FlagsOf(t.headers[s].word).(locked := false)
            && t2.headers[s].next == t.headers[s].next && t2.headers[s].prev == t.headers[s].prev
            && t2.keys == t.keys && t2.size == t.size && t2.buckets == t.buckets && t2.heads == t.heads
            && (forall x :: IsSlot(t, x) && x != s ==> t2.headers[x] == t.headers[x])
            && (forall x :: IsSlot(t, x) && Occupied(t, x) && KeyAt(t, x) == f ==> s == x))
  {
    if home(f) in t.buckets {
      GetOffsetFinds(t, C, f, home);
    }
  }

  /** After lock(key), isLocked(key) holds exactly when the home bucket is in use and the slot
      getOffset finds is not slot 0: the `> 0` test hides the lock of slot 0. */
  lemma LockThenIsLocked(t: Table, C: Chains, f: Flow, home: Flow -> int)
    requires Valid(t, C, home)
    ensures Valid(LockKey(t, C, f, home), C, home)
    ensures IsLockedKey(LockKey(t, C, f, home), C, f, home)
        <==> home(f) in t.buckets && GetOffset(t, C, f, home) > 0
  {
    LockKeepsValid(t, C, f, home);
    if home(f) in t.buckets {
      GetOffsetSameShape(t, LockKey(t, C, f, home), C, f, home);
    }
  }

  /** After unlock(key), isLocked(key) is false. */
  lemma UnlockThenNotLocked(t: Table, C: Chains, f: Flow, home: Flow -> int)
    requires Valid(t, C, home)
    ensures Valid(UnlockKey(t, C, f, home), C, home)
    ensures !IsLockedKey(UnlockKey(t, C, f, home), C, f, home)
  {
    UnlockKeepsValid(t, C, f, home);
    if home(f) in t.buckets {
      var t2 := UnlockKey(t, C, f, home);
      GetOffsetSameShape(t, t2, C, f, home);
      assert !IsLocked(t2.headers[GetOffset(t2, C, f, home)].word);
    }
  }

  /** unlock(key) after lock(key) leaves the table as unlock(key) alone would. */
  lemma UnlockUndoesLockKey(t: Table, C: Chains, f: Flow, home: Flow -> int)
    requires Valid(t, C, home)
    ensures Valid(LockKey(t, C, f, home), C, home)
    ensures UnlockKey(LockKey(t, C, f, home), C, f, home) == UnlockKey(t, C, f, home)
  {
    LockKeepsValid(t, C, f, home);
    if home(f) in t.buckets {
      var t2 := LockKey(t, C, f, home);
      GetOffsetSameShape(t, t2, C, f, home);
      var s := GetOffset(t, C, f, home);
      UnlockUndoesLock(t.headers[s].word);
      assert UnlockKey(t2, C, f, home).headers == UnlockKey(t, C, f, home).headers;
    }
  }
}
