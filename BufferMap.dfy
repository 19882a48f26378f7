/** BufferBasedHashMap in the source's own layout and methods, with the corrected remove(offset)
    and the corrected sweep in place of the as-written ones (see Findings in README.md): one
    class whose methods update, step by step, the slot headers and key regions of the off-heap
    buffer (two arrays here), the size counter and the two Int2IntHashMaps (two map fields). Each method is proved to leave exactly the
    table the corresponding function of SlotTable or Sweep computes, and to keep the invariant
    SlotTable.Valid, whose consequences the lemma modules prove.

    Keys are passed as Flow values. The clock (System.nanoTime) is the parameter `now`, and
    the mixing function inside FlowKey.hashCode is the constructor parameter `mix`. */
module BufferMap {

  import opened JavaInt
  import opened Header
  import opened FlowKeys
  import opened SlotTable
  import opened GetLemmas
  import opened LockLemmas
  import opened RemoveLemmas
  import opened Sweep

  /** What a walk along chain `c` needs: every node is a slot, the next-link flag is set
      exactly off the tail and points at the following node. */
  ghost predicate Linked(t: Table, c: seq<int>)
  {
    WellFormed(t) && |c| > 0
    && (forall j :: 0 <= j < |c| ==> 0 <= c[j] < |t.headers|)
    && (forall j :: 0 <= j < |c| ==> IsNextLinkFlagSet(t.headers[c[j]].word) == (j + 1 < |c|))
    && (forall j :: 0 <= j < |c| - 1 ==> t.headers[c[j]].next == c[j + 1])
  }

  /** Under the invariant every chain can be walked from the head the bucket map names. */
  lemma ValidLinked(t: Table, C: Chains, home: Flow -> int, b: int)
    requires SlotTable.Valid(t, C, home) && b in C
    ensures Linked(t, C[b]) && InTable(t, C[b]) && b in t.buckets && t.buckets[b] == C[b][0]
  {
    var c := C[b];
    ChainFacts(t, C, home, b);
    forall j | 0 <= j < |c|
      ensures 0 <= c[j] < |t.headers|
      ensures IsNextLinkFlagSet(t.headers[c[j]].word) == (j + 1 < |c|)
      ensures j < |c| - 1 ==> t.headers[c[j]].next == c[j + 1]
    {
      assert NodeOk(t, c, j, b, home);
    }
  }

  /** get on a bucket in use, case by case: the walk finds the key, stalls on a link to slot
      0, or reaches the tail, where a new slot is appended when one is free. */
  lemma GetOfUsedBucket(t: Table, C: Chains, f: Flow, now: Int64, home: Flow -> int)
    requires SlotTable.Valid(t, C, home) && home(f) in t.buckets
    ensures home(f) in C && InTable(t, C[home(f)]) && |C[home(f)]| > 0 && 0 <= home(f) < |t.headers|
    ensures Occupied(t, C[home(f)][|C[home(f)]| - 1])
    ensures var b := home(f);
      var c := C[b];
      var k := FindIndex(t, c, f);
      var z := StallIndex(c);
      var g := SlotTable.Get(t, C, f, now, home);
      (k < z ==> g == (Ok(c[k]), t, C))
      && (k >= z && z < |c| ==> g == (Err(Diverges), t, C))
      && (k >= z && z == |c| ==>
            var s := SlotTable.FindBucket(t, b);
            (s == -1 ==> g == (Err(OutOfBounds), t, C))
            && (s != -1 ==> g == (Ok(s), LinkTail(SlotTable.Allocate(t, s, f, now), c[|c| - 1], s), C[b := c + [s]])))
  {
    var c := C[home(f)];
    ChainFacts(t, C, home, home(f));
    assert c[|c| - 1] in c;
  }

  /** get on a bucket not in use: a new chain of one slot, unless the bucket is outside the
      table or no slot is free. */
  lemma GetOfNewBucket(t: Table, C: Chains, f: Flow, now: Int64, home: Flow -> int)
    requires SlotTable.Valid(t, C, home) && home(f) !in t.buckets
    ensures var b := home(f);
      var g := SlotTable.Get(t, C, f, now, home);
      (!(0 <= b < |t.headers|) ==> g == (Err(OutOfBounds), t, C))
      && (0 <= b < |t.headers| ==>
            var s := SlotTable.FindBucket(t, b);
            (s == -1 ==> g == (Err(OutOfBounds), t, C))
            && (s != -1 ==> g == (Ok(s), RegisterHead(SlotTable.Allocate(t, s, f, now), b, s), C[b := [s]])))
  {
  }

  class BufferBasedHashMap {
    const keySize: int
    const chunkSize: int
    const mapSize: int
    const timeToLive: Int64
    const mix: Int32 -> Int32
    /** getBucket(key.hashCode()): the constructor makes it `Home(_, mapSize, mix)`, and it
        never changes. */
    const home: Flow -> int

    /** Bytes 0-15 of each slot: the control word, the previous link and the stamp. */
    const headers: array<SlotHeader>
    /** The key region of each slot, `keySize` bytes after the header. */
    const keys: array<seq<Byte>>
    var size: int
    /** bucketAddressingMap. */
    var buckets: map<int, int>
    /** offsetToBucketMap. */
    var heads: map<int, int>
    /** The chains the links spell out; the source keeps them only in the links. */
    ghost var chains: Chains

    /** The state of the map as a SlotTable value. */
    function Snapshot(): Table
      reads this, headers, keys
    {
      Table(headers[..], keys[..], size, buckets, heads)
    }

    /** The sizes agree and every key region holds a key. */
    ghost predicate Shaped()
      reads this, headers, keys
    {
      0 < mapSize && KEY_SIZE <= keySize && 0 <= chunkSize
      && headers.Length == mapSize && keys.Length == mapSize
      && WellFormed(Snapshot())
    }

    ghost predicate Valid()
      reads this, headers, keys
    {
      Shaped()
      && SlotTable.Valid(Snapshot(), chains, home)
    }

    /** The buffer is zero-filled and both maps are empty. */
    constructor (keySize: int, chunkSize: int, mapSize: int, timeToLive: Int64, mix: Int32 -> Int32)
      requires 0 < mapSize && KEY_SIZE <= keySize && 0 <= chunkSize
      ensures Valid() && fresh(headers) && fresh(keys)
      ensures Snapshot() == Empty(mapSize, keySize) && size == 0 && chains == map[]
      ensures this.keySize == keySize && this.chunkSize == chunkSize && this.mapSize == mapSize
      ensures this.timeToLive == timeToLive && this.mix == mix
      ensures forall f :: home(f) == Home(f, mapSize, mix)
    {
      this.keySize := keySize;
      this.chunkSize := chunkSize;
      this.mapSize := mapSize;
      this.timeToLive := timeToLive;
      this.mix := mix;
      home := f => Home(f, mapSize, mix);
      headers := new SlotHeader[mapSize](_ => EMPTY_HEADER);
      keys := new seq<Byte>[mapSize](_ => seq(keySize, _ => 0));
      size := 0;
      buckets := map[];
      heads := map[];
      chains := map[];
      new;
      assert headers[..] == seq(mapSize, _ => EMPTY_HEADER);
      assert keys[..] == seq(mapSize, _ => seq(keySize, _ => 0));
      assert Snapshot() == Empty(mapSize, keySize);
      assert SlotTable.Valid(Empty(mapSize, keySize), map[], home);
    }

    // -------------------------------------------------------------------------------------
    // Layout

    /** totalChunkSize(): header, key and chunk data of one slot. */
    function TotalChunkSize(): (r: int)
      ensures r == ANCILLARY_INFO_SIZE + keySize + chunkSize
    {
      ANCILLARY_INFO_SIZE + keySize + chunkSize
    }

    /** The byte offset of slot `s`. */
    function SlotOffset(s: int): (r: int)
    {
      s * TotalChunkSize()
    }

    /** getChunkDataOffset(offset) of slot `s`: the chunk data of a slot starts after its header
        and key and runs up to the next slot, so the regions of distinct slots are disjoint and
        the last one ends at the end of the buffer. */
    function ChunkDataOffset(s: int): (r: int)
      requires 0 <= s < mapSize && 0 <= keySize && 0 <= chunkSize
      ensures SlotOffset(s) + ANCILLARY_INFO_SIZE + keySize <= r
      ensures r + chunkSize == SlotOffset(s + 1) <= TotalChunkSize() * mapSize
    {
      SlotOffset(s) + ANCILLARY_INFO_SIZE + keySize
    }

    // -------------------------------------------------------------------------------------
    // findBucket and allocate

    /** findBucket: probe mapSize + 1 slots from home bucket `b`, wrapping to slot 0 at the
        end of the buffer, and return the first free one, or -1. */
    method FindBucket(b: int) returns (s: int)
      requires headers.Length == mapSize && 0 <= b < mapSize
      ensures s == SlotTable.FindBucket(Snapshot(), b)
      ensures s == -1 <==> forall x :: 0 <= x < mapSize ==> Occupied(Snapshot(), x)
    {
      ghost var t := Snapshot();
      s := -1;
      var lookupStep := 0;
      var offset := b;
      while lookupStep <= mapSize
        invariant 0 <= lookupStep <= mapSize + 1
        invariant lookupStep <= mapSize ==> offset == ProbeSlot(b, lookupStep, mapSize)
        invariant Probe(t, b, lookupStep) == Probe(t, b, 0)
        decreases mapSize + 1 - lookupStep
      {
        if IsBucketFree(headers[offset].word) {
          s := offset;
          return;
        }
        assert Probe(t, b, lookupStep) == Probe(t, b, lookupStep + 1);
        lookupStep := lookupStep + 1;
        offset := offset + 1;
        if offset >= mapSize {
          offset := 0;
        }
      }
    }

    /** allocate(offset, key): mark the slot occupied, write the key, stamp it, count it. */
    method Allocate(s: int, f: Flow, now: Int64)
      requires Shaped() && 0 <= s < mapSize
      modifies this, headers, keys
      ensures Shaped() && Snapshot() == SlotTable.Allocate(old(Snapshot()), s, f, now)
      ensures unchanged(`chains)
    {
      var h := headers[s];
      headers[s] := h.(word := Occupy(h.word), lastWrite := now);
      keys[s] := WriteTo(f, keys[s]);
      size := size + 1;
    }

    /** size(): under the invariant, the number of occupied slots. */
    method Size() returns (n: int)
      requires Valid()
      ensures n == CountOccupied(headers[..])
    {
      n := size;
    }

    // -------------------------------------------------------------------------------------
    // get

    /** allocateNewBucket: findBucket from home bucket `b`, then allocate. A negative home
        bucket makes findBucket's first read throw, and a full table makes allocate(-1)
        throw; neither writes anything. */
    method AllocateNewBucket(f: Flow, b: int, now: Int64) returns (r: Result<int>)
      requires Shaped()
      modifies this, headers, keys
      ensures unchanged(`chains) && unchanged(`buckets) && unchanged(`heads)
      ensures !(0 <= b < mapSize) ==> r == Err(OutOfBounds) && Snapshot() == old(Snapshot())
      ensures 0 <= b < mapSize ==>
        var s := SlotTable.FindBucket(old(Snapshot()), b);
        (s == -1 ==> r == Err(OutOfBounds) && Snapshot() == old(Snapshot()))
        && (s != -1 ==> r == Ok(s) && Snapshot() == SlotTable.Allocate(old(Snapshot()), s, f, now))
      ensures Shaped()
    {
      if !(0 <= b < mapSize) {
        return Err(OutOfBounds);
      }
      var s := FindBucket(b);
      if s == -1 {
        return Err(OutOfBounds);
      }
      Allocate(s, f, now);
      r := Ok(s);
    }

    /** The loop of getOrAllocateNewBucket along chain `c`: stop at the first slot that holds
        the key; move on only over a next link that is `> 0`, so a link to slot 0 leaves the
        walk where it is and the source loops forever (reported here as `diverges`); else
        end at the tail. */
    method WalkForGet(f: Flow, b: int, ghost c: seq<int>) returns (found: bool, diverges: bool, offset: int)
      requires Linked(Snapshot(), c) && b in buckets && buckets[b] == c[0]
      ensures var k := FindIndex(Snapshot(), c, f);
        var z := StallIndex(c);
        (found <==> k < z) && (found ==> offset == c[k])
        && (diverges <==> !found && z < |c|)
        && (!found && !diverges ==> offset == c[|c| - 1] && k == |c| && z == |c|)
    {
      ghost var t := Snapshot();
      ghost var z := StallIndex(c);
      offset := buckets[b];
      var nextOffset := offset;
      ghost var k := 0;
      while nextOffset >= 0
        invariant 0 <= k < |c| && offset == c[k] && nextOffset >= -1
        invariant forall j :: 0 <= j < k ==> !Matches(t, c[j], f)
        invariant forall j :: 1 <= j <= k ==> c[j] != 0
        invariant nextOffset == -1 ==> k == |c| - 1 && !Matches(t, c[k], f)
        decreases |c| - k, nextOffset + 1
      {
        if EqualsBuffer(f, keys[offset]) == Ok(true) {
          assert FindIndex(t, c, f) == k;
          return true, false, offset;
        }
        assert headers[offset] == t.headers[c[k]];
        assert IsNextLinkFlagSet(t.headers[c[k]].word) == (k + 1 < |c|);
        assert k + 1 < |c| ==> t.headers[c[k]].next == c[k + 1];
        nextOffset := NextLink(headers[offset]);
        if nextOffset > 0 {
          offset := nextOffset;
          k := k + 1;
        } else if nextOffset == 0 {
          assert z == k + 1;
          return false, true, offset;
        }
      }
      assert FindIndex(t, c, f) == |c|;
      return false, false, offset;
    }

    /** getOrAllocateNewBucket: walk the chain of the key's bucket and return the slot that
        holds the key; at the tail, allocate a new slot and link it behind the tail. The
        chains are left to the caller. */
    method GetOrAllocateNewBucket(f: Flow, now: Int64) returns (r: Result<int>)
      requires Valid() && home(f) in buckets
      modifies this, headers, keys
      ensures unchanged(`chains) && unchanged(`buckets) && unchanged(`heads)
      ensures var g := SlotTable.Get(old(Snapshot()), old(chains), f, now, home);
        r == g.0 && Snapshot() == g.1
    {
      ghost var t := Snapshot();
      ghost var C := chains;
      var b := home(f);
      ValidLinked(t, C, home, b);
      ChainFacts(t, C, home, b);
      GetOfUsedBucket(t, C, f, now, home);
      var found, diverges, offset := WalkForGet(f, b, C[b]);
      if found {
        return Ok(offset);
      } else if diverges {
        return Err(Diverges);
      }
      r := AppendNewSlot(f, b, offset, now);
    }

    /** The end of getOrAllocateNewBucket: allocate a slot from home bucket `b` and link it
        behind the occupied tail `tail` with setNextLink and setPreviousLink. */
    method AppendNewSlot(f: Flow, b: int, tail: int, now: Int64) returns (r: Result<int>)
      requires Shaped() && 0 <= b < mapSize && 0 <= tail < mapSize && Occupied(Snapshot(), tail)
      modifies this, headers, keys
      ensures unchanged(`chains) && unchanged(`buckets) && unchanged(`heads)
      ensures var s := SlotTable.FindBucket(old(Snapshot()), b);
        (s == -1 ==> r == Err(OutOfBounds) && Snapshot() == old(Snapshot()))
        && (s != -1 ==>
              r == Ok(s) && s != tail
              && Snapshot() == LinkTail(SlotTable.Allocate(old(Snapshot()), s, f, now), tail, s))
    {
      r := AllocateNewBucket(f, b, now);
      if r.Err? {
        return;
      }
      headers[tail] := WithNextLink(headers[tail], r.value);
      headers[r.value] := WithPreviousLink(headers[r.value], tail);
    }

    /** The branch of get for a bucket not in use: allocateNewBucket, then register the new
        slot as the bucket's head in both maps. The chains are left to the caller. */
    method GetNewBucket(f: Flow, now: Int64) returns (r: Result<int>)
      requires Valid() && home(f) !in buckets
      modifies this, headers, keys
      ensures unchanged(`chains)
      ensures var g := SlotTable.Get(old(Snapshot()), old(chains), f, now, home);
        r == g.0 && Snapshot() == g.1
    {
      GetOfNewBucket(Snapshot(), chains, f, now, home);
      var b := home(f);
      r := AllocateNewBucket(f, b, now);
      if r.Ok? {
        buckets := buckets[b := r.value];
        heads := heads[r.value := b];
      }
    }

    /** The slot get(key) hands out: getOrAllocateNewBucket when the key's bucket is in use,
        allocateNewBucket and the two puts otherwise. The chains are left to the caller. */
    method GetSlot(f: Flow, now: Int64) returns (offset: Result<int>)
      requires Valid()
      modifies this, headers, keys
      ensures unchanged(`chains)
      ensures var g := SlotTable.Get(old(Snapshot()), old(chains), f, now, home);
        offset == g.0 && Snapshot() == g.1
    {
      if home(f) in buckets {
        offset := GetOrAllocateNewBucket(f, now);
      } else {
        offset := GetNewBucket(f, now);
      }
    }

    /** get(key, chunkDataBuffer): the chunk data offset of the slot that holds the key
        afterwards, allocating one if need be; what the buffer is wrapped at. */
    method Get(f: Flow, now: Int64) returns (r: Result<int>)
      requires Valid()
      modifies this, headers, keys
      ensures Valid()
      ensures var g := SlotTable.Get(old(Snapshot()), old(chains), f, now, home);
        Snapshot() == g.1 && chains == g.2
        && r == (if g.0.Ok? then Ok(ChunkDataOffset(g.0.value)) else g.0)
    {
      ghost var g := SlotTable.Get(Snapshot(), chains, f, now, home);
      GetKeepsValid(Snapshot(), chains, f, now, home);
      var offset := GetSlot(f, now);
      chains := g.2;
      r := if offset.Ok? then Ok(ChunkDataOffset(offset.value)) else offset;
    }

    // -------------------------------------------------------------------------------------
    // getOffset, lock, unlock, isLocked

    /** The loop of getOffset along chain `c`: follow next links while the flag is set,
        stopping at the first slot that holds the key. */
    method WalkToKey(f: Flow, b: int, ghost c: seq<int>) returns (s: int)
      requires Linked(Snapshot(), c) && b in buckets && buckets[b] == c[0]
      ensures var k := FindIndex(Snapshot(), c, f);
        s == if k < |c| then c[k] else c[|c| - 1]
    {
      ghost var t := Snapshot();
      s := buckets[b];
      ghost var k := 0;
      while IsNextLinkFlagSet(headers[s].word)
        invariant 0 <= k < |c| && s == c[k]
        invariant forall j :: 0 <= j < k ==> !Matches(t, c[j], f)
        decreases |c| - k
      {
        if EqualsBuffer(f, keys[s]) == Ok(true) {
          assert FindIndex(t, c, f) == k;
          return;
        }
        s := headers[s].next;
        k := k + 1;
      }
      assert k == |c| - 1;
      assert !Matches(t, s, f) ==> FindIndex(t, c, f) == |c|;
    }

    /** getOffset(key): the slot holding the key, or the tail of its bucket's chain. */
    method GetOffset(f: Flow) returns (s: int)
      requires Valid() && home(f) in buckets
      ensures s == SlotTable.GetOffset(Snapshot(), chains, f, home)
    {
      var b := home(f);
      ValidLinked(Snapshot(), chains, home, b);
      s := WalkToKey(f, b, chains[b]);
    }

    /** lock(key): set the lock bit of the slot getOffset finds. */
    method Lock(f: Flow)
      requires Valid()
      modifies headers
      ensures Valid() && Snapshot() == LockKey(old(Snapshot()), chains, f, home)
    {
      ghost var t := Snapshot();
      var b := home(f);
      if b in buckets {
        var s := GetOffset(f);
        if s >= 0 {
          headers[s] := headers[s].(word := Header.Lock(headers[s].word));
        }
      }
      LockKeepsValid(t, chains, f, home);
    }

    /** unlock(key): clear the lock bit of the slot getOffset finds. */
    method Unlock(f: Flow)
      requires Valid()
      modifies headers
      ensures Valid() && Snapshot() == UnlockKey(old(Snapshot()), chains, f, home)
    {
      ghost var t := Snapshot();
      var b := home(f);
      if b in buckets {
        var s := GetOffset(f);
        if s >= 0 {
          headers[s] := headers[s].(word := Header.Unlock(headers[s].word));
        }
      }
      UnlockKeepsValid(t, chains, f, home);
    }

    /** isLocked(key): the lock bit of the slot getOffset finds, when its offset is > 0. */
    method IsLocked(f: Flow) returns (r: bool)
      requires Valid()
      ensures r == IsLockedKey(Snapshot(), chains, f, home)
    {
      r := false;
      var b := home(f);
      if b in buckets {
        var s := GetOffset(f);
        if s > 0 {
          r := Header.IsLocked(headers[s].word);
        }
      }
    }

    // -------------------------------------------------------------------------------------
    // remove

    /** setNextLink(prevLink, nextLink) and setPreviousLink(nextLink, prevLink). */
    method SpliceOutSlot(p: int, n: int)
      requires Shaped() && LinksOk(Snapshot()) && 0 <= p < mapSize && 0 <= n < mapSize
      modifies headers
      ensures Shaped() && Snapshot() == SpliceOut(old(Snapshot()), p, n)
    {
      headers[p] := WithNextLink(headers[p], n);
      headers[n] := WithPreviousLink(headers[n], p);
    }

    /** removeNextLink(prevLink). */
    method CutNextSlot(p: int)
      requires Shaped() && LinksOk(Snapshot()) && 0 <= p < mapSize
      modifies headers
      ensures Shaped() && Snapshot() == CutNext(old(Snapshot()), p)
    {
      headers[p] := headers[p].(word := RemoveNextLink(headers[p].word));
    }

    /** The two puts that make `n` the head of `bucket`, and removePreviousLink(n). */
    method PromoteSlot(bucket: int, n: int)
      requires Shaped() && LinksOk(Snapshot()) && 0 <= n < mapSize
      modifies this, headers
      ensures unchanged(`chains)
      ensures Shaped() && Snapshot() == Promote(old(Snapshot()), bucket, n, true)
    {
      buckets := buckets[bucket := n];
      heads := heads[n := bucket];
      headers[n] := headers[n].(word := RemovePreviousLink(headers[n].word));
    }

    /** The end of remove(offset): offsetToBucketMap.remove, removeNextLink, removePreviousLink,
        freeBucket and the decrement of size. */
    method ReleaseSlot(s: int)
      requires Shaped() && 0 <= s < mapSize
      modifies this, headers
      ensures unchanged(`chains)
      ensures Shaped() && Snapshot() == Release(old(Snapshot()), s)
    {
      heads := heads - {s};
      headers[s] := headers[s].(word := FreeBucket(RemovePreviousLink(RemoveNextLink(headers[s].word))));
      size := size - 1;
    }

    /** remove(offset), branch for branch, with the promoted successor's previous-link flag
        cleared (the source leaves it set; see RemoveLemmas.PromotionStrandsBucket). The chains
        are left to the caller. */
    method RemoveAt(s: int)
      requires Shaped() && LinksOk(Snapshot()) && 0 <= s < mapSize
      modifies this, headers
      ensures unchanged(`chains) && Shaped()
      ensures Snapshot() == SlotTable.RemoveAt(old(Snapshot()), s)
    {
      ghost var t := Snapshot();
      var h := headers[s];
      if IsPrevLinkFlagSet(h.word) {
        if IsNextLinkFlagSet(h.word) {
          SpliceOutSlot(h.prev, h.next);
        } else {
          CutNextSlot(h.prev);
        }
      } else {
        var bucket := if s in heads then heads[s] else MIN_VALUE;
        if IsNextLinkFlagSet(h.word) {
          PromoteSlot(bucket, h.next);
        } else {
          buckets := buckets - {bucket};
        }
      }
      assert Snapshot() == Detach(t, s, true);
      ReleaseSlot(s);
    }

    /** remove(key, offset): from position `k0` of chain `c` on, follow the next links and
        remove the first slot that holds the key; past the tail getNextLink gives -1 and the
        loop ends. */
    method RemoveFrom(f: Flow, offset: int, ghost c: seq<int>, ghost k0: nat)
      requires Shaped() && LinksOk(Snapshot()) && Linked(Snapshot(), c) && InTable(Snapshot(), c)
      requires k0 < |c| && offset == c[k0]
      modifies this, headers
      ensures unchanged(`chains) && Shaped()
      ensures var k := FindFrom(old(Snapshot()), c, f, k0);
        Snapshot() == if k < |c| then SlotTable.RemoveAt(old(Snapshot()), c[k]) else old(Snapshot())
    {
      ghost var t := Snapshot();
      var o := offset;
      ghost var k := k0;
      while o >= 0
        invariant Snapshot() == t && k0 <= k <= |c|
        invariant o >= 0 ==> k < |c| && o == c[k]
        invariant o < 0 ==> k == |c|
        invariant FindFrom(t, c, f, k) == FindFrom(t, c, f, k0)
        decreases |c| - k
      {
        if EqualsBuffer(f, keys[o]) == Ok(true) {
          RemoveAt(o);
          return;
        }
        o := NextLink(headers[o]);
        k := k + 1;
      }
    }

    /** The body of remove(key) for a bucket in use, whose chain is `c`: the walk of getOffset,
        then remove(key, offset). The chains are left to the caller. */
    method RemoveInBucket(f: Flow, b: int, ghost c: seq<int>)
      requires Shaped() && LinksOk(Snapshot()) && Linked(Snapshot(), c) && InTable(Snapshot(), c)
      requires b in buckets && buckets[b] == c[0]
      modifies this, headers
      ensures unchanged(`chains) && Shaped()
      ensures var k := FindIndex(old(Snapshot()), c, f);
        Snapshot() == if k < |c| then SlotTable.RemoveAt(old(Snapshot()), c[k]) else old(Snapshot())
    {
      ghost var t := Snapshot();
      var offset := WalkToKey(f, b, c);
      ghost var k := FindIndex(t, c, f);
      ghost var k0 := if k < |c| then k else |c| - 1;
      assert FindFrom(t, c, f, k0) == k;
      RemoveFrom(f, offset, c, k0);
    }

    /** remove(key): when the key's bucket is in use, remove(key, getOffset(key)). */
    method Remove(f: Flow)
      requires Valid()
      modifies this, headers
      ensures Valid()
      ensures Snapshot() == RemoveKey(old(Snapshot()), old(chains), f, home)
      ensures chains == RemoveKeyChains(old(Snapshot()), old(chains), f, home)
    {
      ghost var t := Snapshot();
      ghost var C := chains;
      RemoveKeyKeepsValid(t, C, f, home);
      var b := home(f);
      if b in buckets {
        ValidLinked(t, C, home, b);
        RemoveKeyByWalk(t, C, f, home);
        RemoveInBucket(f, b, C[b]);
      }
      chains := RemoveKeyChains(t, C, f, home);
    }

    // -------------------------------------------------------------------------------------
    // removeOutdatedRecords

    /** One turn of the loop of removeOutdatedRecords, corrected: remove slot `i` when it is
        occupied and its stamp is at least timeToLive before `now`, taking the sweep of `t`
        from slot `i` to slot `i + 1`. The chains are left to the caller. */
    method SweepSlot(i: int, now: Int64)
      requires Shaped() && LinksOk(Snapshot()) && 0 <= i < mapSize
      modifies this, headers
      ensures Shaped() && LinksOk(Snapshot())
      ensures Snapshot() == SweepStep(old(Snapshot()), i, now, timeToLive)
    {
      if !IsBucketFree(headers[i].word) && IsChunkOutdated(headers[i].lastWrite, now, timeToLive) {
        RemoveAt(i);
      }
    }

    /** The loop of removeOutdatedRecords(), corrected: visit every slot once, in order, and
        remove the occupied ones whose stamp is at least timeToLive before `now`. The source
        steps a byte offset by totalChunkSize(); the loop here steps the slot number. */
    method SweepSlots(now: Int64)
      requires Shaped() && LinksOk(Snapshot())
      modifies this, headers
      ensures Shaped()
      ensures Snapshot() == SweptUpTo(old(Snapshot()), mapSize, now, timeToLive)
    {
      ghost var t := Snapshot();
      assert SweptUpTo(t, 0, now, timeToLive) == t;
      var offset := 0;
      while offset < mapSize
        invariant 0 <= offset <= mapSize && Shaped() && LinksOk(Snapshot())
        invariant Snapshot() == SweptUpTo(t, offset, now, timeToLive)
      {
        SweepSlot(offset, now);
        SweptUpToNext(t, offset, now, timeToLive);
        offset := offset + 1;
      }
    }

    /** removeOutdatedRecords(), corrected: every expired entry is removed and the map stays
        valid, with the chains the removals leave. */
    method RemoveOutdatedRecords(now: Int64)
      requires Valid()
      modifies this, headers
      ensures Valid()
      ensures LinksOk(old(Snapshot())) && Snapshot() == Sweep.Sweep(old(Snapshot()), now, timeToLive)
    {
      ghost var t := Snapshot();
      SweepEffect(t, chains, home, now, timeToLive);
      SweptUpToAll(t, now, timeToLive);
      SweepSlots(now);
      ghost var C2 :| SlotTable.Valid(Sweep.Sweep(t, now, timeToLive), C2, home);
      chains := C2;
    }
  }
}
