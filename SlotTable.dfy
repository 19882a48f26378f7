/** The slot table of BufferBasedHashMap as a value: the per-slot headers and key regions of
    the off-heap buffer, the size counter and the two Int2IntHashMaps. Every operation of the
    engine is a function here, written branch for branch like the Java method it models; the
    lemmas state what each one keeps or achieves. The imperative class in BufferMap.dfy is
    proved to compute exactly these functions.

    Slots are numbered 0 .. mapSize - 1; the byte offset of slot s is s * totalChunkSize(),
    so "offset 0" is slot 0 and "offset > 0" is "slot > 0". Links and map entries hold slot
    numbers. */
module SlotTable {

  import opened JavaInt
  import opened Header
  import opened FlowKeys

  datatype Table = Table(
    headers: seq<SlotHeader>,
    keys: seq<seq<Byte>>,
    size: int,
    /** bucketAddressingMap: bucket -> slot of the chain head. */
    buckets: map<int, int>,
    /** offsetToBucketMap: slot of a chain head -> its bucket. */
    heads: map<int, int>)

  /** For each bucket in use, its chain from head to tail. The source keeps this only implicitly,
      in the links; the model names it so that the invariant can be stated. */
  type Chains = map<int, seq<int>>

  // ---------------------------------------------------------------------------------------
  // Reading a table

  predicate WellFormed(t: Table)
  {
    |t.headers| > 0 && |t.keys| == |t.headers|
    && forall s :: 0 <= s < |t.keys| ==> |t.keys[s]| >= KEY_SIZE
  }

  predicate IsSlot(t: Table, s: int) { 0 <= s < |t.headers| }

  /** The occupancy bit (FREE_FLAG) of a slot is set. */
  predicate Occupied(t: Table, s: int)
    requires IsSlot(t, s)
  {
    !IsBucketFree(t.headers[s].word)
  }

  /** The flow whose key bytes a slot holds. */
  function KeyAt(t: Table, s: int): Flow
    requires WellFormed(t) && IsSlot(t, s)
  {
    Decode(t.keys[s])
  }

  /** key.equals(getKeyInfo(offset)) on a key region of at least 16 bytes. */
  predicate Matches(t: Table, s: int, f: Flow)
    requires WellFormed(t) && IsSlot(t, s)
  {
    EqualsBuffer(f, t.keys[s]) == Ok(true)
  }

  lemma MatchesKeyAt(t: Table, s: int, f: Flow)
    requires WellFormed(t) && IsSlot(t, s)
    ensures Matches(t, s, f) <==> KeyAt(t, s) == f
  {
    EqualsBufferMeansEncoded(f, t.keys[s]);
  }

  /** getBucket: `Math.abs(hash) % mapSize`. */
  function GetBucket(hash: Int32, mapSize: int): (r: int)
    requires mapSize > 0
    ensures hash != MIN_VALUE ==> 0 <= r < mapSize
    ensures hash == MIN_VALUE ==> r == -(0x8000_0000 % mapSize) && -mapSize < r <= 0
  {
    Rem(Abs(hash), mapSize)
  }

  /** The home bucket of a flow in a table of `mapSize` slots: getBucket(key.hashCode()). */
  function Home(f: Flow, mapSize: int, mix: Int32 -> Int32): (r: int)
    requires mapSize > 0
    ensures -mapSize < r < mapSize
  {
    GetBucket(HashCode(f, mix), mapSize)
  }

  /** The number of occupied slots. */
  function CountOccupied(hs: seq<SlotHeader>): (r: nat)
    ensures r <= |hs|
  {
    if hs == [] then 0
    else CountOccupied(hs[..|hs| - 1]) + (if IsBucketFree(hs[|hs| - 1].word) then 0 else 1)
  }

  /** Rewriting one header moves the count by the change in that slot's occupancy. */
  lemma {:induction false} CountUpdate(hs: seq<SlotHeader>, s: int, h: SlotHeader)
    requires 0 <= s < |hs|
    ensures CountOccupied(hs[s := h]) == CountOccupied(hs)
      - (if IsBucketFree(hs[s].word) then 0 else 1) + (if IsBucketFree(h.word) then 0 else 1)
  {
    var n := |hs|;
    if s == n - 1 {
      assert hs[s := h][..n - 1] == hs[..n - 1];
    } else {
      assert hs[s := h][..n - 1] == hs[..n - 1][s := h];
      CountUpdate(hs[..n - 1], s, h);
    }
  }

  /** Tables that agree on the occupancy of every slot but `s` differ in count by the change
      at `s`. */
  lemma {:induction false} CountExcept(hs: seq<SlotHeader>, hs2: seq<SlotHeader>, s: int)
    requires |hs2| == |hs| && 0 <= s < |hs|
    requires forall x :: 0 <= x < |hs| && x != s ==> IsBucketFree(hs2[x].word) == IsBucketFree(hs[x].word)
    ensures CountOccupied(hs2) == CountOccupied(hs)
      - (if IsBucketFree(hs[s].word) then 0 else 1) + (if IsBucketFree(hs2[s].word) then 0 else 1)
  {
    var n := |hs|;
    if s == n - 1 {
      CountSame(hs[..n - 1], hs2[..n - 1]);
    } else {
      CountExcept(hs[..n - 1], hs2[..n - 1], s);
    }
  }

  lemma {:induction false} CountSame(hs: seq<SlotHeader>, hs2: seq<SlotHeader>)
    requires |hs2| == |hs|
    requires forall x :: 0 <= x < |hs| ==> IsBucketFree(hs2[x].word) == IsBucketFree(hs[x].word)
    ensures CountOccupied(hs2) == CountOccupied(hs)
  {
    if |hs| > 0 {
      CountSame(hs[..|hs| - 1], hs2[..|hs| - 1]);
    }
  }

  // ---------------------------------------------------------------------------------------
  // findBucket: linear probing from the home bucket

  /** The slot `i` steps after `b`, wrapping to 0 at the end of the table (one wrap is all
      the mapSize + 1 steps of findBucket can make). */
  function ProbeSlot(b: int, i: int, n: int): int
  {
    if b + i < n then b + i else b + i - n
  }

  /** How many probe steps lead from `b` to `s`. */
  function Distance(b: int, s: int, n: int): int
  {
    if s >= b then s - b else s - b + n
  }

  /** The do/while of findBucket from step `i` on: lookupStep runs 0 .. mapSize, so mapSize + 1
      slots are looked at (the home bucket twice when every slot is occupied). */
  function Probe(t: Table, b: int, i: nat): (r: int)
    requires 0 <= b < |t.headers|
    requires i <= |t.headers| + 1
    decreases |t.headers| + 1 - i
  {
    if i > |t.headers| then -1
    else if !Occupied(t, ProbeSlot(b, i, |t.headers|)) then ProbeSlot(b, i, |t.headers|)
    else Probe(t, b, i + 1)
  }

  /** findBucket from home bucket `b`: a free slot when there is one, and the first free slot
      in probe order; -1 exactly when every slot is occupied. */
  function FindBucket(t: Table, b: int): (r: int)
    requires 0 <= b < |t.headers|
    ensures r == -1 <==> forall s :: 0 <= s < |t.headers| ==> Occupied(t, s)
    ensures r != -1 ==> IsSlot(t, r) && !Occupied(t, r)
    ensures r != -1 ==> forall i :: 0 <= i < Distance(b, r, |t.headers|) ==> Occupied(t, ProbeSlot(b, i, |t.headers|))
  {
    ProbeFacts(t, b, 0);
    Probe(t, b, 0)
  }

  lemma {:induction false} ProbeFacts(t: Table, b: int, i: nat)
    requires 0 <= b < |t.headers|
    requires i <= |t.headers| + 1
    requires forall k :: 0 <= k < i ==> Occupied(t, ProbeSlot(b, k, |t.headers|))
    ensures var r := Probe(t, b, i);
      (r == -1 <==> forall s :: 0 <= s < |t.headers| ==> Occupied(t, s))
      && (r != -1 ==> IsSlot(t, r) && !Occupied(t, r))
      && (r != -1 ==> forall k :: 0 <= k < Distance(b, r, |t.headers|) ==> Occupied(t, ProbeSlot(b, k, |t.headers|)))
    decreases |t.headers| + 1 - i
  {
    var n := |t.headers|;
    if i > n {
      forall s | 0 <= s < n ensures Occupied(t, s) {
        assert ProbeSlot(b, Distance(b, s, n), n) == s;
      }
    } else if !Occupied(t, ProbeSlot(b, i, n)) {
      var r := ProbeSlot(b, i, n);
      assert !(forall s :: 0 <= s < n ==> Occupied(t, s));
      assert Distance(b, r, n) <= i;
    } else {
      ProbeFacts(t, b, i + 1);
    }
  }

  // ---------------------------------------------------------------------------------------
  // allocate

  /** allocate(offset, key): set the occupancy bit (other flags kept), write the key bytes,
      stamp the slot with `now` and count it. */
  function Allocate(t: Table, s: int, f: Flow, now: Int64): (r: Table)
    requires WellFormed(t) && IsSlot(t, s)
    ensures WellFormed(r) && |r.headers| == |t.headers|
    ensures Occupied(r, s) && KeyAt(r, s) == f && r.headers[s].lastWrite == now
    ensures FlagsOf(r.headers[s].word) == FlagsOf(t.headers[s].word).(occupied := true)
    ensures r.headers[s].next == t.headers[s].next && r.headers[s].prev == t.headers[s].prev
    ensures r.size == t.size + 1
    ensures forall x :: IsSlot(t, x) && x != s ==> r.headers[x] == t.headers[x] && r.keys[x] == t.keys[x]
    ensures r.buckets == t.buckets && r.heads == t.heads
  {
    var h := t.headers[s];
    DecodeEncode(f, WriteTo(f, t.keys[s]));
    t.(headers := t.headers[s := h.(word := Occupy(h.word), lastWrite := now)],
       keys := t.keys[s := WriteTo(f, t.keys[s])],
       size := t.size + 1)
  }

  // ---------------------------------------------------------------------------------------
  // The invariant

  /** Position `j` of chain `c` of bucket `b` is a well-linked node: an occupied slot whose key
      hashes to `b`, whose next-link flag is set exactly off the tail, pointing at the following
      node, and whose previous-link flag is set exactly off the head, pointing at the preceding
      node. */
  ghost predicate NodeOk(t: Table, c: seq<int>, j: int, b: int, home: Flow -> int)
    requires WellFormed(t) && 0 <= j < |c|
  {
    var s := c[j];
    IsSlot(t, s) && Occupied(t, s)
    && home(KeyAt(t, s)) == b
    && IsNextLinkFlagSet(t.headers[s].word) == (j + 1 < |c|)
    && (j + 1 < |c| ==> t.headers[s].next == c[j + 1])
    && IsPrevLinkFlagSet(t.headers[s].word) == (j > 0)
    && (j > 0 ==> t.headers[s].prev == c[j - 1])
  }

  /** A chain: non-empty, every node well linked, no key twice. */
  ghost predicate ChainOk(t: Table, c: seq<int>, b: int, home: Flow -> int)
    requires WellFormed(t)
  {
    0 <= b < |t.headers| && |c| > 0
    && (forall j :: 0 <= j < |c| ==> NodeOk(t, c, j, b, home))
    && (forall i, j :: 0 <= i < j < |c| && IsSlot(t, c[i]) && IsSlot(t, c[j]) ==> KeyAt(t, c[i]) != KeyAt(t, c[j]))
  }

  /** The two maps register exactly the chain heads, in both directions. */
  ghost predicate MapsOk(t: Table, C: Chains)
  {
    t.buckets.Keys == C.Keys
    && (forall b :: b in C ==> |C[b]| > 0 && t.buckets[b] == C[b][0])
    && (forall b :: b in C ==> |C[b]| > 0 && C[b][0] in t.heads && t.heads[C[b][0]] == b)
    && (forall o :: o in t.heads ==> t.heads[o] in C && |C[t.heads[o]]| > 0 && C[t.heads[o]][0] == o)
  }

  /** Every occupied slot lies on the chain of its key's home bucket. */
  ghost predicate Reachable(t: Table, C: Chains, home: Flow -> int)
    requires WellFormed(t)
  {
    forall s :: IsSlot(t, s) && Occupied(t, s) ==>
      var b := home(KeyAt(t, s));
      b in C && s in C[b]
  }

  /** A free slot carries no link flags. */
  ghost predicate FreeSlotsUnlinked(t: Table)
  {
    forall s :: IsSlot(t, s) && !Occupied(t, s) ==>
      !IsNextLinkFlagSet(t.headers[s].word) && !IsPrevLinkFlagSet(t.headers[s].word)
  }

  /** The invariant of the map, with `C` the chains its links spell out. */
  ghost predicate Valid(t: Table, C: Chains, home: Flow -> int)
  {
    WellFormed(t)
    && (forall b :: b in C ==> ChainOk(t, C[b], b, home))
    && MapsOk(t, C)
    && Reachable(t, C, home)
    && FreeSlotsUnlinked(t)
    && t.size == CountOccupied(t.headers)
  }

  /** The map as the constructor leaves it: a zero-filled region and empty maps. */
  function Empty(mapSize: int, keySize: int): (t: Table)
    requires mapSize > 0 && keySize >= KEY_SIZE
    ensures forall home :: Valid(t, map[], home)
    ensures t.size == 0 && t.buckets == map[] && t.heads == map[]
  {
    var t := Table(seq(mapSize, _ => EMPTY_HEADER), seq(mapSize, _ => seq(keySize, _ => 0)), 0, map[], map[]);
    EmptyCount(mapSize);
    t
  }

  lemma {:induction false} EmptyCount(n: nat)
    ensures CountOccupied(seq(n, _ => EMPTY_HEADER)) == 0
  {
    if n > 0 {
      assert seq(n, _ => EMPTY_HEADER)[..n - 1] == seq(n - 1, _ => EMPTY_HEADER);
      EmptyCount(n - 1);
    }
  }

  /** Under the invariant every link a flag announces names a slot of the table. */
  lemma LinksInRange(t: Table, C: Chains, home: Flow -> int, s: int)
    requires Valid(t, C, home) && IsSlot(t, s)
    ensures IsNextLinkFlagSet(t.headers[s].word) ==> IsSlot(t, t.headers[s].next)
    ensures IsPrevLinkFlagSet(t.headers[s].word) ==> IsSlot(t, t.headers[s].prev)
  {
    if Occupied(t, s) {
      var b := home(KeyAt(t, s));
      var c := C[b];
      var j :| 0 <= j < |c| && c[j] == s;
      assert NodeOk(t, c, j, b, home);
      if j + 1 < |c| { assert NodeOk(t, c, j + 1, b, home); }
      if j > 0 { assert NodeOk(t, c, j - 1, b, home); }
    }
  }

  /** Every link a flag announces names a slot of the table: what the source needs so that no
      getInt/putInt on a link throws. */
  predicate LinksOk(t: Table)
  {
    forall s :: 0 <= s < |t.headers| ==>
      (IsNextLinkFlagSet(t.headers[s].word) ==> IsSlot(t, t.headers[s].next))
      && (IsPrevLinkFlagSet(t.headers[s].word) ==> IsSlot(t, t.headers[s].prev))
  }

  lemma ValidLinksOk(t: Table, C: Chains, home: Flow -> int)
    requires Valid(t, C, home)
    ensures LinksOk(t)
  {
    forall s | 0 <= s < |t.headers|
      ensures (IsNextLinkFlagSet(t.headers[s].word) ==> IsSlot(t, t.headers[s].next))
           && (IsPrevLinkFlagSet(t.headers[s].word) ==> IsSlot(t, t.headers[s].prev))
    {
      LinksInRange(t, C, home, s);
    }
  }

  // ---------------------------------------------------------------------------------------
  // Walking a chain

  ghost predicate InTable(t: Table, c: seq<int>)
  {
    forall x :: x in c ==> IsSlot(t, x)
  }

  /** What the invariant says about one chain, unpacked. */
  lemma ChainFacts(t: Table, C: Chains, home: Flow -> int, b: int)
    requires Valid(t, C, home) && b in C
    ensures ChainOk(t, C[b], b, home) && |C[b]| > 0 && InTable(t, C[b])
    ensures forall x :: x in C[b] ==> Occupied(t, x) && home(KeyAt(t, x)) == b
    ensures b in t.buckets && t.buckets[b] == C[b][0]
  {
    var c := C[b];
    assert ChainOk(t, c, b, home);
    forall x | x in c ensures IsSlot(t, x) && Occupied(t, x) && home(KeyAt(t, x)) == b {
      var j :| 0 <= j < |c| && c[j] == x;
      assert NodeOk(t, c, j, b, home);
    }
  }

  /** The first position from `i` on whose slot holds `f`, or |c|. */
  function FindFrom(t: Table, c: seq<int>, f: Flow, i: nat): (k: nat)
    requires WellFormed(t) && InTable(t, c) && i <= |c|
    ensures i <= k <= |c|
    ensures k < |c| ==> Matches(t, c[k], f)
    ensures forall j :: i <= j < k ==> !Matches(t, c[j], f)
    decreases |c| - i
  {
    if i == |c| then i
    else if Matches(t, c[i], f) then i
    else FindFrom(t, c, f, i + 1)
  }

  /** The first position of the chain whose slot holds `f`, or |c|. */
  function FindIndex(t: Table, c: seq<int>, f: Flow): (k: nat)
    requires WellFormed(t) && InTable(t, c)
    ensures k <= |c|
    ensures k < |c| ==> Matches(t, c[k], f)
    ensures forall j :: 0 <= j < k ==> !Matches(t, c[j], f)
  {
    FindFrom(t, c, f, 0)
  }

  /** The first position past the head that links to slot 0, or |c|. The walk of
      getOrAllocateNewBucket only follows a link that is `> 0`, so it cannot get past it. */
  function StallIndex(c: seq<int>): (z: nat)
    ensures z <= |c|
    ensures z < |c| ==> z >= 1 && c[z] == 0
    ensures forall j :: 1 <= j < z ==> c[j] != 0
  {
    if |c| <= 1 then |c|
    else if c[|c| - 1] != 0 then
      (var z := StallIndex(c[..|c| - 1]); if z == |c| - 1 then |c| else z)
    else
      (var z := StallIndex(c[..|c| - 1]); if z < |c| - 1 then z else |c| - 1)
  }

  // ---------------------------------------------------------------------------------------
  // get

  /** Put a new slot at the end of a chain: setNextLink(tail, s), setPreviousLink(s, tail). */
  function LinkTail(t: Table, tail: int, s: int): (r: Table)
    requires IsSlot(t, tail) && IsSlot(t, s) && tail != s
    ensures |r.headers| == |t.headers| && r.keys == t.keys && r.size == t.size
    ensures r.buckets == t.buckets && r.heads == t.heads
    ensures NextLink(r.headers[tail]) == s && r.headers[s].prev == tail
    ensures FlagsOf(r.headers[tail].word) == FlagsOf(t.headers[tail].word).(nextLink := true)
    ensures FlagsOf(r.headers[s].word) == FlagsOf(t.headers[s].word).(prevLink := true)
    ensures r.headers[s].next == t.headers[s].next && r.headers[tail].prev == t.headers[tail].prev
    ensures forall x :: IsSlot(t, x) && x != tail && x != s ==> r.headers[x] == t.headers[x]
  {
    var hs := t.headers[tail := WithNextLink(t.headers[tail], s)];
    t.(headers := hs[s := WithPreviousLink(hs[s], tail)])
  }

  /** Register a new chain head in both maps. */
  function RegisterHead(t: Table, b: int, s: int): (r: Table)
    ensures r.headers == t.headers && r.keys == t.keys && r.size == t.size
    ensures r.buckets == t.buckets[b := s] && r.heads == t.heads[s := b]
  {
    t.(buckets := t.buckets[b := s], heads := t.heads[s := b])
  }

  /** get(key): the slot that holds `f` afterwards, together with the new table and chains.
      An existing entry is found by walking its bucket's chain; a new key gets the first free
      slot in probe order from its home bucket and becomes the head of a new chain or the new
      tail of the existing one. A full table makes allocate(-1) throw, a home bucket outside
      the table makes findBucket's first read throw, and a chain that links to slot 0 before
      the key is found makes the walk spin forever. */
  ghost function Get(t: Table, C: Chains, f: Flow, now: Int64, home: Flow -> int): (g: (Result<int>, Table, Chains))
    requires Valid(t, C, home)
    ensures g.0.Ok? ==> IsSlot(t, g.0.value)
  {
    var b := home(f);
    if b in t.buckets then
      var c := C[b];
      ChainFacts(t, C, home, b);
      var k := FindIndex(t, c, f);
      var z := StallIndex(c);
      if k < z then (Ok(c[k]), t, C)
      else if z < |c| then (Err(Diverges), t, C)
      else
        var s := FindBucket(t, b);
        if s == -1 then (Err(OutOfBounds), t, C)
        else (Ok(s), LinkTail(Allocate(t, s, f, now), c[|c| - 1], s), C[b := c + [s]])
    else if !(0 <= b < |t.headers|) then (Err(OutOfBounds), t, C)
    else
      var s := FindBucket(t, b);
      if s == -1 then (Err(OutOfBounds), t, C)
      else (Ok(s), RegisterHead(Allocate(t, s, f, now), b, s), C[b := [s]])
  }

  // ---------------------------------------------------------------------------------------
  // getOffset, lock, unlock, isLocked

  /** getOffset(key): walk while the next-link flag is set and stop at the first slot holding
      `f`; the tail is returned whether or not it holds `f`. */
  ghost function GetOffset(t: Table, C: Chains, f: Flow, home: Flow -> int): (s: int)
    requires Valid(t, C, home) && home(f) in t.buckets
    ensures IsSlot(t, s) && s in C[home(f)]
  {
    var c := C[home(f)];
    ChainFacts(t, C, home, home(f));
    var k := FindIndex(t, c, f);
    if k < |c| then c[k] else c[|c| - 1]
  }

  /** Apply a word update to one slot. */
  function UpdateWord(t: Table, s: int, w: bv32): (r: Table)
    requires IsSlot(t, s)
    ensures |r.headers| == |t.headers| && r.keys == t.keys && r.size == t.size
    ensures r.buckets == t.buckets && r.heads == t.heads
    ensures r.headers[s] == t.headers[s].(word := w)
    ensures forall x :: IsSlot(t, x) && x != s ==> r.headers[x] == t.headers[x]
  {
    t.(headers := t.headers[s := t.headers[s].(word := w)])
  }

  /** lock(key): set the lock bit of the slot getOffset finds, when the bucket is in use. */
  ghost function LockKey(t: Table, C: Chains, f: Flow, home: Flow -> int): (r: Table)
    requires Valid(t, C, home)
    ensures |r.headers| == |t.headers| && r.keys == t.keys && r.size == t.size
    ensures r.buckets == t.buckets && r.heads == t.heads
    ensures home(f) in t.buckets ==> IsLocked(r.headers[GetOffset(t, C, f, home)].word)
  {
    if home(f) in t.buckets then
      var s := GetOffset(t, C, f, home);
      UpdateWord(t, s, Lock(t.headers[s].word))
    else t
  }

  /** unlock(key): clear the lock bit of the slot getOffset finds, when the bucket is in use. */
  ghost function UnlockKey(t: Table, C: Chains, f: Flow, home: Flow -> int): (r: Table)
    requires Valid(t, C, home)
    ensures |r.headers| == |t.headers| && r.keys == t.keys && r.size == t.size
    ensures r.buckets == t.buckets && r.heads == t.heads
    ensures home(f) in t.buckets ==> !IsLocked(r.headers[GetOffset(t, C, f, home)].word)
  {
    if home(f) in t.buckets then
      var s := GetOffset(t, C, f, home);
      UpdateWord(t, s, Unlock(t.headers[s].word))
    else t
  }

  /** isLocked(key): the lock bit of the slot getOffset finds, read only when its offset is
      strictly positive, so slot 0 always reads as unlocked. */
  ghost function IsLockedKey(t: Table, C: Chains, f: Flow, home: Flow -> int): (r: bool)
    requires Valid(t, C, home)
    ensures r ==> home(f) in C
                  && exists s :: s in C[home(f)] && 0 < s < |t.headers| && IsLocked(t.headers[s].word)
  {
    home(f) in t.buckets
    && var s := GetOffset(t, C, f, home);
       s > 0 && IsLocked(t.headers[s].word)
  }

  // ---------------------------------------------------------------------------------------
  // remove

  /** `r` differs from `t` at most in link flags, links and the two maps. */
  ghost predicate LinksOnlyChanged(t: Table, r: Table)
  {
    |r.headers| == |t.headers| && r.keys == t.keys && r.size == t.size
    && forall y :: 0 <= y < |t.headers| ==>
         IsBucketFree(r.headers[y].word) == IsBucketFree(t.headers[y].word)
         && IsLocked(r.headers[y].word) == IsLocked(t.headers[y].word)
         && r.headers[y].lastWrite == t.headers[y].lastWrite
  }

  /** setNextLink(p, n) and setPreviousLink(n, p): `p` and `n` become neighbours. */
  function SpliceOut(t: Table, p: int, n: int): (r: Table)
    requires IsSlot(t, p) && IsSlot(t, n) && LinksOk(t)
    ensures LinksOnlyChanged(t, r) && LinksOk(r)
    ensures r.buckets == t.buckets && r.heads == t.heads
    ensures p != n ==> r.headers[p] == WithNextLink(t.headers[p], n) && r.headers[n] == WithPreviousLink(t.headers[n], p)
    ensures forall x :: IsSlot(t, x) && x != p && x != n ==> r.headers[x] == t.headers[x]
  {
    var hs := t.headers[p := WithNextLink(t.headers[p], n)];
    t.(headers := hs[n := WithPreviousLink(hs[n], p)])
  }

  /** removeNextLink(p): `p` becomes the tail. */
  function CutNext(t: Table, p: int): (r: Table)
    requires IsSlot(t, p) && LinksOk(t)
    ensures LinksOnlyChanged(t, r) && LinksOk(r)
    ensures r.buckets == t.buckets && r.heads == t.heads
    ensures r.headers[p] == t.headers[p].(word := RemoveNextLink(t.headers[p].word))
    ensures forall x :: IsSlot(t, x) && x != p ==> r.headers[x] == t.headers[x]
  {
    UpdateWord(t, p, RemoveNextLink(t.headers[p].word))
  }

  /** bucketAddressingMap.put(bucket, n) and offsetToBucketMap.put(n, bucket), and, when
      `clearPrev` holds, removePreviousLink(n). */
  function Promote(t: Table, bucket: int, n: int, clearPrev: bool): (r: Table)
    requires IsSlot(t, n) && LinksOk(t)
    ensures LinksOnlyChanged(t, r) && LinksOk(r)
    ensures r.buckets == t.buckets[bucket := n] && r.heads == t.heads[n := bucket]
    ensures r.headers[n] == (if clearPrev then t.headers[n].(word := RemovePreviousLink(t.headers[n].word)) else t.headers[n])
    ensures forall x :: IsSlot(t, x) && x != n ==> r.headers[x] == t.headers[x]
  {
    var t2 := t.(buckets := t.buckets[bucket := n], heads := t.heads[n := bucket]);
    if clearPrev then UpdateWord(t2, n, RemovePreviousLink(t.headers[n].word)) else t2
  }

  /** The last steps of remove(offset): drop the slot's map entry, clear both of its link
      flags and its occupancy bit, and count it out. */
  function Release(t: Table, s: int): (r: Table)
    requires IsSlot(t, s)
    ensures |r.headers| == |t.headers| && r.keys == t.keys && r.size == t.size - 1
    ensures r.buckets == t.buckets && r.heads == t.heads - {s}
    ensures r.headers[s] == t.headers[s].(word := FreeBucket(RemovePreviousLink(RemoveNextLink(t.headers[s].word))))
    ensures forall x :: IsSlot(t, x) && x != s ==> r.headers[x] == t.headers[x]
  {
    var w := t.headers[s].word;
    t.(heads := t.heads - {s},
       headers := t.headers[s := t.headers[s].(word := FreeBucket(RemovePreviousLink(RemoveNextLink(w))))],
       size := t.size - 1)
  }

  /** remove(offset), branch for branch. A slot with a previous link is spliced out of the
      middle or cut off the end of its chain; a slot without one is a head, so the bucket is
      either handed to its successor or dropped. Then the slot is released. `clearPromotedPrev`
      says whether the promoted successor also loses its previous-link flag: the source does
      not do this (RemoveAtAsWritten), the corrected removal does (RemoveAt). */
  function Unlink(t: Table, s: int, clearPromotedPrev: bool): (r: Table)
    requires WellFormed(t) && LinksOk(t) && IsSlot(t, s)
    ensures WellFormed(r) && |r.headers| == |t.headers| && r.keys == t.keys
    ensures r.size == t.size - 1
    ensures var w := r.headers[s].word;
      !FlagsOf(w).occupied && !FlagsOf(w).nextLink && !FlagsOf(w).prevLink
    ensures s !in r.heads
    ensures LinksOk(r)
    ensures forall y :: 0 <= y < |t.headers| ==> r.headers[y].lastWrite == t.headers[y].lastWrite
  {
    Release(Detach(t, s, clearPromotedPrev), s)
  }

  /** The branches of remove(offset) before the slot is released: only link flags, links and
      the two maps change, and every announced link stays inside the table. */
  function Detach(t: Table, s: int, clearPromotedPrev: bool): (r: Table)
    requires WellFormed(t) && LinksOk(t) && IsSlot(t, s)
    ensures LinksOnlyChanged(t, r) && LinksOk(r)
  {
    var h := t.headers[s];
    if IsPrevLinkFlagSet(h.word) then
      if IsNextLinkFlagSet(h.word) then SpliceOut(t, h.prev, h.next)
      else CutNext(t, h.prev)
    else
      var bucket := if s in t.heads then t.heads[s] else MIN_VALUE;
      if IsNextLinkFlagSet(h.word) then Promote(t, bucket, h.next, clearPromotedPrev)
      else t.(buckets := t.buckets - {bucket})
  }

  /** The head branch of remove(offset) on a slot that is not a registered head but has a next
      link: offsetToBucketMap.get yields the map's missing value MIN_VALUE, and after
      bucketAddressingMap.put(MIN_VALUE, next) the call offsetToBucketMap.put(next, MIN_VALUE)
      is refused by Int2IntHashMap, which never stores its missing value. */
  predicate PromotionRejected(t: Table, s: int)
    requires IsSlot(t, s)
  {
    var w := t.headers[s].word;
    !IsPrevLinkFlagSet(w) && IsNextLinkFlagSet(w) && s !in t.heads
  }

  /** remove(offset) as the source writes it: a promoted head keeps its previous-link flag, and
      a promotion with no bucket to hand over throws after its first map update, leaving the
      slot itself untouched. */
  function RemoveAtAsWritten(t: Table, s: int): (r: (Result<()>, Table))
    requires WellFormed(t) && LinksOk(t) && IsSlot(t, s)
    ensures r.0.Ok? <==> !PromotionRejected(t, s)
    ensures r.0.Err? ==> r.0.error == IllegalArgument
    ensures WellFormed(r.1) && |r.1.headers| == |t.headers| && LinksOk(r.1) && r.1.keys == t.keys
    ensures forall y :: 0 <= y < |t.headers| ==> r.1.headers[y].lastWrite == t.headers[y].lastWrite
    ensures r.0.Ok? ==> r.1.size == t.size - 1 && !Occupied(r.1, s)
    ensures r.0.Err? ==>
      r.1.headers == t.headers && r.1.size == t.size && r.1.heads == t.heads
      && r.1.buckets == t.buckets[MIN_VALUE := t.headers[s].next]
  {
    if PromotionRejected(t, s) then (Err(IllegalArgument), t.(buckets := t.buckets[MIN_VALUE := t.headers[s].next]))
    else (Ok(()), Unlink(t, s, false))
  }

  /** remove(offset) with the promoted head's previous-link flag cleared. */
  function RemoveAt(t: Table, s: int): (r: Table)
    requires WellFormed(t) && LinksOk(t) && IsSlot(t, s)
    ensures WellFormed(r) && |r.headers| == |t.headers| && r.size == t.size - 1 && !Occupied(r, s)
    ensures LinksOk(r) && r.keys == t.keys
    ensures forall y :: 0 <= y < |t.headers| ==> r.headers[y].lastWrite == t.headers[y].lastWrite
  {
    Unlink(t, s, true)
  }

  /** remove(key): when the home bucket is in use, the slot getOffset finds is removed if it
      holds the key; otherwise the walk of remove(key, offset) runs off the end of the chain
      (the slot getOffset returns is then the tail) and nothing changes. */
  ghost function RemoveKey(t: Table, C: Chains, f: Flow, home: Flow -> int): (r: Table)
    requires Valid(t, C, home)
    ensures WellFormed(r) && LinksOk(r) && |r.headers| == |t.headers| && r.keys == t.keys
    ensures r == t || r.size == t.size - 1
  {
    ValidLinksOk(t, C, home);
    if home(f) in t.buckets then
      var s := GetOffset(t, C, f, home);
      if Matches(t, s, f) then RemoveAt(t, s) else t
    else t
  }
}
