# BufferBasedHashMap in Dafny

A model of the off-heap flow table of `foreign-memory-hash-map`: `BufferBasedHashMap`, a hash
map whose entries live in one fixed byte buffer of `mapSize` slots, and `FlowKey`, the
16-byte key it is used with.

Each slot is `16 + keySize + chunkSize` bytes. The first 16 bytes are the slot header:
- a control word of flag bits (locked, occupied, has-next-link, has-previous-link);
- the previous-slot link;
- the last-write timestamp.

Then come the key bytes and the chunk data that `get` hands out. Keys whose hashes share a
bucket form a doubly linked chain of slots. New slots are found by linear probing from the
home bucket. Two `Int2IntHashMap`s register each chain's head: `bucketAddressingMap` maps a
bucket to its head slot, and `offsetToBucketMap` maps a head slot to its bucket.
`removeOutdatedRecords` sweeps away the entries whose timestamp is older than `timeToLive`.

The modules:

- `JavaInt`: Java `int`/`long` wrap-around, `Math.abs`, the truncating `%`, and the two
  ways an operation can fail. `Err(OutOfBounds)` stands for an
  `IndexOutOfBoundsException` from a bounds-checked buffer access. `Err(Diverges)` stands
  for a loop that never ends.
- `Header`: the flag bits and their single-bit updates on `bv32`. It also holds the packed
  next-link codec exactly as the source writes it, with its round trip characterised, and
  a corrected codec. The engine's header type `SlotHeader` keeps the next link in its own
  field.
- `FlowKeys`: `FlowKey` as a value (`Flow`) and as a class.
  - its 16-byte encoding (`write`) and decoding, with both round trips;
  - `equals(DirectBuffer)` with its out-of-bounds paths;
  - `hashCode` over wrapping `int` arithmetic;
  - the setters, `keySize` and `write` on an `array`.
- `SlotTable`: the whole map as a value `Table` (headers, key regions, size, both maps).
  - every engine operation as a function, branch for branch;
  - the invariant `Valid(t, C, home)`. Here `C` names the chains that the links spell out;
    the source keeps them only implicitly.
- `GetLemmas`, `LockLemmas`, `RemoveLemmas`, `Sweep`: what `get`, `lock`/`unlock`/`isLocked`,
  `remove` and `removeOutdatedRecords` keep and achieve.
- `BufferMap`: `BufferBasedHashMap` as a class over two arrays (headers, key regions), a
  size field and two map fields. Every method is proved to leave exactly the `Table` that
  the matching `SlotTable`/`Sweep` function computes. The methods the source makes public
  (`get`, `remove`, `lock`, `unlock`, `isLocked`, `size`, `removeOutdatedRecords`) keep
  `Valid()`.

Several behaviours are kept as written:
- `getOffset` returns the chain's tail when the key is absent, so `lock`/`unlock` of an
  absent key touch the tail's lock bit.
- `isLocked` tests `offset > 0`, so slot 0 always reads unlocked.
- `getOrAllocateNewBucket` follows a next link only when it is `> 0`, so a chain that
  links to slot 0 behind its head makes `get` spin (`Err(Diverges)`).
- The timestamp is written only when a slot is allocated, not when an existing key is
  read again.
- A lock bit survives removal.
- remove(offset) on a slot with a next link, but with no previous link and no
  offsetToBucketMap entry, reads the bucket as the map's missing value `MIN_VALUE` and then
  throws when it tries to store that value (`SlotTable.RemoveAtAsWritten`). Such a slot
  arises only after the promotion flaw below, and it stops the as-written sweep.

Three flaws of the source are described under Findings. The class uses the corrected
`remove(offset)` and the corrected sweep.

## Model

| member | source | states |
|---|---|---|
| `JavaInt.Wrap` | src/main/java/dev/maksutov/map/FlowKey.java:83-85 | `int` arithmetic wraps modulo 2^32, and a value already in range is unchanged |
| `JavaInt.Wrap64` | src/main/java/dev/maksutov/map/BufferBasedHashMap.java:161 | the `long` subtraction in the age test wraps modulo 2^64 |
| `JavaInt.Abs` | src/main/java/dev/maksutov/map/BufferBasedHashMap.java:340 | `Math.abs` returns `x` or `-x` and is non-negative, except at `MIN_VALUE`, which it returns unchanged |
| `JavaInt.Rem` | src/main/java/dev/maksutov/map/BufferBasedHashMap.java:340 | Java `%`: for a non-negative dividend it is the ordinary remainder in `[0, m)`; for a negative one it is in `(-m, 0]`, with the sign of the dividend |
| `Header.Lock` | src/main/java/dev/maksutov/map/BufferBasedHashMap.java:302-306 | sets the locked flag; the other 31 bits are unchanged |
| `Header.Unlock` | src/main/java/dev/maksutov/map/BufferBasedHashMap.java:296-300 | clears the locked flag; the other 31 bits are unchanged |
| `Header.Occupy` | src/main/java/dev/maksutov/map/BufferBasedHashMap.java:223-224 | allocate's `\| FREE_FLAG` marks the slot occupied and keeps every other bit |
| `Header.FreeBucket` | src/main/java/dev/maksutov/map/BufferBasedHashMap.java:290-294 | marks the slot free and keeps every other bit |
| `Header.RemoveNextLink` | src/main/java/dev/maksutov/map/BufferBasedHashMap.java:332-336 | clears only the next-link flag |
| `Header.RemovePreviousLink` | src/main/java/dev/maksutov/map/BufferBasedHashMap.java:326-330 | clears only the previous-link flag |
| `Header.MarkPreviousLink` | src/main/java/dev/maksutov/map/BufferBasedHashMap.java:343-348 | sets only the previous-link flag |
| `Header.MarkNextLink` | src/main/java/dev/maksutov/map/BufferBasedHashMap.java:350-355 | sets only the next-link flag |
| `Header.ReleaseKeepsLock` | src/main/java/dev/maksutov/map/BufferBasedHashMap.java:136-138 | the header updates at the end of remove(offset) leave the slot free with its lock bit as it was |
| `Header.UnlockUndoesLock` | src/main/java/dev/maksutov/map/BufferBasedHashMap.java:296-306 | unlock after lock gives the same word as unlock alone |
| `Header.SetNextLinkKeepsFlags` | src/main/java/dev/maksutov/map/BufferBasedHashMap.java:350-355 | setNextLink sets the next-link flag and keeps the locked, occupied and previous-link flags |
| `Header.GetNextLinkWithoutFlag` | src/main/java/dev/maksutov/map/BufferBasedHashMap.java:357-364 | getNextLink yields -1 whenever the next-link flag is clear |
| `Header.NextLinkRoundTripAsWritten` | src/main/java/dev/maksutov/map/BufferBasedHashMap.java:350-364 | reading back a link written by setNextLink returns it if and only if its low four bits are zero and it fits the 28-bit field |
| `Header.NextLinkAt36ReadsBack32` | src/main/java/dev/maksutov/map/BufferBasedHashMap.java:350-364 | a link to byte offset 36 reads back as 32 |
| `Header.NextLinkRoundTripFixed` | src/main/java/dev/maksutov/map/BufferBasedHashMap.java:350-364 | with the mask 0xFFFFFFF0, every link that fits the 28-bit field reads back exactly, and the other flags survive |
| `Header.WithNextLink` | src/main/java/dev/maksutov/map/BufferBasedHashMap.java:350-364 | on the separate next field, the link written is read back, the flag is set, and the other flags, the previous link and the stamp are kept |
| `Header.WithPreviousLink` | src/main/java/dev/maksutov/map/BufferBasedHashMap.java:343-348 | writes the previous link, sets its flag, and keeps the other flags, the next link and the stamp |
| `FlowKeys.GetIntOfIntBytes` | src/main/java/dev/maksutov/map/FlowKey.java:88-118 | getInt reads back the int that putInt stored |
| `FlowKeys.IntBytesOfGetInt` | src/main/java/dev/maksutov/map/FlowKey.java:88-104 | any four bytes are the putInt bytes of the int getInt reads from them |
| `FlowKeys.Encode` | src/main/java/dev/maksutov/map/FlowKey.java:107-118 | write stores exactly keySize() = 16 bytes; `Decode` inverts it (`FlowKeys.DecodeEncode`) |
| `FlowKeys.EncodeFields` | src/main/java/dev/maksutov/map/FlowKey.java:107-118 | write lays out source address, source port, destination address and destination port at byte offsets 0, 4, 8 and 12 |
| `FlowKeys.DecodeEncode` | src/main/java/dev/maksutov/map/FlowKey.java:88-118 | decoding the written key bytes gives back the flow |
| `FlowKeys.EncodeDecode` | src/main/java/dev/maksutov/map/FlowKey.java:88-118 | any 16 bytes are the encoding of the flow they decode to |
| `FlowKeys.EncodeInjective` | src/main/java/dev/maksutov/map/FlowKey.java:107-118 | distinct flows have distinct key bytes |
| `FlowKeys.EqualsBuffer` | src/main/java/dev/maksutov/map/FlowKey.java:88-104 | equals never throws on a full 16-byte region, and can answer true only on one |
| `FlowKeys.EqualsBufferMeansEncoded` | src/main/java/dev/maksutov/map/FlowKey.java:88-104 | on a full region, equals is true exactly when the first 16 bytes are the flow's encoding, which is exactly when they decode to the flow |
| `FlowKeys.WriteTo` | src/main/java/dev/maksutov/map/FlowKey.java:107-118 | write puts the encoding in the first 16 bytes and leaves the rest of the region as it was |
| `FlowKeys.WriteThenEquals` | src/main/java/dev/maksutov/map/FlowKey.java:88-118 | after `f.write(region)`, `g.equals(region)` is `Ok(g == f)` |
| `FlowKeys.KeyPart` | src/main/java/dev/maksutov/map/FlowKey.java:83-84 | `(x + y) << 6` on Java ints has its six low bits zero |
| `FlowKeys.HashInput` | src/main/java/dev/maksutov/map/FlowKey.java:83-85 | the int handed to `Hashing.hash` is the wrapped sum of the two key parts, and so a multiple of 64 |
| `FlowKeys.HashCodeSymmetric` | src/main/java/dev/maksutov/map/FlowKey.java:80-86 | the reverse flow (source and destination swapped) has the same hashCode |
| `FlowKeys.FlowKey.constructor` | src/main/java/dev/maksutov/map/FlowKey.java:19-25 | the key holds the four given fields |
| `FlowKeys.FlowKey.Empty` | src/main/java/dev/maksutov/map/FlowKey.java:28-29 | the no-argument key holds four zeros |
| `FlowKeys.FlowKey.SetSourceAddress` | src/main/java/dev/maksutov/map/FlowKey.java:38-41 | changes the source address and nothing else |
| `FlowKeys.FlowKey.SetDestinationAddress` | src/main/java/dev/maksutov/map/FlowKey.java:50-53 | changes the destination address and nothing else |
| `FlowKeys.FlowKey.SetSourcePort` | src/main/java/dev/maksutov/map/FlowKey.java:62-65 | changes the source port and nothing else |
| `FlowKeys.FlowKey.SetDestinationPort` | src/main/java/dev/maksutov/map/FlowKey.java:74-77 | changes the destination port and nothing else |
| `FlowKeys.FlowKey.KeySize` | src/main/java/dev/maksutov/map/FlowKey.java:121-125 | keySize is the length of the key's encoding |
| `FlowKeys.FlowKey.Equals` | src/main/java/dev/maksutov/map/FlowKey.java:88-104 | on a full region, the answer is whether the region starts with this key's encoding |
| `FlowKeys.FlowKey.Write` | src/main/java/dev/maksutov/map/FlowKey.java:107-118 | the four putInt calls leave the buffer as `WriteTo` of its old contents |
| `FlowKeys.PutInt` | src/main/java/dev/maksutov/map/FlowKey.java:111-117 | putInt stores the four bytes of the int at the offset and changes no other byte |
| `SlotTable.MatchesKeyAt` | src/main/java/dev/maksutov/map/BufferBasedHashMap.java:69 | `key.equals(getKeyInfo(offset))` holds exactly when the slot's key region decodes to the key |
| `SlotTable.GetBucket` | src/main/java/dev/maksutov/map/BufferBasedHashMap.java:338-341 | the bucket is in `[0, mapSize)` except for hash `MIN_VALUE`, which gives `-(2^31 % mapSize)`, in `(-mapSize, 0]` |
| `SlotTable.Home` | src/main/java/dev/maksutov/map/BufferBasedHashMap.java:97 | a key's bucket, getBucket(key.hashCode()), lies strictly between -mapSize and mapSize |
| `SlotTable.FindBucket` | src/main/java/dev/maksutov/map/BufferBasedHashMap.java:238-260 | -1 exactly when every slot is occupied; otherwise a free slot, and the first free one in probe order from the home bucket |
| `SlotTable.Allocate` | src/main/java/dev/maksutov/map/BufferBasedHashMap.java:221-228 | the slot becomes occupied, holds the key and is stamped with the clock; its other flags and links are kept, the size grows by one, and no other slot or map changes |
| `SlotTable.Empty` | src/main/java/dev/maksutov/map/BufferBasedHashMap.java:35-46 | a fresh map has size 0 and empty maps, and satisfies the invariant |
| `SlotTable.LinksInRange` | src/main/java/dev/maksutov/map/BufferBasedHashMap.java:357-369 | under the invariant, every link whose flag is set names a slot of the table |
| `SlotTable.FindFrom` | src/main/java/dev/maksutov/map/BufferBasedHashMap.java:105-111 | the first position from `i` on whose slot holds the key, or the chain's length when there is none |
| `SlotTable.FindIndex` | src/main/java/dev/maksutov/map/BufferBasedHashMap.java:68-71 | the first position of the chain whose slot holds the key, or the chain's length when there is none |
| `SlotTable.StallIndex` | src/main/java/dev/maksutov/map/BufferBasedHashMap.java:72-75 | the first position past the head whose slot is 0, where the walk of get stops advancing, or the chain's length when there is none |
| `SlotTable.LinkTail` | src/main/java/dev/maksutov/map/BufferBasedHashMap.java:80-81 | the old tail links forward to the new slot and the new slot links back to it; only those two flags and links change |
| `SlotTable.RegisterHead` | src/main/java/dev/maksutov/map/BufferBasedHashMap.java:56-57 | both maps register the new slot as the bucket's head; nothing else changes |
| `SlotTable.Get` | src/main/java/dev/maksutov/map/BufferBasedHashMap.java:48-93 | a successful get names a slot of the table (its effect is stated by the GetLemmas rows) |
| `SlotTable.GetOffset` | src/main/java/dev/maksutov/map/BufferBasedHashMap.java:177-187 | getOffset returns a slot on the key's home chain |
| `SlotTable.LockKey` | src/main/java/dev/maksutov/map/BufferBasedHashMap.java:204-211 | lock(key) sets the lock bit of the slot getOffset finds when the bucket is in use, and keeps the keys, the size and both maps |
| `SlotTable.UnlockKey` | src/main/java/dev/maksutov/map/BufferBasedHashMap.java:189-196 | unlock(key) clears the lock bit of the slot getOffset finds when the bucket is in use, and keeps the keys, the size and both maps |
| `SlotTable.IsLockedKey` | src/main/java/dev/maksutov/map/BufferBasedHashMap.java:166-175 | isLocked(key) answers true only when the key's bucket is in use and some slot other than slot 0 on its chain carries the lock bit |
| `SlotTable.SpliceOut` | src/main/java/dev/maksutov/map/BufferBasedHashMap.java:119-121 | the predecessor links forward to the successor and the successor links back to the predecessor; occupancy and locks are unchanged |
| `SlotTable.CutNext` | src/main/java/dev/maksutov/map/BufferBasedHashMap.java:123 | only the predecessor's next-link flag is cleared |
| `SlotTable.Promote` | src/main/java/dev/maksutov/map/BufferBasedHashMap.java:126-130 | both maps make the successor the bucket's head; the successor's previous-link flag is cleared only when asked |
| `SlotTable.Release` | src/main/java/dev/maksutov/map/BufferBasedHashMap.java:135-139 | the slot leaves offsetToBucketMap, loses both link flags and its occupancy, and the size drops by one |
| `SlotTable.Unlink` | src/main/java/dev/maksutov/map/BufferBasedHashMap.java:114-140 | the removed slot ends free and unlinked; the size drops by one; every announced link stays in range; no stamp changes |
| `SlotTable.Detach` | src/main/java/dev/maksutov/map/BufferBasedHashMap.java:116-134 | the four branches change only link flags, links and the maps, and keep links in range (the rejected promotion is intercepted before it by `RemoveAtAsWritten`) |
| `SlotTable.RemoveAtAsWritten` | src/main/java/dev/maksutov/map/BufferBasedHashMap.java:114-140 | remove(offset) as written: it fails with `IllegalArgument` exactly when the slot has a next link but neither a previous link nor an offsetToBucketMap entry (the map's missing value MIN_VALUE would be stored at :130), leaving only bucketAddressingMap's `MIN_VALUE -> next` entry behind; otherwise the slot becomes free and the size drops by one. Keys and stamps never change |
| `SlotTable.RemoveKey` | src/main/java/dev/maksutov/map/BufferBasedHashMap.java:95-112 | remove(key) with the corrected remove(offset) keeps the table well formed, its links in range and its keys, and either changes nothing or removes exactly one entry |
| `SlotTable.RemoveAt` | src/main/java/dev/maksutov/map/BufferBasedHashMap.java:114-140 | remove(offset) corrected: the same guarantees as the as-written version |
| `LockLemmas.SameShapeValid` | src/main/java/dev/maksutov/map/BufferBasedHashMap.java:296-306 | changing lock bits alone keeps the invariant |
| `LockLemmas.GetOffsetFinds` | src/main/java/dev/maksutov/map/BufferBasedHashMap.java:177-187 | getOffset returns the slot holding the key when one does, and the tail of the key's chain otherwise |
| `LockLemmas.GetOffsetSameShape` | src/main/java/dev/maksutov/map/BufferBasedHashMap.java:177-187 | getOffset does not depend on lock bits |
| `LockLemmas.LockKeepsValid` | src/main/java/dev/maksutov/map/BufferBasedHashMap.java:204-211 | lock(key) keeps the invariant |
| `LockLemmas.UnlockKeepsValid` | src/main/java/dev/maksutov/map/BufferBasedHashMap.java:189-196 | unlock(key) keeps the invariant |
| `LockLemmas.LockSetsOneBit` | src/main/java/dev/maksutov/map/BufferBasedHashMap.java:204-211 | lock(key) sets the lock bit of the key's slot (or its chain's tail) and changes nothing else; it is a no-op when the bucket is unused |
| `LockLemmas.UnlockClearsOneBit` | src/main/java/dev/maksutov/map/BufferBasedHashMap.java:189-196 | unlock(key) clears that one lock bit and changes nothing else |
| `LockLemmas.LockThenIsLocked` | src/main/java/dev/maksutov/map/BufferBasedHashMap.java:166-175 | after lock(key), isLocked(key) holds if and only if the bucket is in use and the slot found is not slot 0 |
| `LockLemmas.UnlockThenNotLocked` | src/main/java/dev/maksutov/map/BufferBasedHashMap.java:166-175 | after unlock(key), isLocked(key) is false |
| `LockLemmas.UnlockUndoesLockKey` | src/main/java/dev/maksutov/map/BufferBasedHashMap.java:189-211 | unlock(key) after lock(key) gives the table that unlock(key) alone gives |
| `GetLemmas.FreeSlotUnchained` | src/main/java/dev/maksutov/map/BufferBasedHashMap.java:88-93 | a free slot, which findBucket may hand out, is on no chain and is no head |
| `GetLemmas.AppendKeepsValid` | src/main/java/dev/maksutov/map/BufferBasedHashMap.java:78-83 | appending a new key behind the tail of its chain keeps the invariant, and the chain grows by that slot |
| `GetLemmas.NewHeadKeepsValid` | src/main/java/dev/maksutov/map/BufferBasedHashMap.java:54-57 | a new key in an unused bucket becomes a one-slot chain, and the invariant holds |
| `GetLemmas.GetKeepsValid` | src/main/java/dev/maksutov/map/BufferBasedHashMap.java:48-93 | get keeps the invariant on every path |
| `GetLemmas.KeysUnique` | src/main/java/dev/maksutov/map/BufferBasedHashMap.java:48-93 | under the invariant, no key is held by two occupied slots |
| `GetLemmas.GetStored` | src/main/java/dev/maksutov/map/BufferBasedHashMap.java:62-76 | get of a stored key changes nothing and returns its slot, unless the chain links to slot 0 first (then it diverges) |
| `GetLemmas.AbsentWalk` | src/main/java/dev/maksutov/map/BufferBasedHashMap.java:66-76 | the walk for an absent key finds nothing, and stalls if and only if the chain links to slot 0 past its head |
| `GetLemmas.GetErrUnchanged` | src/main/java/dev/maksutov/map/BufferBasedHashMap.java:48-93 | a get that throws or spins has changed nothing |
| `GetLemmas.GetAbsentStores` | src/main/java/dev/maksutov/map/BufferBasedHashMap.java:48-93 | a successful get of an absent key takes a free slot, stores the key and the clock there, grows the size by one, and leaves every other slot's key and occupancy |
| `GetLemmas.GetAbsentFails` | src/main/java/dev/maksutov/map/BufferBasedHashMap.java:48-93 | get of an absent key throws exactly when the bucket is outside the table or the table is full, and spins exactly when the chain links to slot 0; each is an if-and-only-if |
| `GetLemmas.GetTwice` | src/main/java/dev/maksutov/map/BufferBasedHashMap.java:48-93 | a second get of the same key, at any clock, returns the same slot and changes nothing; the one exception is a key appended into slot 0, where the walk then spins |
| `RemoveLemmas.UnlinkSplices` | src/main/java/dev/maksutov/map/BufferBasedHashMap.java:116-121 | a middle slot is spliced out: its neighbours link to each other and no other slot changes |
| `RemoveLemmas.UnlinkCutsTail` | src/main/java/dev/maksutov/map/BufferBasedHashMap.java:122-124 | a tail with a predecessor is cut off: the predecessor loses its next-link flag |
| `RemoveLemmas.UnlinkPromotes` | src/main/java/dev/maksutov/map/BufferBasedHashMap.java:125-130 | a head with a successor hands its bucket to the successor in both maps |
| `RemoveLemmas.UnlinkDrops` | src/main/java/dev/maksutov/map/BufferBasedHashMap.java:131-133 | a head without a successor takes its bucket out of bucketAddressingMap |
| `RemoveLemmas.SpliceKeepsValid` | src/main/java/dev/maksutov/map/BufferBasedHashMap.java:116-121 | removing a middle slot keeps the invariant, with the chain minus that slot |
| `RemoveLemmas.CutKeepsValid` | src/main/java/dev/maksutov/map/BufferBasedHashMap.java:122-124 | removing the tail of a chain of two or more keeps the invariant |
| `RemoveLemmas.PromoteKeepsValid` | src/main/java/dev/maksutov/map/BufferBasedHashMap.java:125-130 | removing the head of a chain of two or more keeps the invariant (corrected promotion) |
| `RemoveLemmas.DropKeepsValid` | src/main/java/dev/maksutov/map/BufferBasedHashMap.java:131-133 | removing a one-slot chain keeps the invariant, and the bucket goes out of use |
| `RemoveLemmas.RemoveAtKeepsValid` | src/main/java/dev/maksutov/map/BufferBasedHashMap.java:114-140 | the corrected remove(offset) (`SlotTable.RemoveAt`) of any chained slot keeps the invariant, with that slot dropped from its chain; the as-written one does not (Findings, second row) |
| `RemoveLemmas.UnlinkKeepsOthers` | src/main/java/dev/maksutov/map/BufferBasedHashMap.java:114-140 | remove(offset) changes no other slot's occupancy and no lock bit |
| `RemoveLemmas.RemoveAtOccupancy` | src/main/java/dev/maksutov/map/BufferBasedHashMap.java:114-140 | after remove(offset), exactly that slot has become free; every lock bit is kept |
| `RemoveLemmas.RemoveKeyByWalk` | src/main/java/dev/maksutov/map/BufferBasedHashMap.java:95-112 | remove(key) removes the first slot of the home chain that holds the key, and nothing when none does |
| `RemoveLemmas.RemoveKeyKeepsValid` | src/main/java/dev/maksutov/map/BufferBasedHashMap.java:95-112 | remove(key) with the corrected remove(offset) keeps the invariant |
| `RemoveLemmas.RemoveKeyEffect` | src/main/java/dev/maksutov/map/BufferBasedHashMap.java:95-112 | after remove(key), no slot holds the key; every other entry stays; free slots stay free; the size drops by one exactly when the key was stored |
| `RemoveLemmas.HeadHasNoPrev` | src/main/java/dev/maksutov/map/BufferBasedHashMap.java:116 | under the invariant, a registered head has no previous-link flag, so remove(offset) takes the head branches for it |
| `RemoveLemmas.PromotionKeepsPrevFlag` | src/main/java/dev/maksutov/map/BufferBasedHashMap.java:125-130 | as written, the promoted head keeps its previous-link flag, and no chains make the table valid |
| `RemoveLemmas.PromotionStrandsBucket` | src/main/java/dev/maksutov/map/BufferBasedHashMap.java:114-140 | as written, removing both slots of a two-slot chain leaves the bucket registered to a free slot |
| `RemoveLemmas.PromotionFixed` | src/main/java/dev/maksutov/map/BufferBasedHashMap.java:114-140 | corrected, the same two removals keep the invariant and take the bucket out of use |
| `Sweep.IsChunkOutdated` | src/main/java/dev/maksutov/map/BufferBasedHashMap.java:158-162 | while `now - lastWrite` does not overflow a `long`, a slot is outdated exactly when its last write lies at least timeToLive before now |
| `Sweep.SweepStep` | src/main/java/dev/maksutov/map/BufferBasedHashMap.java:150-152 | one corrected loop turn keeps the table well formed and its links in range |
| `Sweep.SweepFrom` | src/main/java/dev/maksutov/map/BufferBasedHashMap.java:149-154 | the corrected loop from slot `i` keeps the table well formed and its links in range |
| `Sweep.Sweep` | src/main/java/dev/maksutov/map/BufferBasedHashMap.java:143-155 | the corrected sweep keeps the table well formed and its links in range |
| `Sweep.SweptUpTo` | src/main/java/dev/maksutov/map/BufferBasedHashMap.java:149-154 | the loop after `i` turns keeps the table well formed and its links in range |
| `Sweep.SweptUpToThenRest` | src/main/java/dev/maksutov/map/BufferBasedHashMap.java:149-154 | the first `i` turns followed by the remaining ones make the whole sweep |
| `Sweep.SweptUpToAll` | src/main/java/dev/maksutov/map/BufferBasedHashMap.java:149-154 | `mapSize` turns of the loop make the whole sweep |
| `Sweep.SweepStepEffect` | src/main/java/dev/maksutov/map/BufferBasedHashMap.java:150-152 | one turn frees slot `i` exactly when it is occupied and outdated, and changes no other occupancy, no stamp and no later expiry |
| `Sweep.SweepFromEffect` | src/main/java/dev/maksutov/map/BufferBasedHashMap.java:149-154 | from slot `i` on, a slot stays occupied exactly when it was occupied and not outdated; the size drops by the number expired |
| `Sweep.SweepStepKeepsValid` | src/main/java/dev/maksutov/map/BufferBasedHashMap.java:150-152 | one turn keeps the invariant |
| `Sweep.SweepFromKeepsValid` | src/main/java/dev/maksutov/map/BufferBasedHashMap.java:149-154 | the loop from slot `i` keeps the invariant |
| `Sweep.SweepEffect` | src/main/java/dev/maksutov/map/BufferBasedHashMap.java:143-162 | the corrected removeOutdatedRecords keeps the invariant; exactly the occupied outdated slots become free; the size counts them out |
| `Sweep.StampAt` | src/main/java/dev/maksutov/map/BufferBasedHashMap.java:160 | the stamp read succeeds exactly at the positions of the table's slots, and then gives that slot's last write |
| `Sweep.SweepTurn` | src/main/java/dev/maksutov/map/BufferBasedHashMap.java:150-152 | one turn as written: it fails only with remove(offset)'s `IllegalArgument`; otherwise it counts the slot out of the size exactly when its stamp is outdated, free or not; no stamp changes |
| `Sweep.SweepAllFrom` | src/main/java/dev/maksutov/map/BufferBasedHashMap.java:149-154 | the do-while as written from position `i` (calling the as-written remove(offset) on every outdated slot, free or not, stopping at the first exception, and looping while `offset <= totalSize`) keeps the table well formed and its links in range |
| `Sweep.SweepAllFromThrows` | src/main/java/dev/maksutov/map/BufferBasedHashMap.java:149-154 | the loop as written never exits through its test: it ends either with the stamp read at position mapSize throwing or earlier with remove(offset)'s rejected promotion |
| `Sweep.UnlinkAddsNoNext` | src/main/java/dev/maksutov/map/BufferBasedHashMap.java:114-140 | remove(offset) of a slot without a next link gives no slot a next link it did not have |
| `Sweep.SweepAllFromReachesEnd` | src/main/java/dev/maksutov/map/BufferBasedHashMap.java:149-154 | when no slot from `i` on has a next link, the loop as written attempts no promotion and ends exactly in the out-of-bounds stamp read at position mapSize |
| `Sweep.SweepAsWritten` | src/main/java/dev/maksutov/map/BufferBasedHashMap.java:143-155 | removeOutdatedRecords as written never returns normally: it ends in an out-of-bounds read or a rejected promotion, and in the out-of-bounds read whenever no slot has a next link; it leaves the table well formed with its links in range |
| `Sweep.CountOutdated` | src/main/java/dev/maksutov/map/BufferBasedHashMap.java:158-162 | the number of slots from `i` on whose stamp isChunkOutdated accepts, occupied or not; all of them when every stamp there is outdated |
| `Sweep.SweepAllFromCountsAll` | src/main/java/dev/maksutov/map/BufferBasedHashMap.java:149-154 | whenever the loop as written runs through to position mapSize, the size has dropped by exactly the number of slots from `i` on with an outdated stamp, free or not |
| `Sweep.SweepOnEmpty` | src/main/java/dev/maksutov/map/BufferBasedHashMap.java:143-162 | on a fresh map, with the clock at least timeToLive, the sweep as written throws and leaves size -mapSize, and no chains make the result valid; the corrected sweep changes nothing |
| `Sweep.SweepUnchanged` | src/main/java/dev/maksutov/map/BufferBasedHashMap.java:149-154 | the corrected loop over free slots changes nothing |
| `BufferMap.ValidLinked` | src/main/java/dev/maksutov/map/BufferBasedHashMap.java:357-364 | under the invariant, each chain can be walked by next links from the head in bucketAddressingMap |
| `BufferMap.BufferBasedHashMap.constructor` | src/main/java/dev/maksutov/map/BufferBasedHashMap.java:35-46 | a zero-filled region with empty maps and size 0; the invariant holds; buckets come from `getBucket(hashCode)` |
| `BufferMap.BufferBasedHashMap.TotalChunkSize` | src/main/java/dev/maksutov/map/BufferBasedHashMap.java:268-271 | a slot spans the 16-byte header, the key and the chunk data |
| `BufferMap.BufferBasedHashMap.ChunkDataOffset` | src/main/java/dev/maksutov/map/BufferBasedHashMap.java:273-276 | a slot's chunk data starts after its header and key and ends where the next slot begins, inside the buffer |
| `BufferMap.BufferBasedHashMap.FindBucket` | src/main/java/dev/maksutov/map/BufferBasedHashMap.java:238-260 | the probing loop returns `SlotTable.FindBucket`: -1 exactly when every slot is occupied |
| `BufferMap.BufferBasedHashMap.Allocate` | src/main/java/dev/maksutov/map/BufferBasedHashMap.java:221-228 | the class state becomes `SlotTable.Allocate` of the old state |
| `BufferMap.BufferBasedHashMap.Size` | src/main/java/dev/maksutov/map/BufferBasedHashMap.java:263-266 | size() is the number of occupied slots |
| `BufferMap.BufferBasedHashMap.AllocateNewBucket` | src/main/java/dev/maksutov/map/BufferBasedHashMap.java:88-93 | allocates the slot findBucket picks; a bucket outside the table or a full table gives `Err(OutOfBounds)` with nothing written |
| `BufferMap.BufferBasedHashMap.WalkForGet` | src/main/java/dev/maksutov/map/BufferBasedHashMap.java:66-76 | the loop finds the first slot holding the key, spins exactly at a link to slot 0 before it, and otherwise ends at the tail |
| `BufferMap.BufferBasedHashMap.GetOrAllocateNewBucket` | src/main/java/dev/maksutov/map/BufferBasedHashMap.java:62-86 | the result and the new state are those of `SlotTable.Get` for a bucket in use |
| `BufferMap.BufferBasedHashMap.AppendNewSlot` | src/main/java/dev/maksutov/map/BufferBasedHashMap.java:78-83 | a free slot is allocated and linked behind the tail; a full table gives `Err(OutOfBounds)` |
| `BufferMap.BufferBasedHashMap.GetNewBucket` | src/main/java/dev/maksutov/map/BufferBasedHashMap.java:54-57 | the result and the new state are those of `SlotTable.Get` for an unused bucket |
| `BufferMap.BufferBasedHashMap.GetSlot` | src/main/java/dev/maksutov/map/BufferBasedHashMap.java:50-58 | the slot and the new state are those of `SlotTable.Get` |
| `BufferMap.BufferBasedHashMap.Get` | src/main/java/dev/maksutov/map/BufferBasedHashMap.java:48-60 | get keeps `Valid()`; it yields the chunk-data offset of the slot `SlotTable.Get` picks, or that function's error |
| `BufferMap.BufferBasedHashMap.WalkToKey` | src/main/java/dev/maksutov/map/BufferBasedHashMap.java:179-186 | the loop stops at the first slot holding the key, or at the tail |
| `BufferMap.BufferBasedHashMap.GetOffset` | src/main/java/dev/maksutov/map/BufferBasedHashMap.java:177-187 | returns `SlotTable.GetOffset` |
| `BufferMap.BufferBasedHashMap.Lock` | src/main/java/dev/maksutov/map/BufferBasedHashMap.java:204-211 | keeps `Valid()`; the state becomes `LockKey` of the old state |
| `BufferMap.BufferBasedHashMap.Unlock` | src/main/java/dev/maksutov/map/BufferBasedHashMap.java:189-196 | keeps `Valid()`; the state becomes `UnlockKey` of the old state |
| `BufferMap.BufferBasedHashMap.IsLocked` | src/main/java/dev/maksutov/map/BufferBasedHashMap.java:166-175 | returns `IsLockedKey` |
| `BufferMap.BufferBasedHashMap.SpliceOutSlot` | src/main/java/dev/maksutov/map/BufferBasedHashMap.java:119-121 | the state becomes `SpliceOut` of the old state |
| `BufferMap.BufferBasedHashMap.CutNextSlot` | src/main/java/dev/maksutov/map/BufferBasedHashMap.java:123 | the state becomes `CutNext` of the old state |
| `BufferMap.BufferBasedHashMap.PromoteSlot` | src/main/java/dev/maksutov/map/BufferBasedHashMap.java:126-130 | the state becomes the corrected `Promote` of the old state |
| `BufferMap.BufferBasedHashMap.ReleaseSlot` | src/main/java/dev/maksutov/map/BufferBasedHashMap.java:135-139 | the state becomes `Release` of the old state |
| `BufferMap.BufferBasedHashMap.RemoveAt` | src/main/java/dev/maksutov/map/BufferBasedHashMap.java:114-140 | the state becomes `SlotTable.RemoveAt` of the old state |
| `BufferMap.BufferBasedHashMap.RemoveFrom` | src/main/java/dev/maksutov/map/BufferBasedHashMap.java:103-112 | with the corrected remove(offset), removes the first slot from position `k0` on that holds the key, and nothing if none does |
| `BufferMap.BufferBasedHashMap.RemoveInBucket` | src/main/java/dev/maksutov/map/BufferBasedHashMap.java:97-100 | with the corrected remove(offset), removes the first slot of the chain holding the key, and nothing if none does |
| `BufferMap.BufferBasedHashMap.Remove` | src/main/java/dev/maksutov/map/BufferBasedHashMap.java:95-101 | with the corrected remove(offset), keeps `Valid()`; the state becomes `RemoveKey` of the old state |
| `BufferMap.BufferBasedHashMap.SweepSlot` | src/main/java/dev/maksutov/map/BufferBasedHashMap.java:150-152 | keeps the invariant shape and the links in range; the state becomes `SweepStep` of the old state, which frees slot `i` exactly when it is occupied and outdated (`Sweep.SweepStepEffect`) |
| `BufferMap.BufferBasedHashMap.SweepSlots` | src/main/java/dev/maksutov/map/BufferBasedHashMap.java:148-154 | the loop visits every slot once, in order: it leaves `SweptUpTo(mapSize)` of the old state, which is the whole corrected sweep (`Sweep.SweptUpToAll`) |
| `BufferMap.BufferBasedHashMap.RemoveOutdatedRecords` | src/main/java/dev/maksutov/map/BufferBasedHashMap.java:143-155 | keeps `Valid()`; the state becomes `Sweep` of the old state (see `Sweep.SweepEffect`) |

## Left out

- `System.nanoTime` is not part of this model. The clock is the parameter `now` of get and
  removeOutdatedRecords.
- Agrona's `Hashing.hash` is not part of this model. FlowKey's hashCode is computed up to
  the int it hands to that function; the function itself is the parameter `mix`, fixed by
  the constructor.
- The generic key type `T extends BufferedKey` is fixed to FlowKey. Keys are passed to the
  map as `Flow` values, and the `BufferedKey` interface is not part of this model.
- The chunk data that `get` wraps into the caller's `DirectBuffer` is not modelled byte by
  byte. `Get` returns its offset, and the value bytes themselves are left out.
- The shared `keyReadWriteBuffer` is not modelled as a mutable object. A slot's key region
  is a `seq<Byte>`, read and written as a whole.
- Byte offsets are modelled as slot numbers, where offset = slot × totalChunkSize. Java
  `int` overflow of `totalChunkSize * mapSize` or of an offset is not modelled.
- Agrona `Int2IntHashMap` is modelled as a Dafny `map`. A missing key reads as
  `MIN_VALUE`, but capacity, load factor and rehashing are left out.
- The `AtomicInteger` counter is not modelled as atomic: the map is modelled
  single-threaded, with no concurrent access.
- The infinite loop of getOrAllocateNewBucket becomes `Err(Diverges)`, and an
  `IndexOutOfBoundsException` becomes `Err(OutOfBounds)`. In get and allocate both paths
  leave the state unchanged, as no write happens before them. The as-written sweep is the
  exception: its out-of-bounds read comes after earlier turns have called remove(offset),
  and `Sweep.SweepAllFrom` keeps those removals. The `IllegalArgumentException` that
  `Int2IntHashMap.put` raises when asked to store its missing value becomes
  `Err(IllegalArgument)`; remove(offset) has then already made its first map update, and
  `SlotTable.RemoveAtAsWritten` keeps it.
- BufferMap.BufferBasedHashMap.constructor: requires `mapSize > 0`, `keySize >= 16` and
  `chunkSize >= 0`, which the source does not check. Otherwise `getBucket` divides by zero,
  `write` runs past the key region, or the buffer size is negative.
- BufferMap.BufferBasedHashMap.FindBucket: requires a home bucket inside the table. The
  out-of-range case, where the source's first read throws, is handled by its caller
  `AllocateNewBucket`.
- Header.WithNextLink: the engine keeps the next link in a field of its own, so it behaves
  like the corrected packed codec (`NextLinkRoundTripFixed`). The loss of link bits through
  the as-written codec is modelled only on `bv32` (Findings, first row).
- BufferMap.BufferBasedHashMap.RemoveAt: models the corrected remove(offset), which clears
  the promoted head's previous-link flag. The as-written version is `SlotTable.RemoveAtAsWritten`.
- BufferMap.BufferBasedHashMap.RemoveOutdatedRecords: models the corrected sweep. It loops
  over slot numbers `0 .. mapSize - 1` and removes only occupied outdated slots. The
  as-written loop is `Sweep.SweepAsWritten`, which calls the as-written
  `SlotTable.RemoveAtAsWritten` on every outdated slot.
- RemoveLemmas.RemoveAtKeepsValid: proved for the corrected remove(offset) only. The
  as-written one breaks the invariant once a promoted head is removed (Findings, second row).
- RemoveLemmas.RemoveKeyKeepsValid: proved for remove(key) over the corrected
  remove(offset) only, for the same reason.
- SlotTable.RemoveKey: built on the corrected remove(offset) (`SlotTable.RemoveAt`).
- SlotTable.Detach: on a slot with a next link but no previous link and no offsetToBucketMap
  entry it registers the successor under bucket MIN_VALUE, where the source throws. Only
  `SlotTable.RemoveAtAsWritten` can meet that slot, and it returns `Err(IllegalArgument)`
  before calling `Detach`.
- SlotTable.Unlink: shares that case with `Detach`, for the same reason.
- SlotTable.RemoveAt: the corrected remove(offset) keeps `Detach`'s MIN_VALUE registration
  for that slot instead of failing. Under the invariant an occupied slot without a previous
  link is a registered head, so the class, remove(key) and the corrected sweep never meet it.
- BufferMap.BufferBasedHashMap.Remove: runs the corrected remove(offset); its `Valid()`
  guarantee does not hold for the source's version.
- BufferMap.BufferBasedHashMap.RemoveInBucket: runs the corrected remove(offset).
- BufferMap.BufferBasedHashMap.RemoveFrom: runs the corrected remove(offset).
- FlowKeys.IntBytes: fixes the byte order to little-endian. Agrona's `putInt`/`getInt` use
  the platform's native order, so on a big-endian platform the key bytes are reversed in
  each int. The round trips and the equals results do not depend on the order.
- FlowKeys.Decode: has no contract of its own. Its meaning, the inverse of `Encode` on any
  16 bytes, is stated by `FlowKeys.EncodeDecode` and `FlowKeys.DecodeEncode`.
- FlowKeys.HashCode: has no contract of its own, because `Hashing.hash` is the unknown
  parameter `mix`. What hashCode promises is stated by `HashInput` and `HashCodeSymmetric`.
- FlowKey's four getters are not separate members: `FlowKey.Value()` reads the four
  fields.
- `SlotTable.Get`: its own contract says only that a returned slot is in the table. What
  get does is stated by the `GetLemmas` rows above.

## Findings

| source | as written | input that shows it | evidently intended | confidence | as-written member | corrected member |
|---|---|---|---|---|---|---|
| src/main/java/dev/maksutov/map/BufferBasedHashMap.java:350-364 | setNextLink keeps the low byte of the word (`~NEXT_LINK_MASK`) and ORs in `nextOffset << 4`; getNextLink masks with `0xFFFFFF00` and shifts right by 4, so the low four bits of the offset are lost (old bits 4-7 stay in the stored word, where getNextLink's mask discards them) | keySize 16, chunkSize 4: a slot is 36 bytes, and a link to offset 36 reads back as 32 | a mask that keeps only the four flag bits (`0xFFFFFFF0`), so every offset that fits 28 bits round-trips | medium, not executed | `Header.NextLinkAt36ReadsBack32` | `Header.NextLinkRoundTripFixed` |
| src/main/java/dev/maksutov/map/BufferBasedHashMap.java:125-130 | removing a chain head makes its successor the head but does not clear the successor's previous-link flag | two keys in one bucket: remove the first, then the second. The second removal takes the middle-node branch and leaves bucketAddressingMap pointing at a free slot | clear the promoted slot's previous-link flag | high, not executed | `RemoveLemmas.PromotionStrandsBucket` | `RemoveLemmas.PromotionFixed` |
| src/main/java/dev/maksutov/map/BufferBasedHashMap.java:143-155 | the sweep loops while `offset <= totalSize`, so its last turn reads past the buffer and throws. It also calls remove(offset) on free slots whose stamp is old, which decrements the size | a fresh map with `now >= timeToLive`: the sweep throws and leaves size `-mapSize` | loop while `offset < totalSize`, and remove only occupied slots | high, not executed | `Sweep.SweepOnEmpty` | `Sweep.SweepEffect` |
