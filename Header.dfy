/** The 16-byte slot header: a control word of flag bits (bytes 0-3), the previous-slot link
    (bytes 4-7) and the last-write timestamp (bytes 8-15).

    The control word is a `bv32`. In the source, setNextLink/getNextLink also pack the
    next-slot offset into the upper bits of that word; that packed codec is modelled as
    written below (SetNextLink, GetNextLink) and shown to lose information. The engine keeps
    the next link in a field of its own (`SlotHeader.next`, see WithNextLink). */
module Header {

  const ANCILLARY_INFO_SIZE: int := 16
  const PREVIOUS_LINK_OFFSET: int := 4
  const LAST_ACCESS_TIME_OFFSET: int := 8

  const NEXT_LINK_MASK: bv32 := 0xFFFF_FF00
  const LOCKED_FLAG: bv32 := 0x0000_0001
  /** Named backwards in the source: when this bit is SET the slot is occupied. */
  const FREE_FLAG: bv32 := 0x0000_0002
  const NEXT_LINK_FLAG: bv32 := 0x0000_0004
  const PREVIOUS_LINK_FLAG: bv32 := 0x0000_0008

  /** The value getNextLink yields for "no next link": the Java int -1. */
  const NO_LINK: bv32 := 0xFFFF_FFFF

  // ---------------------------------------------------------------------------------------
  // Flag tests

  predicate IsLocked(w: bv32) { w & LOCKED_FLAG != 0 }

  /** isBucketFree: the FREE_FLAG bit is clear. */
  predicate IsBucketFree(w: bv32) { w & FREE_FLAG == 0 }

  predicate IsNextLinkFlagSet(w: bv32) { w & NEXT_LINK_FLAG != 0 }

  predicate IsPrevLinkFlagSet(w: bv32) { w & PREVIOUS_LINK_FLAG != 0 }

  /** The four flags of a control word as booleans. `occupied` is FREE_FLAG. */
  datatype Flags = Flags(locked: bool, occupied: bool, nextLink: bool, prevLink: bool)

  function FlagsOf(w: bv32): Flags
  {
    Flags(IsLocked(w), !IsBucketFree(w), IsNextLinkFlagSet(w), IsPrevLinkFlagSet(w))
  }

  // ---------------------------------------------------------------------------------------
  // Single-flag updates: each one fixes its own bit and leaves the other 31 bits alone

  function Lock(w: bv32): (r: bv32)
    ensures FlagsOf(r) == FlagsOf(w).(locked := true)
    ensures r & !LOCKED_FLAG == w & !LOCKED_FLAG
  {
    w | LOCKED_FLAG
  }

  function Unlock(w: bv32): (r: bv32)
    ensures FlagsOf(r) == FlagsOf(w).(locked := false)
    ensures r & !LOCKED_FLAG == w & !LOCKED_FLAG
  {
    w & !LOCKED_FLAG
  }

  /** The header update of allocate: mark the slot occupied. */
  function Occupy(w: bv32): (r: bv32)
    ensures FlagsOf(r) == FlagsOf(w).(occupied := true)
    ensures r & !FREE_FLAG == w & !FREE_FLAG
  {
    w | FREE_FLAG
  }

  function FreeBucket(w: bv32): (r: bv32)
    ensures FlagsOf(r) == FlagsOf(w).(occupied := false)
    ensures r & !FREE_FLAG == w & !FREE_FLAG
  {
    w & !FREE_FLAG
  }

  function RemoveNextLink(w: bv32): (r: bv32)
    ensures FlagsOf(r) == FlagsOf(w).(nextLink := false)
    ensures r & !NEXT_LINK_FLAG == w & !NEXT_LINK_FLAG
  {
    w & !NEXT_LINK_FLAG
  }

  function RemovePreviousLink(w: bv32): (r: bv32)
    ensures FlagsOf(r) == FlagsOf(w).(prevLink := false)
    ensures r & !PREVIOUS_LINK_FLAG == w & !PREVIOUS_LINK_FLAG
  {
    w & !PREVIOUS_LINK_FLAG
  }

  /** The control-word half of setPreviousLink. */
  function MarkPreviousLink(w: bv32): (r: bv32)
    ensures FlagsOf(r) == FlagsOf(w).(prevLink := true)
    ensures r & !PREVIOUS_LINK_FLAG == w & !PREVIOUS_LINK_FLAG
  {
    w | PREVIOUS_LINK_FLAG
  }

  /** The control-word half of setNextLink when the offset has a field of its own. */
  function MarkNextLink(w: bv32): (r: bv32)
    ensures FlagsOf(r) == FlagsOf(w).(nextLink := true)
    ensures r & !NEXT_LINK_FLAG == w & !NEXT_LINK_FLAG
  {
    w | NEXT_LINK_FLAG
  }

  /** The header update at the end of remove(offset) frees the slot and keeps its lock bit. */
  lemma ReleaseKeepsLock(w: bv32)
    ensures var r := FreeBucket(RemovePreviousLink(RemoveNextLink(w)));
      IsBucketFree(r) && IsLocked(r) == IsLocked(w)
  {
  }

  /** Unlock undoes lock: after both, the word is what unlock alone makes of it. */
  lemma UnlockUndoesLock(w: bv32)
    ensures Unlock(Lock(w)) == Unlock(w)
  {
  }

  // ---------------------------------------------------------------------------------------
  // The packed next-link codec as the source writes it

  /** Java's `>> 4` on an int: an arithmetic shift that copies the sign bit. */
  function ShiftRightSigned4(x: bv32): bv32
  {
    if x & 0x8000_0000 != 0 then (x >> 4) | 0xF000_0000 else x >> 4
  }

  // The two codec functions spell their masks as literals: 0xFF is ~NEXT_LINK_MASK,
  // 0xFFFF_FF00 is NEXT_LINK_MASK and 4 is NEXT_LINK_FLAG.

  /** setNextLink: keep the low byte (~NEXT_LINK_MASK), put the offset in by `<< 4`, set
      NEXT_LINK_FLAG. */
  function SetNextLink(w: bv32, nextOffset: bv32): bv32
  {
    (w & 0xFF) | (nextOffset << 4) | 4
  }

  /** getNextLink: -1 when NEXT_LINK_FLAG is clear, else the masked word shifted back. */
  function GetNextLink(w: bv32): bv32
  {
    if w & 4 != 0 then ShiftRightSigned4(w & 0xFFFF_FF00) else NO_LINK
  }

  /** setNextLink sets NEXT_LINK_FLAG and keeps the other three flag bits of the word. */
  lemma SetNextLinkKeepsFlags(w: bv32, n: bv32)
    ensures IsNextLinkFlagSet(SetNextLink(w, n))
    ensures SetNextLink(w, n) & 0xB == w & 0xB
  {
    assert SetNextLink(w, n) == (w & 0xFF) | (n << 4) | 4;
    FlagBits(w, n);
  }

  lemma FlagBits(w: bv32, n: bv32)
    ensures ((w & 0xFF) | (n << 4) | 4) & 4 != 0
    ensures ((w & 0xFF) | (n << 4) | 4) & 0xB == w & 0xB
  {
  }

  /** getNextLink yields -1 when NEXT_LINK_FLAG is clear, whatever the rest of the word holds. */
  lemma GetNextLinkWithoutFlag(w: bv32)
    requires !IsNextLinkFlagSet(w)
    ensures GetNextLink(w) == NO_LINK
  {
    assert w & 4 == w & NEXT_LINK_FLAG;
  }

  /** The offset field is 28 bits wide: `n << 4` keeps n exactly when bits 27-31 agree. */
  predicate FitsOffsetField(n: bv32) {
    n & 0xF800_0000 == 0 || n & 0xF800_0000 == 0xF800_0000
  }

  /** Reading back a written link returns it exactly when its low four bits are zero (the
      mask 0xFFFFFF00 cuts away the bits that `<< 4` moved into the low byte) and it fits the
      28-bit field. Slot offsets are multiples of the slot size, so links survive only when
      the slot size is a multiple of 16. */
  lemma NextLinkRoundTripAsWritten(w: bv32, n: bv32)
    ensures GetNextLink(SetNextLink(w, n)) == n <==> n & 0xF == 0 && FitsOffsetField(n)
  {
    CodecBits(w, n);
    PackedRoundTripBits(w, n);
  }

  // CodecBits restates the two definitions over literals only, so that the bit-level
  // argument of PackedRoundTripBits stays a pure bit-vector problem for the solver.

  lemma CodecBits(w: bv32, n: bv32)
    ensures GetNextLink(SetNextLink(w, n)) ==
      var x := (w & 0xFF) | (n << 4) | 4;
      if x & 4 != 0 then
        var g := x & 0xFFFF_FF00;
        if g & 0x8000_0000 != 0 then (g >> 4) | 0xF000_0000 else g >> 4
      else 0xFFFF_FFFF
  {
    assert SetNextLink(w, n) == (w & 0xFF) | (n << 4) | 4;
    GetNextLinkBits((w & 0xFF) | (n << 4) | 4);
  }

  lemma GetNextLinkBits(x: bv32)
    ensures GetNextLink(x) ==
      if x & 4 != 0 then
        var g := x & 0xFFFF_FF00;
        if g & 0x8000_0000 != 0 then (g >> 4) | 0xF000_0000 else g >> 4
      else 0xFFFF_FFFF
  {
  }

  /** The round trip of the packed codec, spelled out bit by bit. */
  lemma PackedRoundTripBits(w: bv32, n: bv32)
    ensures var x := (w & 0xFF) | (n << 4) | 4;
      (if x & 4 != 0 then
         var g := x & 0xFFFF_FF00;
         if g & 0x8000_0000 != 0 then (g >> 4) | 0xF000_0000 else g >> 4
       else 0xFFFF_FFFF) == n
      <==> n & 0xF == 0 && (n & 0xF800_0000 == 0 || n & 0xF800_0000 == 0xF800_0000)
  {
  }

  /** A concrete loss: with 16 key bytes and 4 value bytes a slot is 36 bytes long, and a link
      to the slot at offset 36 reads back as 32, inside the value bytes of slot 0. */
  lemma NextLinkAt36ReadsBack32()
    ensures GetNextLink(SetNextLink(0, 36)) == 32
  {
  }

  // The evidently intended codec: the mask keeps only the four flag bits (0xFFFF_FFF0), so
  // the offset field is bits 4-31 and no bit of the offset is cut away.

  function SetNextLinkFixed(w: bv32, nextOffset: bv32): bv32
  {
    (w & 0xF) | (nextOffset << 4) | 4
  }

  function GetNextLinkFixed(w: bv32): bv32
  {
    if w & 4 != 0 then ShiftRightSigned4(w & 0xFFFF_FFF0) else NO_LINK
  }

  /** With the 0xFFFF_FFF0 mask every offset that fits the 28-bit field is read back, and the
      four flag bits other than the link flag survive. */
  lemma NextLinkRoundTripFixed(w: bv32, n: bv32)
    ensures GetNextLinkFixed(SetNextLinkFixed(w, n)) == n <==> FitsOffsetField(n)
    ensures SetNextLinkFixed(w, n) & 0xB == w & 0xB
  {
    FixedCodecBits(w, n);
    FixedRoundTripBits(w, n);
  }

  lemma FixedCodecBits(w: bv32, n: bv32)
    ensures SetNextLinkFixed(w, n) == (w & 0xF) | (n << 4) | 4
    ensures GetNextLinkFixed(SetNextLinkFixed(w, n)) ==
      var x := (w & 0xF) | (n << 4) | 4;
      if x & 4 != 0 then
        var g := x & 0xFFFF_FFF0;
        if g & 0x8000_0000 != 0 then (g >> 4) | 0xF000_0000 else g >> 4
      else 0xFFFF_FFFF
  {
    assert SetNextLinkFixed(w, n) == (w & 0xF) | (n << 4) | 4;
    FixedGetBits((w & 0xF) | (n << 4) | 4);
  }

  lemma FixedGetBits(x: bv32)
    ensures GetNextLinkFixed(x) ==
      if x & 4 != 0 then
        var g := x & 0xFFFF_FFF0;
        if g & 0x8000_0000 != 0 then (g >> 4) | 0xF000_0000 else g >> 4
      else 0xFFFF_FFFF
  {
  }

  lemma FixedRoundTripBits(w: bv32, n: bv32)
    ensures var x := (w & 0xF) | (n << 4) | 4;
      (if x & 4 != 0 then
         var g := x & 0xFFFF_FFF0;
         if g & 0x8000_0000 != 0 then (g >> 4) | 0xF000_0000 else g >> 4
       else 0xFFFF_FFFF) == n
      <==> (n & 0xF800_0000 == 0 || n & 0xF800_0000 == 0xF800_0000)
    ensures ((w & 0xF) | (n << 4) | 4) & 0xB == w & 0xB
  {
  }

  // ---------------------------------------------------------------------------------------
  // The header as the engine model keeps it: flags in the word, each link in its own field

  /** A slot header. `word` holds the flag bits of bytes 0-3; `next` is the next-slot link the
      source packs into the upper bits of that word; `prev` is bytes 4-7; `lastWrite` is the
      timestamp of bytes 8-15. Links are slot indices. */
  datatype SlotHeader = SlotHeader(word: bv32, next: int, prev: int, lastWrite: int)

  /** The header of a never-used slot: the region is zero-filled at construction. */
  const EMPTY_HEADER := SlotHeader(0, 0, 0, 0)

  /** getNextLink on the separate field: -1 when the flag is clear. */
  function NextLink(h: SlotHeader): int
  {
    if IsNextLinkFlagSet(h.word) then h.next else -1
  }

  /** setNextLink with a dedicated next field: what is written is read back for EVERY link,
      the flag bits other than NEXT_LINK_FLAG, the previous link and the timestamp are kept. */
  function WithNextLink(h: SlotHeader, n: int): (r: SlotHeader)
    ensures NextLink(r) == n
    ensures FlagsOf(r.word) == FlagsOf(h.word).(nextLink := true)
    ensures r.word & !NEXT_LINK_FLAG == h.word & !NEXT_LINK_FLAG
    ensures r.prev == h.prev && r.lastWrite == h.lastWrite
  {
    h.(word := MarkNextLink(h.word), next := n)
  }

  /** setPreviousLink: writes the previous link and sets PREVIOUS_LINK_FLAG, nothing else. */
  function WithPreviousLink(h: SlotHeader, p: int): (r: SlotHeader)
    ensures r.prev == p
    ensures FlagsOf(r.word) == FlagsOf(h.word).(prevLink := true)
    ensures r.word & !PREVIOUS_LINK_FLAG == h.word & !PREVIOUS_LINK_FLAG
    ensures r.next == h.next && r.lastWrite == h.lastWrite
  {
    h.(word := MarkPreviousLink(h.word), prev := p)
  }
}
