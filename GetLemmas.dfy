/** What get(key) keeps and what it achieves: the invariant survives, a stored key is found
    where it is without any change, a new key is stored in the slot returned and counted. */
module GetLemmas {

  import opened JavaInt
  import opened Header
  import opened FlowKeys
  import opened SlotTable

  // ---------------------------------------------------------------------------------------
  // Frames

  /** A chain stays well formed in a table that agrees with the old one on the chain's slots. */
  lemma ChainFrame(t: Table, t2: Table, c: seq<int>, b: int, home: Flow -> int)
    requires WellFormed(t) && WellFormed(t2) && |t2.headers| == |t.headers|
    requires ChainOk(t, c, b, home) && InTable(t, c)
    requires forall x :: x in c ==> t2.headers[x] == t.headers[x] && t2.keys[x] == t.keys[x]
    ensures ChainOk(t2, c, b, home)
  {
    forall j | 0 <= j < |c| ensures NodeOk(t2, c, j, b, home) {
      assert NodeOk(t, c, j, b, home);
    }
    forall i, j | 0 <= i < j < |c| && IsSlot(t2, c[i]) && IsSlot(t2, c[j])
      ensures KeyAt(t2, c[i]) != KeyAt(t2, c[j])
    {
      assert KeyAt(t, c[i]) != KeyAt(t, c[j]);
    }
  }

  /** Changing only free slots and slots of bucket `b` leaves every other chain well formed. */
  lemma OtherChainsOk(t: Table, t2: Table, C: Chains, home: Flow -> int, b: int, changed: set<int>)
    requires Valid(t, C, home) && WellFormed(t2) && |t2.headers| == |t.headers|
    requires forall x :: x in changed ==> IsSlot(t, x) && (Occupied(t, x) ==> home(KeyAt(t, x)) == b)
    requires forall x :: IsSlot(t, x) && x !in changed ==> t2.headers[x] == t.headers[x] && t2.keys[x] == t.keys[x]
    ensures forall b2 :: b2 in C && b2 != b ==> ChainOk(t2, C[b2], b2, home)
  {
    forall b2 | b2 in C && b2 != b ensures ChainOk(t2, C[b2], b2, home) {
      ChainFacts(t, C, home, b2);
      ChainFrame(t, t2, C[b2], b2, home);
    }
  }

  /** Two positions of a chain hold two different slots. */
  lemma ChainSlotsDistinct(t: Table, c: seq<int>, b: int, home: Flow -> int, i: int, j: int)
    requires WellFormed(t) && ChainOk(t, c, b, home) && 0 <= i < |c| && 0 <= j < |c| && i != j
    ensures c[i] != c[j]
  {
    assert NodeOk(t, c, i, b, home) && NodeOk(t, c, j, b, home);
    if i < j {
      assert KeyAt(t, c[i]) != KeyAt(t, c[j]);
    } else {
      assert KeyAt(t, c[j]) != KeyAt(t, c[i]);
    }
  }

  /** A key the chain's walk does not find is held by no slot of the chain. */
  lemma NotFoundNotInChain(t: Table, c: seq<int>, f: Flow)
    requires WellFormed(t) && InTable(t, c) && FindIndex(t, c, f) == |c|
    ensures forall j :: 0 <= j < |c| ==> KeyAt(t, c[j]) != f
  {
    forall j | 0 <= j < |c| ensures KeyAt(t, c[j]) != f {
      MatchesKeyAt(t, c[j], f);
    }
  }

  /** A free slot is on no chain and is no chain head. */
  lemma FreeSlotUnchained(t: Table, C: Chains, home: Flow -> int, s: int)
    requires Valid(t, C, home) && IsSlot(t, s) && !Occupied(t, s)
    ensures forall b :: b in C ==> s !in C[b]
    ensures s !in t.heads
  {
    forall b | b in C ensures s !in C[b] {
      ChainFacts(t, C, home, b);
    }
    if s in t.heads {
      var b := t.heads[s];
      ChainFacts(t, C, home, b);
      assert C[b][0] == s;
    }
  }

  // ---------------------------------------------------------------------------------------
  // The two ways get stores a new key

  /** One node of the lengthened chain is well linked. */
  lemma AppendNodeOk(t: Table, c: seq<int>, home: Flow -> int, b: int, s: int, f: Flow, now: Int64, j: int)
    requires WellFormed(t) && ChainOk(t, c, b, home) && InTable(t, c) && home(f) == b
    requires IsSlot(t, s) && s !in c && !IsNextLinkFlagSet(t.headers[s].word) && !IsPrevLinkFlagSet(t.headers[s].word)
    requires 0 <= j <= |c|
    ensures |c| > 0 && IsSlot(t, c[|c| - 1]) && c[|c| - 1] != s
    ensures NodeOk(LinkTail(Allocate(t, s, f, now), c[|c| - 1], s), c + [s], j, b, home)
  {
    var tail := c[|c| - 1];
    assert tail in c;
    var c2 := c + [s];
    if j < |c| - 1 {
      ChainSlotsDistinct(t, c, b, home, j, |c| - 1);
      assert c[j] in c;
      assert NodeOk(t, c, j, b, home);
      assert c2[j + 1] == c[j + 1];
    } else if j == |c| - 1 {
      assert NodeOk(t, c, j, b, home);
    }
  }

  /** The new tail and the old tail are well linked, and the rest of the chain is untouched. */
  lemma AppendChainOk(t: Table, c: seq<int>, home: Flow -> int, b: int, s: int, f: Flow, now: Int64)
    requires WellFormed(t) && ChainOk(t, c, b, home) && InTable(t, c) && home(f) == b
    requires IsSlot(t, s) && s !in c && !IsNextLinkFlagSet(t.headers[s].word) && !IsPrevLinkFlagSet(t.headers[s].word)
    requires forall x :: x in c ==> KeyAt(t, x) != f
    ensures |c| > 0 && IsSlot(t, c[|c| - 1]) && c[|c| - 1] != s
    ensures ChainOk(LinkTail(Allocate(t, s, f, now), c[|c| - 1], s), c + [s], b, home)
  {
    var tail := c[|c| - 1];
    assert tail in c;
    var t2 := LinkTail(Allocate(t, s, f, now), tail, s);
    var c2 := c + [s];
    forall j | 0 <= j < |c2| ensures NodeOk(t2, c2, j, b, home) {
      AppendNodeOk(t, c, home, b, s, f, now, j);
    }
    forall i, j | 0 <= i < j < |c2| && IsSlot(t2, c2[i]) && IsSlot(t2, c2[j])
      ensures KeyAt(t2, c2[i]) != KeyAt(t2, c2[j])
    {
      if j < |c| {
        assert KeyAt(t, c[i]) != KeyAt(t, c[j]);
      } else {
        assert c[i] in c;
      }
    }
  }

  /** Appending keeps every chain well formed: the grown one and, untouched, all others. */
  lemma AppendChainsOk(t: Table, C: Chains, home: Flow -> int, b: int, tail: int, s: int, f: Flow, now: Int64)
    requires Valid(t, C, home) && b in C && home(f) == b && InTable(t, C[b])
    requires |C[b]| > 0 && tail == C[b][|C[b]| - 1] && IsSlot(t, tail) && tail != s
    requires IsSlot(t, s) && !Occupied(t, s) && FindIndex(t, C[b], f) == |C[b]|
    ensures var t2 := LinkTail(Allocate(t, s, f, now), tail, s);
      var C2 := C[b := C[b] + [s]];
      forall b2 :: b2 in C2 ==> ChainOk(t2, C2[b2], b2, home)
  {
    var c := C[b];
    ChainFacts(t, C, home, b);
    FreeSlotUnchained(t, C, home, s);
    NotFoundNotInChain(t, c, f);
    assert forall x :: x in c ==> KeyAt(t, x) != f;
    AppendChainOk(t, c, home, b, s, f, now);
    var t2 := LinkTail(Allocate(t, s, f, now), tail, s);
    OtherChainsOk(t, t2, C, home, b, {s, tail});
  }

  /** After appending, every occupied slot still lies on its home bucket's chain. */
  lemma AppendReachable(t: Table, C: Chains, home: Flow -> int, b: int, tail: int, s: int, f: Flow, now: Int64)
    requires Valid(t, C, home) && b in C && home(f) == b
    requires IsSlot(t, tail) && tail != s && IsSlot(t, s) && !Occupied(t, s)
    ensures Reachable(LinkTail(Allocate(t, s, f, now), tail, s), C[b := C[b] + [s]], home)
  {
    var t2 := LinkTail(Allocate(t, s, f, now), tail, s);
    var C2 := C[b := C[b] + [s]];
    forall x | IsSlot(t2, x) && Occupied(t2, x)
      ensures home(KeyAt(t2, x)) in C2 && x in C2[home(KeyAt(t2, x))]
    {
      if x != s {
        assert Occupied(t, x);
      }
    }
  }

  /** After appending, the maps still register exactly the chain heads. */
  lemma AppendMapsOk(t: Table, C: Chains, b: int, tail: int, s: int, f: Flow, now: Int64)
    requires WellFormed(t) && MapsOk(t, C) && b in C && s !in t.heads
    requires IsSlot(t, tail) && tail != s && IsSlot(t, s)
    ensures MapsOk(LinkTail(Allocate(t, s, f, now), tail, s), C[b := C[b] + [s]])
  {
  }

  /** After appending, free slots still carry no link flags. */
  lemma AppendFreeOk(t: Table, tail: int, s: int, f: Flow, now: Int64)
    requires WellFormed(t) && FreeSlotsUnlinked(t)
    requires IsSlot(t, tail) && Occupied(t, tail) && tail != s && IsSlot(t, s)
    ensures FreeSlotsUnlinked(LinkTail(Allocate(t, s, f, now), tail, s))
  {
  }

  /** After appending, the counter still counts the occupied slots. */
  lemma AppendCountOk(t: Table, tail: int, s: int, f: Flow, now: Int64)
    requires WellFormed(t) && t.size == CountOccupied(t.headers)
    requires IsSlot(t, tail) && tail != s && IsSlot(t, s) && !Occupied(t, s)
    ensures var t2 := LinkTail(Allocate(t, s, f, now), tail, s);
      t2.size == CountOccupied(t2.headers)
  {
    var t2 := LinkTail(Allocate(t, s, f, now), tail, s);
    CountExcept(t.headers, t2.headers, s);
  }

  /** Appending a new key to the end of its bucket's chain keeps the invariant. */
  lemma AppendKeepsValid(t: Table, C: Chains, home: Flow -> int, b: int, tail: int, s: int, f: Flow, now: Int64)
    requires Valid(t, C, home) && b in C && home(f) == b && InTable(t, C[b])
    requires |C[b]| > 0 && tail == C[b][|C[b]| - 1] && IsSlot(t, tail) && tail != s
    requires IsSlot(t, s) && !Occupied(t, s) && FindIndex(t, C[b], f) == |C[b]|
    ensures Valid(LinkTail(Allocate(t, s, f, now), tail, s), C[b := C[b] + [s]], home)
  {
    ChainFacts(t, C, home, b);
    AppendChainsOk(t, C, home, b, tail, s, f, now);
    AppendReachable(t, C, home, b, tail, s, f, now);
    FreeSlotUnchained(t, C, home, s);
    AppendMapsOk(t, C, b, tail, s, f, now);
    AppendFreeOk(t, tail, s, f, now);
    AppendCountOk(t, tail, s, f, now);
  }

  /** A new one-slot chain is well formed, and the other chains are untouched. */
  lemma NewHeadChainsOk(t: Table, C: Chains, home: Flow -> int, b: int, s: int, f: Flow, now: Int64)
    requires Valid(t, C, home) && b !in C && 0 <= b < |t.headers| && home(f) == b
    requires IsSlot(t, s) && !Occupied(t, s)
    ensures var t2 := RegisterHead(Allocate(t, s, f, now), b, s);
      var C2 := C[b := [s]];
      forall b2 :: b2 in C2 ==> ChainOk(t2, C2[b2], b2, home)
  {
    var t2 := RegisterHead(Allocate(t, s, f, now), b, s);
    assert !IsNextLinkFlagSet(t.headers[s].word) && !IsPrevLinkFlagSet(t.headers[s].word);
    assert NodeOk(t2, [s], 0, b, home);
    OtherChainsOk(t, t2, C, home, b, {s});
  }

  /** After a new head, every occupied slot still lies on its home bucket's chain. */
  lemma NewHeadReachable(t: Table, C: Chains, home: Flow -> int, b: int, s: int, f: Flow, now: Int64)
    requires Valid(t, C, home) && b !in C && home(f) == b && IsSlot(t, s)
    ensures Reachable(RegisterHead(Allocate(t, s, f, now), b, s), C[b := [s]], home)
  {
    var t2 := RegisterHead(Allocate(t, s, f, now), b, s);
    var C2 := C[b := [s]];
    forall x | IsSlot(t2, x) && Occupied(t2, x)
      ensures home(KeyAt(t2, x)) in C2 && x in C2[home(KeyAt(t2, x))]
    {
      if x != s {
        assert Occupied(t, x);
      }
    }
  }

  /** After a new head, the maps register exactly the chain heads and free slots carry no
      link flags. */
  lemma NewHeadMapsOk(t: Table, C: Chains, b: int, s: int, f: Flow, now: Int64)
    requires WellFormed(t) && MapsOk(t, C) && FreeSlotsUnlinked(t)
    requires b !in C && s !in t.heads && IsSlot(t, s)
    ensures var t2 := RegisterHead(Allocate(t, s, f, now), b, s);
      MapsOk(t2, C[b := [s]]) && FreeSlotsUnlinked(t2)
  {
  }

  /** After a new head, the counter counts the occupied slots. */
  lemma NewHeadCountOk(t: Table, b: int, s: int, f: Flow, now: Int64)
    requires WellFormed(t) && t.size == CountOccupied(t.headers) && IsSlot(t, s) && !Occupied(t, s)
    ensures var t2 := RegisterHead(Allocate(t, s, f, now), b, s);
      t2.size == CountOccupied(t2.headers)
  {
    var t2 := RegisterHead(Allocate(t, s, f, now), b, s);
    CountExcept(t.headers, t2.headers, s);
  }

  /** Making a new key the head of a new chain in an unused bucket keeps the invariant. */
  lemma NewHeadKeepsValid(t: Table, C: Chains, home: Flow -> int, b: int, s: int, f: Flow, now: Int64)
    requires Valid(t, C, home) && b !in C && 0 <= b < |t.headers| && home(f) == b
    requires IsSlot(t, s) && !Occupied(t, s)
    ensures Valid(RegisterHead(Allocate(t, s, f, now), b, s), C[b := [s]], home)
  {
    FreeSlotUnchained(t, C, home, s);
    NewHeadChainsOk(t, C, home, b, s, f, now);
    NewHeadReachable(t, C, home, b, s, f, now);
    NewHeadMapsOk(t, C, b, s, f, now);
    NewHeadCountOk(t, b, s, f, now);
  }

  // ---------------------------------------------------------------------------------------
  // get

  /** Under the invariant the buckets in use are exactly the chains' buckets. */
  lemma BucketsAreChains(t: Table, C: Chains, home: Flow -> int, b: int)
    requires Valid(t, C, home)
    ensures b in t.buckets <==> b in C
  {
  }

  /** get(key) keeps the invariant, on every path. */
  lemma GetKeepsValid(t: Table, C: Chains, f: Flow, now: Int64, home: Flow -> int)
    requires Valid(t, C, home)
    ensures var g := Get(t, C, f, now, home);
      Valid(g.1, g.2, home)
  {
    var b := home(f);
    if b in t.buckets {
      ChainFacts(t, C, home, b);
      var c := C[b];
      var k := FindIndex(t, c, f);
      var z := StallIndex(c);
      if k >= z && z == |c| {
        var s := FindBucket(t, b);
        if s != -1 {
          var tail := c[|c| - 1];
          assert tail in c;
          AppendKeepsValid(t, C, home, b, tail, s, f, now);
        }
      }
    } else if 0 <= b < |t.headers| {
      var s := FindBucket(t, b);
      if s != -1 {
        NewHeadKeepsValid(t, C, home, b, s, f, now);
      }
    }
  }

  /** Under the invariant a key is held by at most one occupied slot. */
  lemma KeysUnique(t: Table, C: Chains, home: Flow -> int, x: int, y: int)
    requires Valid(t, C, home) && IsSlot(t, x) && IsSlot(t, y) && Occupied(t, x) && Occupied(t, y)
    requires KeyAt(t, x) == KeyAt(t, y)
    ensures x == y
  {
    var b := home(KeyAt(t, x));
    var c := C[b];
    assert ChainOk(t, c, b, home);
    var i :| 0 <= i < |c| && c[i] == x;
    var j :| 0 <= j < |c| && c[j] == y;
    if i != j {
      assert false;
    }
  }

  /** get(key) of a stored key changes nothing and answers the slot that holds it, unless the
      walk of its chain stalls on a link to slot 0 first. */
  lemma GetStored(t: Table, C: Chains, f: Flow, now: Int64, home: Flow -> int, x: int)
    requires Valid(t, C, home) && IsSlot(t, x) && Occupied(t, x) && KeyAt(t, x) == f
    ensures var g := Get(t, C, f, now, home);
      g.1 == t && g.2 == C
      && (g.0 == Ok(x) || (g.0 == Err(Diverges) && home(f) in C && 0 in C[home(f)][1..]))
  {
    var b := home(f);
    var c := C[b];
    ChainFacts(t, C, home, b);
    var j :| 0 <= j < |c| && c[j] == x;
    MatchesKeyAt(t, x, f);
    var k := FindIndex(t, c, f);
    assert k <= j;
    MatchesKeyAt(t, c[k], f);
    KeysUnique(t, C, home, c[k], x);
    var z := StallIndex(c);
    if z < |c| {
      assert c[1..][z - 1] == 0;
    }
  }

  /** The walk of the home chain of a key no slot holds finds nothing; it stalls exactly when
      the chain links to slot 0 past its head. */
  lemma AbsentWalk(t: Table, C: Chains, f: Flow, home: Flow -> int)
    requires Valid(t, C, home) && home(f) in t.buckets
    requires forall y :: IsSlot(t, y) && Occupied(t, y) ==> KeyAt(t, y) != f
    ensures home(f) in C && InTable(t, C[home(f)]) && |C[home(f)]| > 0
    ensures FindIndex(t, C[home(f)], f) == |C[home(f)]|
    ensures StallIndex(C[home(f)]) < |C[home(f)]| <==> 0 in C[home(f)][1..]
  {
    var b := home(f);
    ChainFacts(t, C, home, b);
    var c := C[b];
    forall x | x in c ensures !Matches(t, x, f) {
      MatchesKeyAt(t, x, f);
    }
    var z := StallIndex(c);
    if z < |c| {
      assert c[1..][z - 1] == 0;
    } else {
      assert forall i :: 0 <= i < |c| - 1 ==> c[1..][i] == c[i + 1];
    }
  }

  /** A get(key) that throws or spins has changed nothing. */
  lemma GetErrUnchanged(t: Table, C: Chains, f: Flow, now: Int64, home: Flow -> int)
    requires Valid(t, C, home)
    ensures var g := Get(t, C, f, now, home);
      g.0.Err? ==> g.1 == t && g.2 == C
  {
  }

  /** get(key) of a key no slot holds, on success: the slot returned was free and now holds the
      key, stamped with the clock; only that slot changed and the size grew by one. */
  lemma GetAbsentStores(t: Table, C: Chains, f: Flow, now: Int64, home: Flow -> int)
    requires Valid(t, C, home)
    requires forall y :: IsSlot(t, y) && Occupied(t, y) ==> KeyAt(t, y) != f
    ensures var g := Get(t, C, f, now, home);
      var t2 := g.1;
      g.0.Ok? ==> var s := g.0.value;
            IsSlot(t, s) && !Occupied(t, s) && WellFormed(t2) && |t2.headers| == |t.headers|
            && Occupied(t2, s) && KeyAt(t2, s) == f && t2.headers[s].lastWrite == now
            && t2.size == t.size + 1
            && (forall y :: IsSlot(t, y) && y != s ==> t2.keys[y] == t.keys[y] && Occupied(t2, y) == Occupied(t, y))
  {
    if home(f) in t.buckets {
      AbsentWalk(t, C, f, home);
    }
  }

  /** get(key) of a key no slot holds fails only for a reason: a home bucket outside the table
      or a full table throw, a chain that links to slot 0 past its head makes the walk spin;
      otherwise the key is stored. */
  lemma GetAbsentFails(t: Table, C: Chains, f: Flow, now: Int64, home: Flow -> int)
    requires Valid(t, C, home)
    requires forall y :: IsSlot(t, y) && Occupied(t, y) ==> KeyAt(t, y) != f
    ensures var r := Get(t, C, f, now, home).0;
      (r == Err(OutOfBounds) <==>
         !(0 <= home(f) < |t.headers|)
         || ((forall y :: IsSlot(t, y) ==> Occupied(t, y)) && !(home(f) in C && 0 in C[home(f)][1..])))
      && (r == Err(Diverges) <==> 0 <= home(f) < |t.headers| && home(f) in C && 0 in C[home(f)][1..])
  {
    var b := home(f);
    if b in t.buckets {
      AbsentWalk(t, C, f, home);
      ChainFacts(t, C, home, b);
    }
  }

  /** Asking for the same key again right after get(key) returned slot `s` returns `s` again
      and changes nothing, whatever the clock says; the one exception is a key appended into
      slot 0 behind an existing head, whose chain the walk can then no longer get past. */
  lemma GetTwice(t: Table, C: Chains, f: Flow, now: Int64, later: Int64, home: Flow -> int)
    requires Valid(t, C, home)
    ensures var g := Get(t, C, f, now, home);
      Valid(g.1, g.2, home)
      && (g.0.Ok? ==>
            Get(g.1, g.2, f, later, home) == (g.0, g.1, g.2)
            || (g.0.value == 0 && Get(g.1, g.2, f, later, home) == (Err(Diverges), g.1, g.2)))
  {
    var b := home(f);
    if b in t.buckets {
      ChainFacts(t, C, home, b);
      if FindIndex(t, C[b], f) < StallIndex(C[b]) {
        GetTwiceFound(t, C, f, now, later, home);
      } else {
        GetTwiceAppended(t, C, f, now, later, home);
      }
    } else {
      GetTwiceNewHead(t, C, f, now, later, home);
    }
  }

  /** GetTwice when the key is found: the table is unchanged and the walk finds it again. */
  lemma GetTwiceFound(t: Table, C: Chains, f: Flow, now: Int64, later: Int64, home: Flow -> int)
    requires Valid(t, C, home) && home(f) in C && InTable(t, C[home(f)])
    requires FindIndex(t, C[home(f)], f) < StallIndex(C[home(f)])
    ensures var g := Get(t, C, f, now, home);
      Valid(g.1, g.2, home)
      && (g.0.Ok? ==>
            Get(g.1, g.2, f, later, home) == (g.0, g.1, g.2)
            || (g.0.value == 0 && Get(g.1, g.2, f, later, home) == (Err(Diverges), g.1, g.2)))
  {
    var b := home(f);
    var c := C[b];
    ChainFacts(t, C, home, b);
    var k := FindIndex(t, c, f);
    MatchesKeyAt(t, c[k], f);
    GetStored(t, C, f, later, home, c[k]);
  }

  /** GetTwice when the walk reaches the tail of the key's chain: get appends a new slot,
      or fails without changing anything. */
  lemma GetTwiceAppended(t: Table, C: Chains, f: Flow, now: Int64, later: Int64, home: Flow -> int)
    requires Valid(t, C, home) && home(f) in C && InTable(t, C[home(f)])
    requires FindIndex(t, C[home(f)], f) >= StallIndex(C[home(f)])
    ensures var g := Get(t, C, f, now, home);
      Valid(g.1, g.2, home)
      && (g.0.Ok? ==>
            Get(g.1, g.2, f, later, home) == (g.0, g.1, g.2)
            || (g.0.value == 0 && Get(g.1, g.2, f, later, home) == (Err(Diverges), g.1, g.2)))
  {
    var b := home(f);
    var c := C[b];
    ChainFacts(t, C, home, b);
    var g := Get(t, C, f, now, home);
    if StallIndex(c) < |c| {
      assert g == (Err(Diverges), t, C);
      return;
    }
    var s := FindBucket(t, b);
    if s == -1 {
      assert g == (Err(OutOfBounds), t, C);
      return;
    }
    var tail := c[|c| - 1];
    assert tail in c;
    var t2 := LinkTail(Allocate(t, s, f, now), tail, s);
    assert g == (Ok(s), t2, C[b := c + [s]]);
    AppendThenGet(t, C, f, now, later, home, b, tail, s);
  }

  /** After get appended slot `s` behind the tail of the key's chain, the table is valid and
      a second get returns `s` again (or spins when `s` is slot 0). */
  lemma AppendThenGet(t: Table, C: Chains, f: Flow, now: Int64, later: Int64, home: Flow -> int,
                      b: int, tail: int, s: int)
    requires Valid(t, C, home) && b == home(f) && b in C && InTable(t, C[b])
    requires StallIndex(C[b]) == |C[b]| <= FindIndex(t, C[b], f)
    requires |C[b]| > 0 && tail == C[b][|C[b]| - 1] && IsSlot(t, tail)
    requires IsSlot(t, s) && !Occupied(t, s) && tail != s
    ensures var t2 := LinkTail(Allocate(t, s, f, now), tail, s);
      var C2 := C[b := C[b] + [s]];
      Valid(t2, C2, home)
      && (Get(t2, C2, f, later, home) == (Ok(s), t2, C2)
          || (s == 0 && Get(t2, C2, f, later, home) == (Err(Diverges), t2, C2)))
  {
    var c := C[b];
    ChainFacts(t, C, home, b);
    assert tail in c;
    var t2 := LinkTail(Allocate(t, s, f, now), tail, s);
    var c2 := c + [s];
    AppendKeepsValid(t, C, home, b, tail, s, f, now);
    AppendedSlotHoldsKey(t, tail, s, f, now);
    forall j | 1 <= j < |c2| - 1 ensures c2[j] != 0 {
      assert c2[j] == c[j];
    }
    GetTwiceNewSlot(t2, C[b := c2], f, later, home, s, b);
  }

  /** The slot get appends holds the key. */
  lemma AppendedSlotHoldsKey(t: Table, tail: int, s: int, f: Flow, now: Int64)
    requires WellFormed(t) && IsSlot(t, tail) && IsSlot(t, s) && tail != s
    ensures var t2 := LinkTail(Allocate(t, s, f, now), tail, s);
      WellFormed(t2) && IsSlot(t2, s) && Occupied(t2, s) && KeyAt(t2, s) == f
  {
  }

  /** GetTwice when get starts a new chain for the key's bucket. */
  lemma GetTwiceNewHead(t: Table, C: Chains, f: Flow, now: Int64, later: Int64, home: Flow -> int)
    requires Valid(t, C, home) && home(f) !in t.buckets
    ensures var g := Get(t, C, f, now, home);
      Valid(g.1, g.2, home)
      && (g.0.Ok? ==>
            Get(g.1, g.2, f, later, home) == (g.0, g.1, g.2)
            || (g.0.value == 0 && Get(g.1, g.2, f, later, home) == (Err(Diverges), g.1, g.2)))
  {
    GetKeepsValid(t, C, f, now, home);
    var b := home(f);
    var g := Get(t, C, f, now, home);
    if g.0.Ok? {
      var s := FindBucket(t, b);
      assert g == (Ok(s), RegisterHead(Allocate(t, s, f, now), b, s), C[b := [s]]);
      GetTwiceNewSlot(g.1, g.2, f, later, home, s, b);
    }
  }

  /** A slot that get has just filled and appended to the chain of bucket `b`: the next get
      finds it, unless the slot is 0 and the walk stalls on the link to it. */
  lemma GetTwiceNewSlot(t: Table, C: Chains, f: Flow, later: Int64, home: Flow -> int, s: int, b: int)
    requires Valid(t, C, home) && IsSlot(t, s) && Occupied(t, s) && KeyAt(t, s) == f
    requires b == home(f) && b in C && s == C[b][|C[b]| - 1]
    requires forall j :: 1 <= j < |C[b]| - 1 ==> C[b][j] != 0
    ensures Get(t, C, f, later, home) == (Ok(s), t, C)
      || (s == 0 && Get(t, C, f, later, home) == (Err(Diverges), t, C))
  {
    GetStored(t, C, f, later, home, s);
  }

}
