/** What remove(offset) and remove(key) do: each of the four ways a slot leaves its chain,
    the invariant they keep, and the flaw of the promotion as the source writes it. */
module RemoveLemmas {

  import opened JavaInt
  import opened Header
  import opened FlowKeys
  import opened SlotTable
  import opened GetLemmas
  import opened LockLemmas

  // ---------------------------------------------------------------------------------------
  // The four branches of remove(offset)

  /** A slot with both links is spliced out: its predecessor now links forward to its
      successor and the successor back to the predecessor. */
  lemma UnlinkSplices(t: Table, s: int, clear: bool)
    requires WellFormed(t) && LinksOk(t) && IsSlot(t, s)
    requires IsPrevLinkFlagSet(t.headers[s].word) && IsNextLinkFlagSet(t.headers[s].word)
    requires t.headers[s].prev != s && t.headers[s].next != s && t.headers[s].prev != t.headers[s].next
    ensures var r := Unlink(t, s, clear);
      var p := t.headers[s].prev;
      var n := t.headers[s].next;
      IsSlot(t, p) && IsSlot(t, n)
      && r.headers[p] == WithNextLink(t.headers[p], n)
      && r.headers[n] == WithPreviousLink(t.headers[n], p)
      && r.headers[s] == t.headers[s].(word := FreeBucket(RemovePreviousLink(RemoveNextLink(t.headers[s].word))))
      && r.buckets == t.buckets && r.heads == t.heads - {s}
      && forall x :: IsSlot(t, x) && x != s && x != p && x != n ==> r.headers[x] == t.headers[x]
  {
  }

  /** A tail with a predecessor is cut off: the predecessor loses its next-link flag. */
  lemma UnlinkCutsTail(t: Table, s: int, clear: bool)
    requires WellFormed(t) && LinksOk(t) && IsSlot(t, s)
    requires IsPrevLinkFlagSet(t.headers[s].word) && !IsNextLinkFlagSet(t.headers[s].word)
    requires t.headers[s].prev != s
    ensures var r := Unlink(t, s, clear);
      var p := t.headers[s].prev;
      IsSlot(t, p)
      && r.headers[p] == t.headers[p].(word := RemoveNextLink(t.headers[p].word))
      && r.headers[s] == t.headers[s].(word := FreeBucket(RemovePreviousLink(RemoveNextLink(t.headers[s].word))))
      && r.buckets == t.buckets && r.heads == t.heads - {s}
      && forall x :: IsSlot(t, x) && x != s && x != p ==> r.headers[x] == t.headers[x]
  {
  }

  /** A head with a successor hands its bucket to the successor, which loses its previous-link
      flag only when `clear` holds. */
  lemma UnlinkPromotes(t: Table, s: int, clear: bool)
    requires WellFormed(t) && LinksOk(t) && IsSlot(t, s) && s in t.heads
    requires !IsPrevLinkFlagSet(t.headers[s].word) && IsNextLinkFlagSet(t.headers[s].word)
    requires t.headers[s].next != s
    ensures var r := Unlink(t, s, clear);
      var n := t.headers[s].next;
      var b := t.heads[s];
      IsSlot(t, n)
      && r.headers[n] == (if clear then t.headers[n].(word := RemovePreviousLink(t.headers[n].word)) else t.headers[n])
      && r.headers[s] == t.headers[s].(word := FreeBucket(RemovePreviousLink(RemoveNextLink(t.headers[s].word))))
      && r.buckets == t.buckets[b := n] && r.heads == t.heads[n := b] - {s}
      && forall x :: IsSlot(t, x) && x != s && x != n ==> r.headers[x] == t.headers[x]
  {
  }

  /** A head without a successor takes its bucket with it. */
  lemma UnlinkDrops(t: Table, s: int, clear: bool)
    requires WellFormed(t) && LinksOk(t) && IsSlot(t, s) && s in t.heads
    requires !IsPrevLinkFlagSet(t.headers[s].word) && !IsNextLinkFlagSet(t.headers[s].word)
    ensures var r := Unlink(t, s, clear);
      r.headers[s] == t.headers[s].(word := FreeBucket(RemovePreviousLink(RemoveNextLink(t.headers[s].word))))
      && r.buckets == t.buckets - {t.heads[s]} && r.heads == t.heads - {s}
      && forall x :: IsSlot(t, x) && x != s ==> r.headers[x] == t.headers[x]
  {
  }

  // ---------------------------------------------------------------------------------------
  // The chain a removal leaves

  /** Chain `c` without its position `j`. */
  function Without(c: seq<int>, j: int): (r: seq<int>)
    requires 0 <= j < |c|
    ensures |r| == |c| - 1
    ensures forall i :: 0 <= i < j ==> r[i] == c[i]
    ensures forall i :: j <= i < |r| ==> r[i] == c[i + 1]
  {
    c[..j] + c[j + 1..]
  }

  /** The chains after position `j` of bucket `b`'s chain is removed: a chain of one slot
      disappears with its bucket. */
  function ChainsAfter(C: Chains, b: int, j: int): (r: Chains)
    requires b in C && 0 <= j < |C[b]|
  {
    if |C[b]| == 1 then C - {b} else C[b := Without(C[b], j)]
  }

  /** A node whose header did not change and whose neighbours are the same slots as before
      stays well linked. */
  lemma KeepNodeOk(t: Table, t2: Table, c: seq<int>, c2: seq<int>, b: int, home: Flow -> int, k: int, i: int)
    requires WellFormed(t) && WellFormed(t2) && t2.keys == t.keys && |t2.headers| == |t.headers|
    requires 0 <= k < |c| && 0 <= i < |c2| && c2[i] == c[k] && NodeOk(t, c, k, b, home)
    requires t2.headers[c[k]] == t.headers[c[k]]
    requires (i + 1 < |c2|) == (k + 1 < |c|) && (i + 1 < |c2| ==> c2[i + 1] == c[k + 1])
    requires (i > 0) == (k > 0) && (i > 0 ==> c2[i - 1] == c[k - 1])
    ensures NodeOk(t2, c2, i, b, home)
  {
  }

  /** The two neighbours of a spliced-out node are linked to each other. */
  lemma SpliceNeighboursOk(t: Table, t2: Table, c: seq<int>, b: int, home: Flow -> int, j: int, i: int)
    requires WellFormed(t) && WellFormed(t2) && t2.keys == t.keys && |t2.headers| == |t.headers|
    requires forall x :: 0 <= x < |c| ==> 0 <= c[x] < |t.headers|
    requires 0 < j < |c| - 1 && (i == j - 1 || i == j)
    requires NodeOk(t, c, j - 1, b, home) && NodeOk(t, c, j + 1, b, home)
    requires t2.headers[c[j - 1]] == WithNextLink(t.headers[c[j - 1]], c[j + 1])
    requires t2.headers[c[j + 1]] == WithPreviousLink(t.headers[c[j + 1]], c[j - 1])
    ensures NodeOk(t2, Without(c, j), i, b, home)
  {
  }

  /** Splicing out a middle node leaves every node of the shortened chain well linked. */
  lemma SpliceNodeOk(t: Table, t2: Table, c: seq<int>, b: int, home: Flow -> int, j: int, i: int)
    requires WellFormed(t) && WellFormed(t2) && t2.keys == t.keys && |t2.headers| == |t.headers|
    requires ChainOk(t, c, b, home) && forall x :: 0 <= x < |c| ==> 0 <= c[x] < |t.headers|
    requires 0 < j < |c| - 1 && 0 <= i < |c| - 1
    requires t2.headers[c[j - 1]] == WithNextLink(t.headers[c[j - 1]], c[j + 1])
    requires t2.headers[c[j + 1]] == WithPreviousLink(t.headers[c[j + 1]], c[j - 1])
    requires forall x :: IsSlot(t, x) && x != c[j] && x != c[j - 1] && x != c[j + 1] ==> t2.headers[x] == t.headers[x]
    ensures NodeOk(t2, Without(c, j), i, b, home)
  {
    if i == j - 1 || i == j {
      assert NodeOk(t, c, j - 1, b, home) && NodeOk(t, c, j + 1, b, home);
      SpliceNeighboursOk(t, t2, c, b, home, j, i);
    } else {
      var k := if i < j then i else i + 1;
      ChainSlotsDistinct(t, c, b, home, k, j - 1);
      ChainSlotsDistinct(t, c, b, home, k, j + 1);
      ChainSlotsDistinct(t, c, b, home, k, j);
      SpliceKeptNodeOk(t, t2, c, b, home, j, i, k);
    }
  }

  lemma SpliceKeptNodeOk(t: Table, t2: Table, c: seq<int>, b: int, home: Flow -> int, j: int, i: int, k: int)
    requires WellFormed(t) && WellFormed(t2) && t2.keys == t.keys && |t2.headers| == |t.headers|
    requires forall x :: 0 <= x < |c| ==> 0 <= c[x] < |t.headers|
    requires 0 < j < |c| - 1 && 0 <= i < |c| - 1 && i != j - 1 && i != j
    requires k == (if i < j then i else i + 1) && NodeOk(t, c, k, b, home)
    requires c[k] != c[j - 1] && c[k] != c[j] && c[k] != c[j + 1]
    requires forall x :: IsSlot(t, x) && x != c[j] && x != c[j - 1] && x != c[j + 1] ==> t2.headers[x] == t.headers[x]
    ensures NodeOk(t2, Without(c, j), i, b, home)
  {
    KeepNodeOk(t, t2, c, Without(c, j), b, home, k, i);
  }

  /** Cutting off the tail leaves every node of the shortened chain well linked. */
  lemma CutNodeOk(t: Table, t2: Table, c: seq<int>, b: int, home: Flow -> int, i: int)
    requires WellFormed(t) && WellFormed(t2) && t2.keys == t.keys && |t2.headers| == |t.headers|
    requires ChainOk(t, c, b, home) && forall x :: 0 <= x < |c| ==> 0 <= c[x] < |t.headers|
    requires |c| >= 2 && 0 <= i < |c| - 1
    requires var p := c[|c| - 2]; t2.headers[p] == t.headers[p].(word := RemoveNextLink(t.headers[p].word))
    requires forall x :: IsSlot(t, x) && x != c[|c| - 1] && x != c[|c| - 2] ==> t2.headers[x] == t.headers[x]
    ensures NodeOk(t2, Without(c, |c| - 1), i, b, home)
  {
    var j := |c| - 1;
    assert NodeOk(t, c, i, b, home);
    if i != j - 1 {
      ChainSlotsDistinct(t, c, b, home, i, j - 1);
      ChainSlotsDistinct(t, c, b, home, i, j);
      KeepNodeOk(t, t2, c, Without(c, j), b, home, i, i);
    }
  }

  /** Promoting the successor of a removed head leaves every node of the shortened chain well
      linked, the new head without a previous-link flag. */
  lemma PromoteNodeOk(t: Table, t2: Table, c: seq<int>, b: int, home: Flow -> int, i: int)
    requires WellFormed(t) && WellFormed(t2) && t2.keys == t.keys && |t2.headers| == |t.headers|
    requires ChainOk(t, c, b, home) && forall x :: 0 <= x < |c| ==> 0 <= c[x] < |t.headers|
    requires |c| >= 2 && 0 <= i < |c| - 1
    requires t2.headers[c[1]] == t.headers[c[1]].(word := RemovePreviousLink(t.headers[c[1]].word))
    requires forall x :: IsSlot(t, x) && x != c[0] && x != c[1] ==> t2.headers[x] == t.headers[x]
    ensures NodeOk(t2, Without(c, 0), i, b, home)
  {
    assert NodeOk(t, c, i + 1, b, home);
    if i != 0 {
      ChainSlotsDistinct(t, c, b, home, i + 1, 1);
      ChainSlotsDistinct(t, c, b, home, i + 1, 0);
      KeepNodeOk(t, t2, c, Without(c, 0), b, home, i + 1, i);
    }
  }

  /** A chain whose nodes are all well linked after one position is dropped is a chain. */
  lemma ShrunkChainOk(t: Table, t2: Table, c: seq<int>, b: int, home: Flow -> int, j: int)
    requires WellFormed(t) && WellFormed(t2) && t2.keys == t.keys && |t2.headers| == |t.headers|
    requires ChainOk(t, c, b, home) && |c| >= 2 && 0 <= j < |c|
    requires forall i :: 0 <= i < |c| - 1 ==> NodeOk(t2, Without(c, j), i, b, home)
    ensures ChainOk(t2, Without(c, j), b, home)
  {
    var c2 := Without(c, j);
    forall i1, i2 | 0 <= i1 < i2 < |c2| && IsSlot(t2, c2[i1]) && IsSlot(t2, c2[i2])
      ensures KeyAt(t2, c2[i1]) != KeyAt(t2, c2[i2])
    {
      var k1 := if i1 < j then i1 else i1 + 1;
      var k2 := if i2 < j then i2 else i2 + 1;
      assert KeyAt(t, c[k1]) != KeyAt(t, c[k2]);
    }
  }

  /** A removal that changes only slots of chain `b`, and leaves the nodes of that chain minus
      position `j` well linked, leaves every chain well formed. */
  lemma RemoveChainsOk(t: Table, t2: Table, C: Chains, home: Flow -> int, b: int, j: int)
    requires Valid(t, C, home) && b in C && 0 <= j < |C[b]|
    requires WellFormed(t2) && t2.keys == t.keys && |t2.headers| == |t.headers|
    requires forall i :: 0 <= i < |C[b]| - 1 ==> NodeOk(t2, Without(C[b], j), i, b, home)
    requires forall x :: IsSlot(t, x) && x !in C[b] ==> t2.headers[x] == t.headers[x]
    ensures var C2 := ChainsAfter(C, b, j);
      forall b2 :: b2 in C2 ==> ChainOk(t2, C2[b2], b2, home)
  {
    ChainFacts(t, C, home, b);
    if |C[b]| >= 2 {
      ShrunkChainOk(t, t2, C[b], b, home, j);
    }
    OtherChainsOk(t, t2, C, home, b, set x | x in C[b]);
  }

  /** After a removal of slot `s` = C[b][j], every occupied slot still lies on its home chain,
      free slots carry no link flags and the counter counts the occupied slots. */
  lemma RemoveCountOk(t: Table, t2: Table, C: Chains, home: Flow -> int, b: int, j: int)
    requires Valid(t, C, home) && b in C && 0 <= j < |C[b]|
    requires WellFormed(t2) && t2.keys == t.keys && |t2.headers| == |t.headers| && t2.size == t.size - 1
    requires IsSlot(t, C[b][j])
    requires var s := C[b][j];
      !Occupied(t2, s) && !IsNextLinkFlagSet(t2.headers[s].word) && !IsPrevLinkFlagSet(t2.headers[s].word)
      && (forall x :: IsSlot(t, x) && x != s ==> Occupied(t2, x) == Occupied(t, x))
      && (forall x :: IsSlot(t, x) && !Occupied(t, x) ==> t2.headers[x] == t.headers[x])
    ensures Reachable(t2, ChainsAfter(C, b, j), home) && FreeSlotsUnlinked(t2)
    ensures t2.size == CountOccupied(t2.headers)
  {
    var s := C[b][j];
    var C2 := ChainsAfter(C, b, j);
    ChainFacts(t, C, home, b);
    forall x | IsSlot(t2, x) && Occupied(t2, x)
      ensures home(KeyAt(t2, x)) in C2 && x in C2[home(KeyAt(t2, x))]
    {
      assert Occupied(t, x) && x != s;
      if home(KeyAt(t, x)) == b {
        var i :| 0 <= i < |C[b]| && C[b][i] == x;
        ChainSlotsDistinct(t, C[b], b, home, i, j);
        if i < j {
          assert Without(C[b], j)[i] == x;
        } else {
          assert Without(C[b], j)[i - 1] == x;
        }
      }
    }
    CountExcept(t.headers, t2.headers, s);
  }

  /** Only the first slot of a chain is registered as a chain head. */
  lemma NotAHead(t: Table, C: Chains, home: Flow -> int, b: int, j: int)
    requires Valid(t, C, home) && b in C && 0 < j < |C[b]|
    ensures C[b][j] !in t.heads
  {
    var x := C[b][j];
    ChainFacts(t, C, home, b);
    assert x in C[b];
    forall b2 | b2 in C ensures C[b2][0] != x {
      ChainFacts(t, C, home, b2);
      assert C[b2][0] in C[b2];
      if b2 == b {
        ChainSlotsDistinct(t, C[b], b, home, 0, j);
      }
    }
  }

  /** Removing a slot past the head leaves the maps registering exactly the chain heads. */
  lemma RemoveMapsKeep(t: Table, t2: Table, C: Chains, b: int, j: int)
    requires MapsOk(t, C) && b in C && 0 < j < |C[b]| && C[b][j] !in t.heads
    requires t2.buckets == t.buckets && t2.heads == t.heads - {C[b][j]}
    ensures MapsOk(t2, ChainsAfter(C, b, j))
  {
  }

  /** Removing a head with a successor registers the successor as the head. */
  lemma RemoveMapsPromote(t: Table, t2: Table, C: Chains, b: int)
    requires MapsOk(t, C) && b in C && |C[b]| >= 2 && C[b][1] !in t.heads && C[b][0] != C[b][1]
    requires t2.buckets == t.buckets[b := C[b][1]] && t2.heads == t.heads[C[b][1] := b] - {C[b][0]}
    ensures MapsOk(t2, ChainsAfter(C, b, 0))
  {
    var C2 := ChainsAfter(C, b, 0);
    forall o | o in t2.heads
      ensures t2.heads[o] in C2 && |C2[t2.heads[o]]| > 0 && C2[t2.heads[o]][0] == o
    {
      if o != C[b][1] {
        assert o in t.heads && t.heads[o] != b;
      }
    }
  }

  /** Removing the only slot of a chain drops its bucket from both maps. */
  lemma RemoveMapsDrop(t: Table, t2: Table, C: Chains, b: int)
    requires MapsOk(t, C) && b in C && |C[b]| == 1
    requires t2.buckets == t.buckets - {b} && t2.heads == t.heads - {C[b][0]}
    ensures MapsOk(t2, ChainsAfter(C, b, 0))
  {
    var C2 := ChainsAfter(C, b, 0);
    forall o | o in t2.heads
      ensures t2.heads[o] in C2 && |C2[t2.heads[o]]| > 0 && C2[t2.heads[o]][0] == o
    {
      assert o in t.heads && t.heads[o] != b;
    }
  }

  // ---------------------------------------------------------------------------------------
  // remove(offset) keeps the invariant

  /** The facts about a splice of position `j` that the invariant proof uses. */
  ghost predicate Spliced(t: Table, t2: Table, c: seq<int>, j: int)
    requires 0 < j < |c| - 1
  {
    var s := c[j];
    |t2.headers| == |t.headers| && IsSlot(t, s) && IsSlot(t, c[j - 1]) && IsSlot(t, c[j + 1])
    && t2.headers[c[j - 1]] == WithNextLink(t.headers[c[j - 1]], c[j + 1])
    && t2.headers[c[j + 1]] == WithPreviousLink(t.headers[c[j + 1]], c[j - 1])
    && t2.headers[s] == t.headers[s].(word := FreeBucket(RemovePreviousLink(RemoveNextLink(t.headers[s].word))))
    && t2.buckets == t.buckets && t2.heads == t.heads - {s}
    && forall x :: IsSlot(t, x) && x != s && x != c[j - 1] && x != c[j + 1] ==> t2.headers[x] == t.headers[x]
  }

  /** After a splice every chain is well formed. */
  lemma SplicedChainsOk(t: Table, t2: Table, C: Chains, home: Flow -> int, b: int, j: int)
    requires Valid(t, C, home) && b in C && 0 < j < |C[b]| - 1
    requires WellFormed(t2) && t2.keys == t.keys && Spliced(t, t2, C[b], j)
    ensures var C2 := ChainsAfter(C, b, j);
      forall b2 :: b2 in C2 ==> ChainOk(t2, C2[b2], b2, home)
  {
    var c := C[b];
    ChainFacts(t, C, home, b);
    assert forall x :: 0 <= x < |c| ==> c[x] in c;
    forall i | 0 <= i < |c| - 1 ensures NodeOk(t2, Without(c, j), i, b, home) {
      SpliceNodeOk(t, t2, c, b, home, j, i);
    }
    RemoveChainsOk(t, t2, C, home, b, j);
  }

  /** After a splice the maps, the free slots and the counter are in order. */
  lemma SplicedCountOk(t: Table, t2: Table, C: Chains, home: Flow -> int, b: int, j: int)
    requires Valid(t, C, home) && b in C && 0 < j < |C[b]| - 1
    requires WellFormed(t2) && t2.keys == t.keys && t2.size == t.size - 1 && Spliced(t, t2, C[b], j)
    ensures var C2 := ChainsAfter(C, b, j);
      MapsOk(t2, C2) && Reachable(t2, C2, home) && FreeSlotsUnlinked(t2) && t2.size == CountOccupied(t2.headers)
  {
    var c := C[b];
    ChainFacts(t, C, home, b);
    assert c[j - 1] in c && c[j + 1] in c;
    ChainSlotsDistinct(t, c, b, home, j - 1, j);
    ChainSlotsDistinct(t, c, b, home, j, j + 1);
    NotAHead(t, C, home, b, j);
    RemoveMapsKeep(t, t2, C, b, j);
    RemoveCountOk(t, t2, C, home, b, j);
  }

  /** Splicing a middle slot out of its chain keeps the invariant. */
  lemma SpliceKeepsValid(t: Table, C: Chains, home: Flow -> int, b: int, j: int)
    requires Valid(t, C, home) && b in C && 0 < j < |C[b]| - 1
    ensures LinksOk(t) && IsSlot(t, C[b][j])
    ensures Valid(RemoveAt(t, C[b][j]), ChainsAfter(C, b, j), home)
  {
    var c := C[b];
    ChainFacts(t, C, home, b);
    ValidLinksOk(t, C, home);
    assert c[j] in c && c[j - 1] in c && c[j + 1] in c;
    assert NodeOk(t, c, j, b, home);
    ChainSlotsDistinct(t, c, b, home, j - 1, j);
    ChainSlotsDistinct(t, c, b, home, j, j + 1);
    ChainSlotsDistinct(t, c, b, home, j - 1, j + 1);
    UnlinkSplices(t, c[j], true);
    var t2 := RemoveAt(t, c[j]);
    assert Spliced(t, t2, c, j);
    SplicedChainsOk(t, t2, C, home, b, j);
    SplicedCountOk(t, t2, C, home, b, j);
  }

  /** The facts about cutting off the tail that the invariant proof uses. */
  ghost predicate Cut(t: Table, t2: Table, c: seq<int>)
    requires |c| >= 2
  {
    var s := c[|c| - 1];
    var p := c[|c| - 2];
    |t2.headers| == |t.headers| && IsSlot(t, s) && IsSlot(t, p)
    && t2.headers[p] == t.headers[p].(word := RemoveNextLink(t.headers[p].word))
    && t2.headers[s] == t.headers[s].(word := FreeBucket(RemovePreviousLink(RemoveNextLink(t.headers[s].word))))
    && t2.buckets == t.buckets && t2.heads == t.heads - {s}
    && forall x :: IsSlot(t, x) && x != s && x != p ==> t2.headers[x] == t.headers[x]
  }

  /** After cutting off the tail every chain is well formed. */
  lemma CutChainsOk(t: Table, t2: Table, C: Chains, home: Flow -> int, b: int, j: int)
    requires Valid(t, C, home) && b in C && 0 < j && j == |C[b]| - 1
    requires WellFormed(t2) && t2.keys == t.keys && Cut(t, t2, C[b])
    ensures var C2 := ChainsAfter(C, b, j);
      forall b2 :: b2 in C2 ==> ChainOk(t2, C2[b2], b2, home)
  {
    var c := C[b];
    ChainFacts(t, C, home, b);
    assert forall x :: 0 <= x < |c| ==> c[x] in c;
    forall i | 0 <= i < |c| - 1 ensures NodeOk(t2, Without(c, j), i, b, home) {
      CutNodeOk(t, t2, c, b, home, i);
    }
    RemoveChainsOk(t, t2, C, home, b, j);
  }

  /** After cutting off the tail the maps, the free slots and the counter are in order. */
  lemma CutCountOk(t: Table, t2: Table, C: Chains, home: Flow -> int, b: int, j: int)
    requires Valid(t, C, home) && b in C && 0 < j && j == |C[b]| - 1
    requires WellFormed(t2) && t2.keys == t.keys && t2.size == t.size - 1 && Cut(t, t2, C[b])
    ensures var C2 := ChainsAfter(C, b, j);
      MapsOk(t2, C2) && Reachable(t2, C2, home) && FreeSlotsUnlinked(t2) && t2.size == CountOccupied(t2.headers)
  {
    var c := C[b];
    ChainFacts(t, C, home, b);
    assert c[j - 1] in c;
    ChainSlotsDistinct(t, c, b, home, j - 1, j);
    NotAHead(t, C, home, b, j);
    RemoveMapsKeep(t, t2, C, b, j);
    RemoveCountOk(t, t2, C, home, b, j);
  }

  /** Cutting the tail off a chain of two or more keeps the invariant. */
  lemma CutKeepsValid(t: Table, C: Chains, home: Flow -> int, b: int, j: int)
    requires Valid(t, C, home) && b in C && 0 < j && j == |C[b]| - 1
    ensures LinksOk(t) && IsSlot(t, C[b][j])
    ensures Valid(RemoveAt(t, C[b][j]), ChainsAfter(C, b, j), home)
  {
    var c := C[b];
    ChainFacts(t, C, home, b);
    ValidLinksOk(t, C, home);
    assert c[j] in c && c[j - 1] in c;
    assert NodeOk(t, c, j, b, home);
    ChainSlotsDistinct(t, c, b, home, j - 1, j);
    UnlinkCutsTail(t, c[j], true);
    var t2 := RemoveAt(t, c[j]);
    assert Cut(t, t2, c);
    CutChainsOk(t, t2, C, home, b, j);
    CutCountOk(t, t2, C, home, b, j);
  }

  /** What a promotion leaves, stated without the removal itself: the invariant holds. */
  lemma PromotedValid(t: Table, t2: Table, C: Chains, home: Flow -> int, b: int)
    requires Valid(t, C, home) && b in C && |C[b]| >= 2
    requires WellFormed(t2) && t2.keys == t.keys && |t2.headers| == |t.headers| && t2.size == t.size - 1
    requires var c := C[b]; var s := c[0]; var n := c[1];
      IsSlot(t, s) && IsSlot(t, n)
      && t2.headers[n] == t.headers[n].(word := RemovePreviousLink(t.headers[n].word))
      && t2.headers[s] == t.headers[s].(word := FreeBucket(RemovePreviousLink(RemoveNextLink(t.headers[s].word))))
      && t2.buckets == t.buckets[b := n] && t2.heads == t.heads[n := b] - {s}
      && forall x :: IsSlot(t, x) && x != s && x != n ==> t2.headers[x] == t.headers[x]
    ensures Valid(t2, ChainsAfter(C, b, 0), home)
  {
    var c := C[b];
    ChainFacts(t, C, home, b);
    assert forall x :: 0 <= x < |c| ==> c[x] in c;
    ChainSlotsDistinct(t, c, b, home, 0, 1);
    forall i | 0 <= i < |c| - 1 ensures NodeOk(t2, Without(c, 0), i, b, home) {
      PromoteNodeOk(t, t2, c, b, home, i);
    }
    RemoveChainsOk(t, t2, C, home, b, 0);
    NotAHead(t, C, home, b, 1);
    RemoveMapsPromote(t, t2, C, b);
    RemoveCountOk(t, t2, C, home, b, 0);
  }

  /** Removing the head of a chain of two or more, and promoting its successor, keeps the
      invariant. */
  lemma PromoteKeepsValid(t: Table, C: Chains, home: Flow -> int, b: int)
    requires Valid(t, C, home) && b in C && |C[b]| >= 2
    ensures LinksOk(t) && IsSlot(t, C[b][0])
    ensures Valid(RemoveAt(t, C[b][0]), ChainsAfter(C, b, 0), home)
  {
    var c := C[b];
    ChainFacts(t, C, home, b);
    ValidLinksOk(t, C, home);
    assert c[0] in c && c[1] in c;
    assert NodeOk(t, c, 0, b, home);
    ChainSlotsDistinct(t, c, b, home, 0, 1);
    UnlinkPromotes(t, c[0], true);
    PromotedValid(t, RemoveAt(t, c[0]), C, home, b);
  }

  /** Removing the only slot of a chain keeps the invariant; the bucket goes out of use. */
  lemma DropKeepsValid(t: Table, C: Chains, home: Flow -> int, b: int)
    requires Valid(t, C, home) && b in C && |C[b]| == 1
    ensures LinksOk(t) && IsSlot(t, C[b][0])
    ensures Valid(RemoveAt(t, C[b][0]), ChainsAfter(C, b, 0), home)
  {
    var c := C[b];
    ChainFacts(t, C, home, b);
    ValidLinksOk(t, C, home);
    var s := c[0];
    assert s in c;
    assert NodeOk(t, c, 0, b, home);
    UnlinkDrops(t, s, true);
    var t2 := RemoveAt(t, s);
    RemoveChainsOk(t, t2, C, home, b, 0);
    RemoveMapsDrop(t, t2, C, b);
    RemoveCountOk(t, t2, C, home, b, 0);
  }

  /** remove(offset) of an occupied slot keeps the invariant; its chain loses that slot, and a
      chain left empty disappears with its bucket. */
  lemma RemoveAtKeepsValid(t: Table, C: Chains, home: Flow -> int, b: int, j: int)
    requires Valid(t, C, home) && b in C && 0 <= j < |C[b]|
    ensures LinksOk(t) && IsSlot(t, C[b][j])
    ensures Valid(RemoveAt(t, C[b][j]), ChainsAfter(C, b, j), home)
  {
    if |C[b]| == 1 {
      assert j == 0;
      DropKeepsValid(t, C, home, b);
    } else if j == 0 {
      PromoteKeepsValid(t, C, home, b);
    } else if j == |C[b]| - 1 {
      CutKeepsValid(t, C, home, b, j);
    } else {
      SpliceKeepsValid(t, C, home, b, j);
    }
  }

  // ---------------------------------------------------------------------------------------
  // What any removal leaves alone

  /** remove(offset) touches only link flags of other slots: their occupancy and lock bits
      stay, and the removed slot keeps its lock bit. */
  lemma UnlinkKeepsOthers(t: Table, s: int, clear: bool)
    requires WellFormed(t) && LinksOk(t) && IsSlot(t, s)
    ensures var r := Unlink(t, s, clear);
      (forall y :: IsSlot(t, y) && y != s ==> Occupied(r, y) == Occupied(t, y))
      && (forall y :: IsSlot(t, y) ==> IsLocked(r.headers[y].word) == IsLocked(t.headers[y].word))
  {
  }


  /** Releasing a slot frees it and leaves every lock bit and every other slot's occupancy. */
  lemma ReleaseFlags(d: Table, s: int)
    requires IsSlot(d, s)
    ensures var r := Release(d, s);
      forall y :: IsSlot(d, y) ==>
        Occupied(r, y) == (Occupied(d, y) && y != s)
        && IsLocked(r.headers[y].word) == IsLocked(d.headers[y].word)
  {
    var r := Release(d, s);
    forall y | IsSlot(d, y)
      ensures Occupied(r, y) == (Occupied(d, y) && y != s)
      ensures IsLocked(r.headers[y].word) == IsLocked(d.headers[y].word)
    {
      if y == s {
        ReleaseKeepsLock(d.headers[s].word);
      }
    }
  }

  /** After remove(offset) the removed slot is free and every other slot is as occupied as
      before; keys and lock bits are untouched (the removed slot keeps its lock bit). */
  lemma RemoveAtOccupancy(t: Table, s: int)
    requires WellFormed(t) && LinksOk(t) && IsSlot(t, s)
    ensures var r := RemoveAt(t, s);
      r.keys == t.keys
      && (forall y :: IsSlot(t, y) ==> Occupied(r, y) == (Occupied(t, y) && y != s))
      && (forall y :: IsSlot(t, y) ==> IsLocked(r.headers[y].word) == IsLocked(t.headers[y].word))
  {
    var d := Detach(t, s, true);
    assert LinksOnlyChanged(t, d);
    ReleaseFlags(d, s);
    assert RemoveAt(t, s) == Release(d, s);
  }

  // ---------------------------------------------------------------------------------------
  // remove(key)

  /** The chains after remove(key): the key's position leaves its chain when the key is stored. */
  ghost function RemoveKeyChains(t: Table, C: Chains, f: Flow, home: Flow -> int): Chains
    requires Valid(t, C, home)
  {
    var b := home(f);
    if b in t.buckets then
      ChainFacts(t, C, home, b);
      var k := FindIndex(t, C[b], f);
      if k < |C[b]| then ChainsAfter(C, b, k) else C
    else C
  }

  /** remove(key) in the terms of the walk of remove(key, offset): the first slot of the chain
      that holds the key is removed, and nothing is when no slot does. */
  lemma RemoveKeyByWalk(t: Table, C: Chains, f: Flow, home: Flow -> int)
    requires Valid(t, C, home) && home(f) in t.buckets
    ensures home(f) in C && InTable(t, C[home(f)]) && LinksOk(t)
    ensures var c := C[home(f)];
      var k := FindIndex(t, c, f);
      RemoveKey(t, C, f, home) == if k < |c| then RemoveAt(t, c[k]) else t
  {
    ChainFacts(t, C, home, home(f));
    ValidLinksOk(t, C, home);
  }

  /** remove(key) keeps the invariant. */
  lemma RemoveKeyKeepsValid(t: Table, C: Chains, f: Flow, home: Flow -> int)
    requires Valid(t, C, home)
    ensures Valid(RemoveKey(t, C, f, home), RemoveKeyChains(t, C, f, home), home)
  {
    var b := home(f);
    if b in t.buckets {
      ChainFacts(t, C, home, b);
      var c := C[b];
      var k := FindIndex(t, c, f);
      if k < |c| {
        RemoveAtKeepsValid(t, C, home, b, k);
      } else {
        assert !Matches(t, c[|c| - 1], f);
      }
    }
  }

  /** remove(key) frees the one slot that holds the key, if any, and nothing else: afterwards no
      slot holds the key, every other entry stays where it was, free slots stay free and the
      size drops by one exactly when the key was stored. */
  lemma RemoveKeyEffect(t: Table, C: Chains, f: Flow, home: Flow -> int)
    requires Valid(t, C, home)
    ensures var r := RemoveKey(t, C, f, home);
      WellFormed(r) && |r.headers| == |t.headers| && r.keys == t.keys
      && (forall y :: IsSlot(r, y) && Occupied(r, y) ==> KeyAt(r, y) != f)
      && (forall y :: IsSlot(t, y) && Occupied(t, y) && KeyAt(t, y) != f ==> Occupied(r, y))
      && (forall y :: IsSlot(t, y) && !Occupied(t, y) ==> !Occupied(r, y))
      && r.size == t.size - (if exists y :: IsSlot(t, y) && Occupied(t, y) && KeyAt(t, y) == f then 1 else 0)
  {
    var r := RemoveKey(t, C, f, home);
    var b := home(f);
    if b in t.buckets {
      var s := GetOffset(t, C, f, home);
      GetOffsetFinds(t, C, f, home);
      MatchesKeyAt(t, s, f);
      if Matches(t, s, f) {
        ChainFacts(t, C, home, b);
        assert Occupied(t, s) && KeyAt(t, s) == f;
        ValidLinksOk(t, C, home);
        RemoveAtOccupancy(t, s);
        forall y | IsSlot(r, y) && Occupied(r, y) ensures KeyAt(r, y) != f {
          if KeyAt(t, y) == f {
            KeysUnique(t, C, home, s, y);
          }
        }
      }
    }
  }

  // ---------------------------------------------------------------------------------------
  // The promotion flaw of remove(offset)

  /** Under the invariant a chain head carries no previous-link flag. */
  lemma HeadHasNoPrev(t: Table, C: Chains, home: Flow -> int, n: int)
    requires Valid(t, C, home) && n in t.heads
    ensures IsSlot(t, n) && !IsPrevLinkFlagSet(t.headers[n].word)
  {
    var b := t.heads[n];
    assert ChainOk(t, C[b], b, home);
    assert NodeOk(t, C[b], 0, b, home);
  }

  /** The first two slots of a chain of two or more, with what the invariant says of them. */
  lemma FirstTwo(t: Table, C: Chains, home: Flow -> int, b: int)
    requires Valid(t, C, home) && b in C && |C[b]| >= 2
    ensures var h := C[b][0]; var n := C[b][1];
      LinksOk(t) && IsSlot(t, h) && IsSlot(t, n) && h != n && h in t.heads && t.heads[h] == b
      && Occupied(t, n) && IsPrevLinkFlagSet(t.headers[n].word) && t.headers[n].prev == h
      && !IsPrevLinkFlagSet(t.headers[h].word) && IsNextLinkFlagSet(t.headers[h].word)
      && t.headers[h].next == n
      && (|C[b]| == 2 ==> !IsNextLinkFlagSet(t.headers[n].word))
  {
    ValidLinksOk(t, C, home);
    assert ChainOk(t, C[b], b, home);
    assert NodeOk(t, C[b], 0, b, home) && NodeOk(t, C[b], 1, b, home);
    ChainSlotsDistinct(t, C[b], b, home, 0, 1);
  }

  /** As written, removing a chain head hands the bucket to its successor but leaves the
      successor's previous-link flag set: the new head still looks like a middle node, and no
      choice of chains makes the table valid again. */
  lemma PromotionKeepsPrevFlag(t: Table, C: Chains, home: Flow -> int, b: int)
    requires Valid(t, C, home) && b in C && |C[b]| >= 2
    ensures LinksOk(t) && IsSlot(t, C[b][0]) && IsSlot(t, C[b][1])
    ensures var n := C[b][1];
      var r2 := RemoveAtAsWritten(t, C[b][0]);
      var t2 := r2.1;
      r2.0 == Ok(()) && b in t2.buckets && t2.buckets[b] == n && n in t2.heads
      && IsSlot(t2, n) && Occupied(t2, n) && IsPrevLinkFlagSet(t2.headers[n].word)
      && forall C2 :: !Valid(t2, C2, home)
  {
    var h := C[b][0];
    var n := C[b][1];
    FirstTwo(t, C, home, b);
    UnlinkPromotes(t, h, false);
    var t2 := RemoveAtAsWritten(t, h).1;
    forall C2 ensures !Valid(t2, C2, home) {
      if Valid(t2, C2, home) {
        HeadHasNoPrev(t2, C2, home, n);
      }
    }
  }

  /** The consequence: with a chain of exactly two slots, removing the head and then the new
      head as written takes the slot out through the middle-node branch, which never touches
      the bucket map. The bucket is left pointing at a free slot. */
  lemma PromotionStrandsBucket(t: Table, C: Chains, home: Flow -> int, b: int)
    requires Valid(t, C, home) && b in C && |C[b]| == 2
    ensures LinksOk(t) && IsSlot(t, C[b][0]) && IsSlot(t, C[b][1])
    ensures var n := C[b][1];
      var r2 := RemoveAtAsWritten(t, C[b][0]);
      var t2 := r2.1;
      r2.0 == Ok(()) && LinksOk(t2) && IsSlot(t2, n)
      && var r3 := RemoveAtAsWritten(t2, n);
      var t3 := r3.1;
      r3.0 == Ok(()) && b in t3.buckets && t3.buckets[b] == n && !Occupied(t3, n)
  {
    var h := C[b][0];
    var n := C[b][1];
    FirstTwo(t, C, home, b);
    UnlinkPromotes(t, h, false);
    var t2 := RemoveAtAsWritten(t, h).1;
    UnlinkCutsTail(t2, n, false);
  }

  /** With the previous-link flag cleared on promotion, the same two removals keep the invariant
      and take the bucket away with its last slot. */
  lemma PromotionFixed(t: Table, C: Chains, home: Flow -> int, b: int)
    requires Valid(t, C, home) && b in C && |C[b]| == 2
    ensures LinksOk(t) && IsSlot(t, C[b][0]) && IsSlot(t, C[b][1])
    ensures var n := C[b][1];
      var t2 := RemoveAt(t, C[b][0]);
      LinksOk(t2) && IsSlot(t2, n)
      && var t3 := RemoveAt(t2, n);
      Valid(t3, C - {b}, home) && b !in t3.buckets && !Occupied(t3, n)
  {
    FirstTwo(t, C, home, b);
    RemoveAtKeepsValid(t, C, home, b, 0);
    var C2 := ChainsAfter(C, b, 0);
    var t2 := RemoveAt(t, C[b][0]);
    assert C2[b] == [C[b][1]];
    RemoveAtKeepsValid(t2, C2, home, b, 0);
    assert ChainsAfter(C2, b, 0) == C - {b};
  }
}
