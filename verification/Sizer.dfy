/** The size calculator on the heap, and what packing and sizing have to do with each other there. */
module Sizer {
  import opened ByteStrings
  import opened MsgPuck
  import opened PhpValues
  import opened Codec
  import opened RoundTrip
  import opened ZendHeap
  import opened HeapPaths
  import opened Packer

  /** Computes the packed size of what the guarded walk from `v` sees, for any heap, and restores every counter. */
  method SizeofAny(v: ZVal, ghost g: Graph, ghost c: Counts) returns (size: nat)
    requires Matches(g, c) && Inside(g, v)
    modifies g.Keys`applyCount
    ensures Matches(g, c)
    ensures size == Sizeof(Unfold(g, c, v))
    decreases Budget(g, c), if v.ZArr? then 3 else 0
  {
    hide SizeofLong, SizeofStr, IsHash, SizeofPairs, SizeofSlots, UnfoldEntries, Budget, SizeofMap, SizeofArray;
    match v {
      case ZNull => size := 1;
      case ZBool(_) => size := 1;
      case ZLong(n) => size := SizeofLong(n);
      case ZDouble(_) => size := 9;
      case ZStr(s) => size := SizeofStr(|s|);
      case ZOther => size := 1;
      case ZArr(ht) =>
        UnfoldKeys(g, c, ht);
        var hash := IsHashTable(ht);
        if hash {
          size := SizeofHashRecursively(ht, g, c);
        } else {
          size := SizeofArrayRecursively(ht, g, c);
        }
    }
  }

  method SizeofArrayRecursively(ht: HashTable, ghost g: Graph, ghost c: Counts) returns (needed: nat)
    requires Matches(g, c) && ht in g
    modifies g.Keys`applyCount
    ensures Matches(g, c)
    ensures var p := Unfold(g, c, ZArr(ht)); needed == SizeofArray(|p.entries|) + SizeofSlots(p, |p.entries|)
    decreases Budget(g, c), 2
  {
    hide SizeofArray, Sizeof, Unfold, UnfoldSlot, IndexOf, Closed, Budget, Matches, KeysOf;
    TableOf(g, c, ht);
    var n := |ht.entries|;
    ghost var p := Unfold(g, c, ZArr(ht));
    needed := SizeofArray(n);
    var keyIndex := 0;
    while keyIndex < n
      invariant 0 <= keyIndex <= n && n == |ht.entries|
      invariant Matches(g, c)
      invariant needed == SizeofArray(n) + SizeofSlots(p, keyIndex)
    {
      TableOf(g, c, ht);
      var j := IndexOf(KeysOf(ht.entries), IntKey(keyIndex));
      if j >= n {
        needed := needed + 1;
      } else {
        var size := SizeofSlotValue(ht.entries[j].val, g, c);
        needed := needed + size;
      }
      keyIndex := keyIndex + 1;
    }
  }

  method SizeofHashRecursively(ht: HashTable, ghost g: Graph, ghost c: Counts) returns (needed: nat)
    requires Matches(g, c) && ht in g
    modifies g.Keys`applyCount
    ensures Matches(g, c)
    ensures var p := Unfold(g, c, ZArr(ht)); needed == SizeofMap(|p.entries|) + SizeofPairs(p, |p.entries|)
    decreases Budget(g, c), 2
  {
    hide SizeofMap, Sizeof, SizeofKey, Unfold, UnfoldSlot, Closed, Budget, Matches, KeysOf;
    TableOf(g, c, ht);
    var n := |ht.entries|;
    ghost var p := Unfold(g, c, ZArr(ht));
    needed := SizeofMap(n);
    var pos := 0;
    while pos < n
      invariant 0 <= pos <= n && n == |ht.entries|
      invariant Matches(g, c)
      invariant needed == SizeofMap(n) + SizeofPairs(p, pos)
    {
      TableOf(g, c, ht);
      needed := needed + SizeofKey(ht.entries[pos].key);
      var size := SizeofSlotValue(ht.entries[pos].val, g, c);
      needed := needed + size;
      pos := pos + 1;
    }
  }

  lemma SizeofNull()
    ensures Sizeof(PNull) == 1
  {
  }

  /** One nested value: one byte if the guard bars it, otherwise sized with its counter raised meanwhile. */
  method SizeofSlotValue(v: ZVal, ghost g: Graph, ghost c: Counts) returns (size: nat)
    requires Matches(g, c) && Inside(g, v)
    modifies g.Keys`applyCount
    ensures Matches(g, c)
    ensures size == Sizeof(UnfoldSlot(g, c, v))
    decreases Budget(g, c), 1
  {
    hide Sizeof, Unfold, Closed, Budget;
    if v.ZArr? && v.ht.applyCount > 1 {
      SizeofNull();
      size := 1;
    } else if v.ZArr? {
      EnterSpends(g, c, v.ht);
      v.ht.applyCount := v.ht.applyCount + 1;
      size := SizeofAny(v, g, Enter(c, v.ht));
      v.ht.applyCount := v.ht.applyCount - 1;
    } else {
      size := SizeofAny(v, g, c);
    }
  }

  // ---- what holds of every heap ----

  /** For every value in every heap, cyclic ones included, the computed size is the number of bytes packing appends. */
  lemma SizeMatchesPack(g: Graph, c: Counts, v: ZVal)
    requires SaneHeap(g) && SaneZ(v) && Inside(g, v) && c.Keys == g.Keys
    ensures Sizeof(Unfold(g, c, v)) == |Encode(Unfold(g, c, v))|
  {
    UnfoldSane(g, c, v);
    SizeofIsLength(Unfold(g, c, v));
  }

  /**
   Round trip on an acyclic heap none of whose counters is raised: the packed bytes, whatever follows them, unpack
   to a value that means what the whole heap value means exactly when that value is clean.
   */
  lemma AcyclicRoundTrip(g: Graph, rank: map<HashTable, nat>, c: Counts, v: ZVal, tail: Bytes)
    requires SaneHeap(g) && Ranked(g, rank) && SaneZ(v) && Inside(g, v) && c.Keys == g.Keys
    requires forall t :: t in g ==> c[t] <= 1
    ensures var whole := Whole(g, rank, v);
      && Unpack(Encode(Unfold(g, c, v)) + tail) == Got(Decoded(whole), tail)
      && (ContentOf(Decoded(whole)) == ContentOf(whole) <==> Clean(whole))
  {
    hide Unpack, Encode, Unfold, Decoded, ContentOf, Whole, Sane, Clean;
    AcyclicSeesAll(g, rank, c, v);
    UnfoldSane(g, c, v);
    PackUnpack(Whole(g, rank, v), tail);
    SurvivesExactlyWhenClean(Whole(g, rank, v));
  }

  /** Round trip on any heap: the bytes unpack to the finite value the guarded walk saw, decoded. */
  lemma GuardedRoundTrip(g: Graph, c: Counts, v: ZVal, tail: Bytes)
    requires SaneHeap(g) && SaneZ(v) && Inside(g, v) && c.Keys == g.Keys
    ensures Unpack(Encode(Unfold(g, c, v)) + tail) == Got(Decoded(Unfold(g, c, v)), tail)
  {
    hide Unpack, Encode, Unfold, Decoded, Sane;
    UnfoldSane(g, c, v);
    PackUnpack(Unfold(g, c, v), tail);
  }
}
