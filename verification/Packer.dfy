/**
 The packer as it runs on the heap: it enters nested tables through the recursion counter, which it raises before and
 lowers after, and it gives every counter back as it found it.
 */
module Packer {
  import opened ByteStrings
  import opened MsgPuck
  import opened PhpValues
  import opened Codec
  import opened ZendHeap
  import opened HeapPaths
  import opened SmartStrings

  method PackNil(str: SmartString)
    requires str.Valid()
    modifies str, str.c
    ensures str.Valid() && (str.c == old(str.c) || fresh(str.c))
    ensures str.Contents() == old(str.Contents()) + EncodeNil()
  {
    str.Ensure(1);
    str.Append(EncodeNil());
  }

  method PackLong(str: SmartString, val: int)
    requires str.Valid()
    modifies str, str.c
    ensures str.Valid() && (str.c == old(str.c) || fresh(str.c))
    ensures str.Contents() == old(str.Contents()) + EncodeLong(val)
  {
    hide EncodeUint, EncodeInt, SizeofUint, SizeofInt;
    if val >= 0 {
      str.Ensure(SizeofUint(val));
      str.Append(EncodeUint(val));
    } else {
      str.Ensure(SizeofInt(val));
      str.Append(EncodeInt(val));
    }
  }

  method PackBool(str: SmartString, val: bool)
    requires str.Valid()
    modifies str, str.c
    ensures str.Valid() && (str.c == old(str.c) || fresh(str.c))
    ensures str.Contents() == old(str.Contents()) + EncodeBool(val)
  {
    str.Ensure(1);
    str.Append(EncodeBool(val));
  }

  method PackDouble(str: SmartString, bits: Bytes)
    requires str.Valid() && |bits| == 8
    modifies str, str.c
    ensures str.Valid() && (str.c == old(str.c) || fresh(str.c))
    ensures str.Contents() == old(str.Contents()) + EncodeDouble(bits)
  {
    str.Ensure(9);
    str.Append(EncodeDouble(bits));
  }

  method PackString(str: SmartString, s: Bytes)
    requires str.Valid()
    modifies str, str.c
    ensures str.Valid() && (str.c == old(str.c) || fresh(str.c))
    ensures str.Contents() == old(str.Contents()) + EncodeStr(s)
  {
    hide EncodeStr;
    str.Ensure(SizeofStr(|s|));
    str.Append(EncodeStr(s));
  }

  method PackMapHead(str: SmartString, n: nat)
    requires str.Valid()
    modifies str, str.c
    ensures str.Valid() && (str.c == old(str.c) || fresh(str.c))
    ensures str.Contents() == old(str.Contents()) + EncodeMap(n)
  {
    hide EncodeMap, SizeofMap;
    str.Ensure(SizeofMap(n));
    str.Append(EncodeMap(n));
  }

  method PackArrayHead(str: SmartString, n: nat)
    requires str.Valid()
    modifies str, str.c
    ensures str.Valid() && (str.c == old(str.c) || fresh(str.c))
    ensures str.Contents() == old(str.Contents()) + EncodeArray(n)
  {
    hide EncodeArray, SizeofArray;
    str.Ensure(SizeofArray(n));
    str.Append(EncodeArray(n));
  }

  method PackKey(str: SmartString, k: Key)
    requires str.Valid()
    modifies str, str.c
    ensures str.Valid() && (str.c == old(str.c) || fresh(str.c))
    ensures str.Contents() == old(str.Contents()) + EncodeKey(k)
  {
    hide EncodeLong, EncodeStr;
    match k {
      case IntKey(n) => PackLong(str, n);
      case StrKey(s) => PackString(str, s);
    }
  }

  /** The list/map test, read off a heap table. */
  method IsHashTable(ht: HashTable) returns (hash: bool)
    ensures hash == IsHash(KeysOf(ht.entries), ht.next)
  {
    var count := |ht.entries|;
    if count != ht.next {
      return true;
    }
    var i := 0;
    while i < count
      invariant 0 <= i <= count
      invariant forall j :: 0 <= j < i ==> !KeysOf(ht.entries)[j].StrKey?
    {
      if ht.entries[i].key.StrKey? {
        assert KeysOf(ht.entries)[i].StrKey?;
        return true;
      }
      i := i + 1;
    }
    hash := false;
  }

  /** The heap holds doubles of eight bytes. */
  ghost predicate HeapDoubles(g: Graph, v: ZVal) {
    && (v.ZDouble? ==> |v.bits| == 8)
    && forall t, i :: t in g && 0 <= i < |g[t].entries| && g[t].entries[i].val.ZDouble? ==>
      |g[t].entries[i].val.bits| == 8
  }

  lemma Regroup(a: Bytes, b: Bytes, c: Bytes, d: Bytes)
    ensures a + (b + c) + d == a + (b + (c + d))
  {
  }

  /** A heap table as the snapshot has it, and the unfolded table entry by entry. */
  lemma TableOf(g: Graph, c: Counts, ht: HashTable)
    requires Matches(g, c) && ht in g
    ensures ht.entries == g[ht].entries && Closed(g) && c.Keys == g.Keys
    ensures forall i :: 0 <= i < |ht.entries| ==> Inside(g, ht.entries[i].val)
    ensures HeapDoubles(g, ZArr(ht)) ==> forall i :: 0 <= i < |ht.entries| ==> HeapDoubles(g, ht.entries[i].val)
    ensures var p := Unfold(g, c, ZArr(ht));
      && p.PTable? && |p.entries| == |ht.entries| && KeysOf(p.entries) == KeysOf(ht.entries)
      && forall i :: 0 <= i < |ht.entries| ==>
           p.entries[i] == Entry(ht.entries[i].key, UnfoldSlot(g, c, ht.entries[i].val))
  {
    hide UnfoldSlot, Budget;
    UnfoldKeys(g, c, ht);
  }

  lemma AppendedMirrors(g: Graph, c: Counts, v: ZVal, before: Bytes, after: Bytes)
    requires Closed(g) && c.Keys == g.Keys && Inside(g, v) && after == before + Encode(Unfold(g, c, v))
    ensures SaneHeap(g) && SaneZ(v) ==> PackedAs(g, c, v, after[|before|..])
  {
    hide PackedAs, SaneHeap, SaneZ, Encode, Unfold;
    if SaneHeap(g) && SaneZ(v) {
      EncodedMirrors(g, c, v);
      assert after[|before|..] == Encode(Unfold(g, c, v));
    }
  }

  /**
   Appends the packed form of what the guarded walk from `v` sees, for any heap, and restores every counter. What is
   appended unpacks to a value that agrees with the heap at the end of every path that is not cut before.
   */
  method Pack(str: SmartString, v: ZVal, ghost g: Graph, ghost c: Counts)
    requires str.Valid() && Matches(g, c) && Inside(g, v) && HeapDoubles(g, v)
    modifies str, str.c, g.Keys`applyCount
    ensures str.Valid() && (str.c == old(str.c) || fresh(str.c))
    ensures Matches(g, c)
    ensures str.Contents() == old(str.Contents()) + Encode(Unfold(g, c, v))
    ensures SaneHeap(g) && SaneZ(v) ==> PackedAs(g, c, v, str.Contents()[|old(str.Contents())|..])
    decreases Budget(g, c), if v.ZArr? then 3 else 0
  {
    hide PackedAs, SaneHeap, SaneZ, EncodeLong, EncodeStr, EncodeDouble, EncodeBool, EncodeNil, IsHash, EncodePairs,
      EncodeSlots, UnfoldEntries, Budget, EncodeMap, EncodeArray;
    ghost var before := str.Contents();
    match v {
      case ZNull => PackNil(str);
      case ZBool(b) => PackBool(str, b);
      case ZLong(n) => PackLong(str, n);
      case ZDouble(bits) => PackDouble(str, bits);
      case ZStr(s) => PackString(str, s);
      case ZOther => PackNil(str);
      case ZArr(ht) =>
        UnfoldKeys(g, c, ht);
        var hash := IsHashTable(ht);
        if hash {
          PackHashRecursively(str, ht, g, c);
        } else {
          PackArrayRecursively(str, ht, g, c);
        }
    }
    AppendedMirrors(g, c, v, before, str.Contents());
  }

  method PackArrayRecursively(str: SmartString, ht: HashTable, ghost g: Graph, ghost c: Counts)
    requires str.Valid() && Matches(g, c) && ht in g && HeapDoubles(g, ZArr(ht))
    modifies str, str.c, g.Keys`applyCount
    ensures str.Valid() && (str.c == old(str.c) || fresh(str.c))
    ensures Matches(g, c)
    ensures var p := Unfold(g, c, ZArr(ht));
      str.Contents() == old(str.Contents()) + (EncodeArray(|p.entries|) + EncodeSlots(p, |p.entries|))
    decreases Budget(g, c), 2
  {
    hide EncodeArray, EncodeSlot, Unfold, UnfoldSlot, Closed, Budget, Matches, HeapDoubles, KeysOf;
    TableOf(g, c, ht);
    var n := |ht.entries|;
    ghost var p := Unfold(g, c, ZArr(ht));
    UnfoldKeys(g, c, ht);
    ghost var before := str.Contents();
    PackArrayHead(str, n);
    var keyIndex := 0;
    while keyIndex < n
      invariant 0 <= keyIndex <= n
      invariant str.Valid() && (str.c == old(str.c) || fresh(str.c))
      invariant Matches(g, c)
      invariant str.Contents() == before + (EncodeArray(n) + EncodeSlots(p, keyIndex))
    {
      ghost var written := EncodeSlots(p, keyIndex);
      PackIndex(str, ht, keyIndex, g, c);
      Regroup(before, EncodeArray(n), written, EncodeSlot(p, keyIndex));
      keyIndex := keyIndex + 1;
    }
  }

  /** The value under one integer key, nil if the key is missing. */
  method PackIndex(str: SmartString, ht: HashTable, key: nat, ghost g: Graph, ghost c: Counts)
    requires str.Valid() && Matches(g, c) && ht in g && HeapDoubles(g, ZArr(ht))
    modifies str, str.c, g.Keys`applyCount
    ensures str.Valid() && (str.c == old(str.c) || fresh(str.c))
    ensures Matches(g, c)
    ensures str.Contents() == old(str.Contents()) + EncodeSlot(Unfold(g, c, ZArr(ht)), key)
    decreases Budget(g, c), 1, 1
  {
    hide EncodeNil, Encode, Unfold, UnfoldSlot, IndexOf, Closed, Budget, Matches, HeapDoubles, KeysOf;
    TableOf(g, c, ht);
    var j := IndexOf(KeysOf(ht.entries), IntKey(key));
    if j >= |ht.entries| {
      PackNil(str);
    } else {
      PackSlot(str, ht.entries[j].val, g, c);
    }
  }

  method PackHashRecursively(str: SmartString, ht: HashTable, ghost g: Graph, ghost c: Counts)
    requires str.Valid() && Matches(g, c) && ht in g && HeapDoubles(g, ZArr(ht))
    modifies str, str.c, g.Keys`applyCount
    ensures str.Valid() && (str.c == old(str.c) || fresh(str.c))
    ensures Matches(g, c)
    ensures var p := Unfold(g, c, ZArr(ht));
      str.Contents() == old(str.Contents()) + (EncodeMap(|p.entries|) + EncodePairs(p, |p.entries|))
    decreases Budget(g, c), 2
  {
    hide EncodeMap, EncodeKey, Encode, Unfold, UnfoldSlot, Closed, Budget, Matches, HeapDoubles, KeysOf;
    TableOf(g, c, ht);
    var n := |ht.entries|;
    ghost var p := Unfold(g, c, ZArr(ht));
    UnfoldKeys(g, c, ht);
    ghost var before := str.Contents();
    PackMapHead(str, n);
    var pos := 0;
    while pos < n
      invariant 0 <= pos <= n
      invariant str.Valid() && (str.c == old(str.c) || fresh(str.c))
      invariant Matches(g, c)
      invariant str.Contents() == before + (EncodeMap(n) + EncodePairs(p, pos))
    {
      TableOf(g, c, ht);
      ghost var written, key, val := EncodePairs(p, pos), EncodeKey(p.entries[pos].key), Encode(p.entries[pos].val);
      PackKey(str, ht.entries[pos].key);
      TableOf(g, c, ht);
      PackSlot(str, ht.entries[pos].val, g, c);
      pos := pos + 1;
      Regroup(before, EncodeMap(n), written + key, val);
      Regroup(before, EncodeMap(n), written, key);
    }
  }

  lemma EncodeOfNull()
    ensures Encode(PNull) == EncodeNil()
  {
  }

  /** One nested value: nil if the guard bars it, otherwise packed with its counter raised meanwhile. */
  method PackSlot(str: SmartString, v: ZVal, ghost g: Graph, ghost c: Counts)
    requires str.Valid() && Matches(g, c) && Inside(g, v) && HeapDoubles(g, v)
    modifies str, str.c, g.Keys`applyCount
    ensures str.Valid() && (str.c == old(str.c) || fresh(str.c))
    ensures Matches(g, c)
    ensures str.Contents() == old(str.Contents()) + Encode(UnfoldSlot(g, c, v))
    decreases Budget(g, c), 1, 0
  {
    hide Encode, EncodeNil, Unfold, Closed, Budget, HeapDoubles, PackedAs, SaneHeap, SaneZ;
    if v.ZArr? && v.ht.applyCount > 1 {
      PackNil(str);
      EncodeOfNull();
    } else if v.ZArr? {
      EnterSpends(g, c, v.ht);
      v.ht.applyCount := v.ht.applyCount + 1;
      Pack(str, v, g, Enter(c, v.ht));
      v.ht.applyCount := v.ht.applyCount - 1;
    } else {
      Pack(str, v, g, c);
    }
  }
}
