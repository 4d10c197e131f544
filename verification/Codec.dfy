/**
 What packing, sizing and unpacking a PHP value mean: the bytes a value is packed to, the size computed for it,
 the value a wire tree is unpacked to, and the round trip between them.
 */
module Codec {
  import opened ByteStrings
  import opened MsgPuck
  import opened PhpValues

  // ---- packing ----

  function EncodeLong(n: int): Bytes {
    if n >= 0 then EncodeUint(n) else EncodeInt(n)
  }

  function EncodeKey(k: Key): Bytes {
    match k
    case IntKey(n) => EncodeLong(n)
    case StrKey(s) => EncodeStr(s)
  }

  function Encode(p: PVal): Bytes
    decreases p, 1
  {
    match p
    case PNull => EncodeNil()
    case PBool(b) => EncodeBool(b)
    case PLong(n) => EncodeLong(n)
    case PDouble(bits) => EncodeDouble(bits)
    case PStr(s) => EncodeStr(s)
    case POther => EncodeNil()
    case PTable(es, next) =>
      if IsHash(KeysOf(es), next) then EncodeMap(|es|) + EncodePairs(p, |es|)
      else EncodeArray(|es|) + EncodeSlots(p, |es|)
  }

  /** The first `i` entries of a table, key and value in turn. */
  function EncodePairs(p: PVal, i: nat): Bytes
    requires p.PTable? && i <= |p.entries|
    decreases p, 0, i
  {
    if i == 0 then []
    else EncodePairs(p, i - 1) + EncodeKey(p.entries[i - 1].key) + Encode(p.entries[i - 1].val)
  }

  /** The values of a table under the integer keys 0 .. i-1, nil where there is none. */
  function EncodeSlots(p: PVal, i: nat): Bytes
    requires p.PTable?
    decreases p, 0, i
  {
    if i == 0 then [] else EncodeSlots(p, i - 1) + EncodeSlot(p, i - 1)
  }

  function EncodeSlot(p: PVal, k: nat): Bytes
    requires p.PTable?
    decreases p, 0, k
  {
    var j := IndexOf(KeysOf(p.entries), IntKey(k));
    if j < |p.entries| then Encode(p.entries[j].val) else EncodeNil()
  }

  // ---- sizing, a walk of its own ----

  function SizeofLong(n: int): (size: nat)
    ensures size == |EncodeLong(n)|
  {
    if n >= 0 then SizeofUint(n) else SizeofInt(n)
  }

  function SizeofKey(k: Key): nat {
    match k
    case IntKey(n) => SizeofLong(n)
    case StrKey(s) => SizeofStr(|s|)
  }

  function Sizeof(p: PVal): nat
    decreases p, 1
  {
    match p
    case PNull => 1
    case PBool(_) => 1
    case PLong(n) => SizeofLong(n)
    case PDouble(_) => 9
    case PStr(s) => SizeofStr(|s|)
    case POther => 1
    case PTable(es, next) =>
      if IsHash(KeysOf(es), next) then SizeofMap(|es|) + SizeofPairs(p, |es|)
      else SizeofArray(|es|) + SizeofSlots(p, |es|)
  }

  function SizeofPairs(p: PVal, i: nat): nat
    requires p.PTable? && i <= |p.entries|
    decreases p, 0, i
  {
    if i == 0 then 0 else SizeofPairs(p, i - 1) + SizeofKey(p.entries[i - 1].key) + Sizeof(p.entries[i - 1].val)
  }

  function SizeofSlots(p: PVal, i: nat): nat
    requires p.PTable?
    decreases p, 0, i
  {
    if i == 0 then 0 else SizeofSlots(p, i - 1) + SizeofSlot(p, i - 1)
  }

  function SizeofSlot(p: PVal, k: nat): nat
    requires p.PTable?
    decreases p, 0, k
  {
    var j := IndexOf(KeysOf(p.entries), IntKey(k));
    if j < |p.entries| then Sizeof(p.entries[j].val) else 1
  }

  /** Every double carries its eight bytes. */
  ghost predicate WideDoubles(p: PVal)
  {
    match p
    case PDouble(bits) => |bits| == 8
    case PTable(es, _) => forall i :: 0 <= i < |es| ==> WideDoubles(es[i].val)
    case _ => true
  }

  /** The size computed for a value is the number of bytes it is packed to. */
  lemma {:induction false} SizeofIsLength(p: PVal)
    requires WideDoubles(p)
    ensures Sizeof(p) == |Encode(p)|
    decreases p, 1
  {
    if p.PTable? {
      SizeofPairsIsLength(p, |p.entries|);
      SizeofSlotsIsLength(p, |p.entries|);
    }
  }

  lemma {:induction false} SizeofPairsIsLength(p: PVal, i: nat)
    requires p.PTable? && i <= |p.entries| && WideDoubles(p)
    ensures SizeofPairs(p, i) == |EncodePairs(p, i)|
    decreases p, 0, i
  {
    hide Encode, Sizeof, EncodeLong, SizeofLong, SizeofStr;
    if i > 0 {
      SizeofPairsIsLength(p, i - 1);
      SizeofIsLength(p.entries[i - 1].val);
    }
  }

  lemma {:induction false} SizeofSlotsIsLength(p: PVal, i: nat)
    requires p.PTable? && WideDoubles(p)
    ensures SizeofSlots(p, i) == |EncodeSlots(p, i)|
    decreases p, 0, i
  {
    hide Encode, Sizeof, IndexOf;
    if i > 0 {
      SizeofSlotsIsLength(p, i - 1);
      var j := IndexOf(KeysOf(p.entries), IntKey(i - 1));
      if j < |p.entries| {
        SizeofIsLength(p.entries[j].val);
      }
    }
  }
}
