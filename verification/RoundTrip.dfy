/** Unpacking a wire tree into a PHP value, and what is left of a value after it was packed and unpacked. */
module RoundTrip {
  import opened ByteStrings
  import opened MsgPuck
  import opened Wire
  import opened PhpValues
  import opened Codec

  /** The outcome for one element: a value, or the two things the unpacker refuses. */
  datatype Unpacked = Value(v: PVal) | BadKey | ExtFound

  function Store(p: PVal, k: Key, v: PVal): (r: PVal)
    requires p.PTable?
    ensures r.PTable?
  {
    PTable(Put(p.entries, k, v), NextAfter(p.next, k))
  }

  /** An unsigned 64-bit number kept in a signed `long`. */
  function Wrap64(n: int): int {
    (n + TWO_63) % TWO_64 - TWO_63
  }

  function FromTree(t: Tree): (u: Unpacked)
    decreases t, 1
  {
    match t.head.kind
    case Nil => Value(PNull)
    case Uint => Value(PLong(Wrap64(t.head.num)))
    case Int => Value(PLong(t.head.num))
    case Str => Value(PStr(t.head.payload))
    case Bin => Value(PStr(t.head.payload))
    case Bool => Value(PBool(t.head.num == 1))
    case Float => Value(PDouble(t.head.payload))
    case Double => Value(PDouble(t.head.payload))
    case Ext => ExtFound
    case Array => FromItems(t, |t.items|)
    case Map => FromPairs(t, |t.items| / 2)
  }

  /** The table holding the first `i` elements of an array; the first failure wins. */
  function FromItems(t: Tree, i: nat): (u: Unpacked)
    requires i <= |t.items|
    ensures u.Value? ==> u.v.PTable? && |u.v.entries| == i
    decreases t, 0, i
  {
    if i == 0 then Value(PTable([], 0))
    else
      match FromItems(t, i - 1)
      case Value(p) =>
        (match FromTree(t.items[i - 1])
         case Value(v) => Value(PTable(p.entries + [Entry(IntKey(p.next), v)], p.next + 1))
         case bad => bad)
      case bad => bad
  }

  /** Stores one unpacked pair; only integers and strings can be keys. */
  function StorePair(p: PVal, key: Unpacked, val: Unpacked): (u: Unpacked)
    requires p.PTable?
    ensures u.Value? ==> u.v.PTable?
  {
    if !key.Value? then key
    else if !val.Value? then val
    else
      match key.v
      case PLong(n) => Value(Store(p, IntKey(n), val.v))
      case PStr(s) => Value(Store(p, SymKey(s), val.v))
      case _ => BadKey
  }

  /** The table filled from the first `i` pairs of a map; the first failure wins. */
  function FromPairs(t: Tree, i: nat): (u: Unpacked)
    requires 2 * i <= |t.items|
    ensures u.Value? ==> u.v.PTable?
    decreases t, 0, i
  {
    if i == 0 then Value(PTable([], 0))
    else
      match FromPairs(t, i - 1)
      case Value(p) => StorePair(p, FromTree(t.items[2 * i - 2]), FromTree(t.items[2 * i - 1]))
      case bad => bad
  }

  /** The outcome of unpacking at a cursor: `Overrun` is an element that does not end inside the buffer. */
  datatype UnpackResult = Got(v: PVal, rest: Bytes) | Failed(why: Unpacked) | Overrun

  function Unpack(s: Bytes): UnpackResult {
    match Parse(s)
    case None => Overrun
    case Some((t, rest)) =>
      var u := FromTree(t);
      if u.Value? then Got(u.v, rest) else Failed(u)
  }

  // ---- the wire tree of a packed value ----

  ghost predicate SaneKey(k: Key) {
    match k
    case IntKey(n) => -TWO_63 <= n < TWO_63
    case StrKey(s) => |s| < TWO_32
  }

  /** The ranges the engine and the wire format impose on a value. */
  ghost predicate Sane(p: PVal) {
    match p
    case PLong(n) => -TWO_63 <= n < TWO_63
    case PDouble(bits) => |bits| == 8
    case PStr(s) => |s| < TWO_32
    case PTable(es, next) =>
      TableOk(KeysOf(es), next) && forall i :: 0 <= i < |es| ==> SaneKey(es[i].key) && Sane(es[i].val)
    case _ => true
  }

  function Leaf(kind: Kind, num: int, payload: Bytes): Tree {
    Tree(Token(kind, num, payload), [])
  }

  function LongTree(n: int): Tree {
    Leaf(if n >= 0 then Uint else Int, n, [])
  }

  function KeyTree(k: Key): Tree {
    match k
    case IntKey(n) => LongTree(n)
    case StrKey(s) => Leaf(Str, 0, s)
  }

  function WireTree(p: PVal): Tree
    decreases p, 1
  {
    match p
    case PNull => Leaf(Nil, 0, [])
    case PBool(b) => Leaf(Bool, if b then 1 else 0, [])
    case PLong(n) => LongTree(n)
    case PDouble(bits) => Leaf(Double, 0, bits)
    case PStr(s) => Leaf(Str, 0, s)
    case POther => Leaf(Nil, 0, [])
    case PTable(es, next) =>
      if IsHash(KeysOf(es), next) then Tree(Token(Map, |es|, []), WirePairs(p, |es|))
      else Tree(Token(Array, |es|, []), WireSlots(p, |es|))
  }

  function WirePairs(p: PVal, i: nat): (ts: seq<Tree>)
    requires p.PTable? && i <= |p.entries|
    ensures |ts| == 2 * i
    decreases p, 0, i
  {
    if i == 0 then [] else WirePairs(p, i - 1) + [KeyTree(p.entries[i - 1].key), WireTree(p.entries[i - 1].val)]
  }

  function WireSlots(p: PVal, i: nat): (ts: seq<Tree>)
    requires p.PTable?
    ensures |ts| == i
    decreases p, 0, i
  {
    if i == 0 then [] else WireSlots(p, i - 1) + [WireSlot(p, i - 1)]
  }

  function WireSlot(p: PVal, k: nat): Tree
    requires p.PTable?
    decreases p, 0, k
  {
    var j := IndexOf(KeysOf(p.entries), IntKey(k));
    if j < |p.entries| then WireTree(p.entries[j].val) else Leaf(Nil, 0, [])
  }

  lemma {:induction false} ParseManyAdd(s: Bytes, a: nat, b: nat)
    requires ParseMany(s, a).Some? && ParseMany(ParseMany(s, a).value.1, b).Some?
    ensures ParseMany(s, a + b) == Some((ParseMany(s, a).value.0 + ParseMany(ParseMany(s, a).value.1, b).value.0,
                                         ParseMany(ParseMany(s, a).value.1, b).value.1))
    decreases a
  {
    hide Parse;
    if a > 0 {
      var (t, rest) := Parse(s).value;
      ParseManyAdd(rest, a - 1, b);
      var (ts, rest') := ParseMany(rest, a - 1).value;
      assert ([t] + ts) + ParseMany(rest', b).value.0 == [t] + (ts + ParseMany(rest', b).value.0);
    } else {
      assert [] + ParseMany(s, b).value.0 == ParseMany(s, b).value.0;
    }
  }

  lemma ParseManyOne(s: Bytes)
    requires Parse(s).Some?
    ensures ParseMany(s, 1) == Some(([Parse(s).value.0], Parse(s).value.1))
  {
    hide Parse;
    var (t, rest) := Parse(s).value;
    assert ParseMany(rest, 0) == Some(([], rest));
    assert [t] + [] == [t];
  }

  lemma ParseLeaf(s: Bytes, kind: Kind, num: int, payload: Bytes, tail: Bytes)
    requires ReadToken(s) == Some((Token(kind, num, payload), tail))
    requires Token(kind, num, payload).Children() == 0
    ensures Parse(s) == Some((Leaf(kind, num, payload), tail))
  {
    hide ReadToken;
    assert ParseMany(tail, 0) == Some(([], tail));
  }

  lemma ParseLong(n: int, tail: Bytes)
    requires -TWO_63 <= n < TWO_63
    ensures Parse(EncodeLong(n) + tail) == Some((LongTree(n), tail))
  {
    hide ReadToken, EncodeUint, EncodeInt, Parse;
    if n >= 0 {
      ReadUint(n, tail);
      ParseLeaf(EncodeLong(n) + tail, Uint, n, [], tail);
    } else {
      ReadInt(n, tail);
      ParseLeaf(EncodeLong(n) + tail, Int, n, [], tail);
    }
  }

  lemma ParseStr(s: Bytes, tail: Bytes)
    requires |s| < TWO_32
    ensures Parse(EncodeStr(s) + tail) == Some((Leaf(Str, 0, s), tail))
  {
    hide ReadToken, EncodeStr, Parse;
    ReadStr(s, tail);
    ParseLeaf(EncodeStr(s) + tail, Str, 0, s, tail);
  }

  lemma ParseKey(k: Key, tail: Bytes)
    requires SaneKey(k)
    ensures Parse(EncodeKey(k) + tail) == Some((KeyTree(k), tail))
  {
    hide EncodeLong, EncodeStr, Parse;
    match k
    case IntKey(n) => ParseLong(n, tail);
    case StrKey(s) => ParseStr(s, tail);
  }

  lemma ParseNil(tail: Bytes)
    ensures Parse(EncodeNil() + tail) == Some((Leaf(Nil, 0, []), tail))
  {
    hide ReadToken, Parse, EncodeNil;
    ReadNil(tail);
    ParseLeaf(EncodeNil() + tail, Nil, 0, [], tail);
  }

  lemma ParseScalar(p: PVal, tail: Bytes)
    requires Sane(p) && !p.PTable?
    ensures Parse(Encode(p) + tail) == Some((WireTree(p), tail))
  {
    hide ReadToken, EncodeStr, EncodeLong, EncodeDouble, EncodeBool, EncodeNil, LongTree, Parse;
    match p {
      case PNull => ParseNil(tail);
      case POther => ParseNil(tail);
      case PBool(b) =>
        ReadBool(b, tail);
        ParseLeaf(Encode(p) + tail, Bool, if b then 1 else 0, [], tail);
      case PLong(n) => ParseLong(n, tail);
      case PDouble(bits) =>
        ReadDouble(bits, tail);
        ParseLeaf(Encode(p) + tail, Double, 0, bits, tail);
      case PStr(s) => ParseStr(s, tail);
    }
  }

  lemma ParseTwo(s: Bytes, mid: Bytes, a: Tree, b: Tree, tail: Bytes)
    requires Parse(s) == Some((a, mid)) && Parse(mid) == Some((b, tail))
    ensures ParseMany(s, 2) == Some(([a, b], tail))
  {
    hide Parse;
    ParseManyOne(mid);
    assert [a] + [b] == [a, b];
  }

  /** Packed values are self-delimiting: what follows them is left untouched. */
  lemma {:induction false} ParseEncoded(p: PVal, tail: Bytes)
    requires Sane(p)
    ensures Parse(Encode(p) + tail) == Some((WireTree(p), tail))
    decreases p, 1
  {
    hide ReadToken, EncodeMap, EncodeArray, IsHash, EncodePairs, EncodeSlots, WirePairs, WireSlots;
    if !p.PTable? {
      ParseScalar(p, tail);
    } else if IsHash(KeysOf(p.entries), p.next) {
      var n := |p.entries|;
      ParsePairs(p, n, tail);
      ReadMap(n, EncodePairs(p, n) + tail);
      assert Encode(p) + tail == EncodeMap(n) + (EncodePairs(p, n) + tail);
    } else {
      var n := |p.entries|;
      ParseSlots(p, n, tail);
      ReadArray(n, EncodeSlots(p, n) + tail);
      assert Encode(p) + tail == EncodeArray(n) + (EncodeSlots(p, n) + tail);
    }
  }

  lemma {:induction false} ParsePairs(p: PVal, i: nat, tail: Bytes)
    requires p.PTable? && Sane(p) && i <= |p.entries|
    ensures ParseMany(EncodePairs(p, i) + tail, 2 * i) == Some((WirePairs(p, i), tail))
    decreases p, 0, i
  {
    hide Encode, EncodeKey, Parse, KeyTree, WireTree, IsHash;
    if i == 0 {
      assert [] + tail == tail;
    } else {
      var e := p.entries[i - 1];
      var more := Encode(e.val) + tail;
      ParsePairs(p, i - 1, EncodeKey(e.key) + more);
      ParseKey(e.key, more);
      ParseEncoded(e.val, tail);
      ParseTwo(EncodeKey(e.key) + more, more, KeyTree(e.key), WireTree(e.val), tail);
      assert EncodePairs(p, i) + tail == EncodePairs(p, i - 1) + (EncodeKey(e.key) + more);
      ParseManyAdd(EncodePairs(p, i) + tail, 2 * i - 2, 2);
    }
  }

  lemma {:induction false} ParseSlots(p: PVal, i: nat, tail: Bytes)
    requires p.PTable? && Sane(p)
    ensures ParseMany(EncodeSlots(p, i) + tail, i) == Some((WireSlots(p, i), tail))
    decreases p, 0, i, 1
  {
    hide Encode, Parse, WireTree, IsHash, EncodeSlot, WireSlot;
    if i == 0 {
      assert [] + tail == tail;
    } else {
      var slot := EncodeSlot(p, i - 1);
      ParseSlot(p, i - 1, tail);
      ParseSlots(p, i - 1, slot + tail);
      ParseManyOne(slot + tail);
      assert EncodeSlots(p, i) + tail == EncodeSlots(p, i - 1) + (slot + tail);
      ParseManyAdd(EncodeSlots(p, i) + tail, i - 1, 1);
    }
  }

  lemma ParseSlot(p: PVal, k: nat, tail: Bytes)
    requires p.PTable? && Sane(p)
    ensures Parse(EncodeSlot(p, k) + tail) == Some((WireSlot(p, k), tail))
    decreases p, 0, k, 0
  {
    hide Encode, Parse, WireTree, IsHash, EncodeNil, IndexOf;
    var j := IndexOf(KeysOf(p.entries), IntKey(k));
    if j < |p.entries| {
      ParseEncoded(p.entries[j].val, tail);
    } else {
      ParseNil(tail);
    }
  }

  // ---- what comes back ----

  function DecodedKey(k: Key): Key {
    match k
    case IntKey(n) => k
    case StrKey(s) => SymKey(s)
  }

  /** The value that unpacking gives back for a packed value. */
  function Decoded(p: PVal): PVal
    decreases p, 1
  {
    match p
    case POther => PNull
    case PTable(es, next) => if IsHash(KeysOf(es), next) then DecodedPairs(p, |es|) else DecodedSlots(p, |es|)
    case _ => p
  }

  function DecodedPairs(p: PVal, i: nat): (r: PVal)
    requires p.PTable? && i <= |p.entries|
    ensures r.PTable?
    decreases p, 0, i
  {
    if i == 0 then PTable([], 0)
    else Store(DecodedPairs(p, i - 1), DecodedKey(p.entries[i - 1].key), Decoded(p.entries[i - 1].val))
  }

  function DecodedSlots(p: PVal, i: nat): (r: PVal)
    requires p.PTable?
    ensures r.PTable? && r.next == i && |r.entries| == i
    ensures forall k :: 0 <= k < i ==> r.entries[k].key == IntKey(k)
    decreases p, 0, i
  {
    if i == 0 then PTable([], 0)
    else PTable(DecodedSlots(p, i - 1).entries + [Entry(IntKey(i - 1), DecodedSlot(p, i - 1))], i)
  }

  function DecodedSlot(p: PVal, k: nat): PVal
    requires p.PTable?
    decreases p, 0, k
  {
    var j := IndexOf(KeysOf(p.entries), IntKey(k));
    if j < |p.entries| then Decoded(p.entries[j].val) else PNull
  }

  lemma FromScalar(p: PVal)
    requires Sane(p) && !p.PTable?
    ensures FromTree(WireTree(p)) == Value(Decoded(p))
  {
    if p.PLong? {
      assert FromTree(LongTree(p.n)) == Value(PLong(p.n));
    }
  }

  lemma FromNilLeaf()
    ensures FromTree(Leaf(Nil, 0, [])) == Value(PNull)
  {
  }

  lemma {:induction false} FromWireTree(p: PVal)
    requires Sane(p)
    ensures FromTree(WireTree(p)) == Value(Decoded(p))
    decreases p, 1
  {
    hide IsHash, FromPairs, FromItems, WirePairs, WireSlots, DecodedPairs, DecodedSlots;
    if !p.PTable? {
      FromScalar(p);
    } else if IsHash(KeysOf(p.entries), p.next) {
      FromWirePairs(p, |p.entries|, WireTree(p));
    } else {
      FromWireSlots(p, |p.entries|, WireTree(p));
    }
  }

  lemma StoreKey(p: PVal, k: Key, v: PVal)
    requires p.PTable? && SaneKey(k)
    ensures StorePair(p, FromTree(KeyTree(k)), Value(v)) == Value(Store(p, DecodedKey(k), v))
  {
    hide Store, SymKey;
    match k
    case IntKey(n) => assert FromTree(LongTree(n)) == Value(PLong(n));
    case StrKey(s) =>
  }

  lemma {:induction false} FromWirePairs(p: PVal, i: nat, t: Tree)
    requires p.PTable? && Sane(p) && i <= |p.entries|
    requires 2 * i <= |t.items| && t.items[..2 * i] == WirePairs(p, i)
    ensures FromPairs(t, i) == Value(DecodedPairs(p, i))
    decreases p, 0, i
  {
    hide IsHash, Store, StorePair, DecodedKey, Decoded, FromTree, WireTree, KeyTree;
    if i > 0 {
      var e := p.entries[i - 1];
      assert t.items[..2 * i - 2] == t.items[..2 * i][..2 * i - 2] == WirePairs(p, i - 1);
      assert t.items[2 * i - 2] == WirePairs(p, i)[2 * i - 2] == KeyTree(e.key);
      assert t.items[2 * i - 1] == WirePairs(p, i)[2 * i - 1] == WireTree(e.val);
      FromWirePairs(p, i - 1, t);
      FromWireTree(e.val);
      StoreKey(DecodedPairs(p, i - 1), e.key, Decoded(e.val));
    }
  }

  lemma {:induction false} FromWireSlots(p: PVal, i: nat, t: Tree)
    requires p.PTable? && Sane(p)
    requires i <= |t.items| && t.items[..i] == WireSlots(p, i)
    ensures FromItems(t, i) == Value(DecodedSlots(p, i))
    decreases p, 0, i, 1
  {
    hide DecodedSlot, WireSlot, FromTree;
    if i > 0 {
      assert t.items[..i - 1] == t.items[..i][..i - 1] == WireSlots(p, i - 1);
      assert t.items[i - 1] == WireSlots(p, i)[i - 1];
      FromWireSlots(p, i - 1, t);
      FromWireSlot(p, i - 1);
    }
  }

  lemma FromWireSlot(p: PVal, k: nat)
    requires p.PTable? && Sane(p)
    ensures FromTree(WireSlot(p, k)) == Value(DecodedSlot(p, k))
    decreases p, 0, k, 0
  {
    hide IsHash, IndexOf, Decoded, WireTree, FromTree;
    var j := IndexOf(KeysOf(p.entries), IntKey(k));
    if j < |p.entries| {
      FromWireTree(p.entries[j].val);
    } else {
      FromNilLeaf();
    }
  }

  /**
   Unpacking a packed value, whatever bytes follow it, gives the decoded value and leaves the cursor at those bytes.
   */
  lemma PackUnpack(p: PVal, tail: Bytes)
    requires Sane(p)
    ensures Unpack(Encode(p) + tail) == Got(Decoded(p), tail)
  {
    hide Encode, Parse, FromTree;
    ParseEncoded(p, tail);
    FromWireTree(p);
  }

  // ---- exactly which values survive ----

  ghost predicate CleanKey(k: Key) {
    k.StrKey? ==> !PrintsLong(k.s)
  }

  lemma DecodedKeyKeeps(k: Key)
    ensures DecodedKey(k) == k <==> CleanKey(k)
  {
    hide PrintsLong;
    if k.StrKey? {
      SymKeyExact(k.s);
    }
  }

  /**
   No object or resource, no string key that is a 64-bit integer as PHP prints it, and no negative key in a table that
   passes the list test, at any depth.
   */
  ghost predicate Clean(p: PVal) {
    match p
    case POther => false
    case PTable(es, next) =>
      && (forall i :: 0 <= i < |es| ==> CleanKey(es[i].key) && Clean(es[i].val))
      && (IsHash(KeysOf(es), next) || NonNegative(KeysOf(es)))
    case _ => true
  }

  ghost predicate CleanKeys(p: PVal, i: nat)
    requires p.PTable? && i <= |p.entries|
  {
    forall j :: 0 <= j < i ==> DecodedKey(p.entries[j].key) == p.entries[j].key
  }

  lemma DecodedKeyStable(k: Key)
    ensures DecodedKey(DecodedKey(k)) == DecodedKey(k)
  {
    hide CanonicalDecimal;
  }

  /** No key of a decoded map-form table is a string that PHP reads as an integer. */
  lemma {:induction false} DecodedPairsKeys(p: PVal, i: nat)
    requires p.PTable? && i <= |p.entries|
    ensures Distinct(KeysOf(DecodedPairs(p, i).entries))
    ensures forall k :: k in KeysOf(DecodedPairs(p, i).entries) ==> DecodedKey(k) == k
    decreases i
  {
    hide Decoded, DecodedKey, NextAfter, Put, IndexOf, KeysOf;
    if i > 0 {
      DecodedPairsKeys(p, i - 1);
      DecodedKeyStable(p.entries[i - 1].key);
    }
  }

  /** With clean keys a decoded map-form table has the packed keys in their order, each with its decoded value. */
  lemma {:induction false} DecodedPairsInOrder(p: PVal, i: nat)
    requires p.PTable? && Distinct(KeysOf(p.entries)) && i <= |p.entries| && CleanKeys(p, i)
    ensures |DecodedPairs(p, i).entries| == i
    ensures forall j :: 0 <= j < i ==>
      DecodedPairs(p, i).entries[j] == Entry(p.entries[j].key, Decoded(p.entries[j].val))
    decreases i
  {
    hide Decoded, DecodedKey, NextAfter, Put, IndexOf, KeysOf;
    if i > 0 {
      DecodedPairsInOrder(p, i - 1);
      var k, prev := p.entries[i - 1].key, DecodedPairs(p, i - 1);
      assert k !in KeysOf(prev.entries) by {
        assert forall j :: 0 <= j < i - 1 ==> KeysOf(p.entries)[j] != KeysOf(p.entries)[i - 1];
      }
    }
  }

  lemma {:induction false} DecodedSlotAt(p: PVal, i: nat, k: nat)
    requires p.PTable? && k < i
    ensures DecodedSlots(p, i).entries[k].val == DecodedSlot(p, k)
    decreases i
  {
    hide DecodedSlot;
    if k < i - 1 {
      DecodedSlotAt(p, i - 1, k);
    }
  }

  function FieldContent(p: PVal, k: Key): Content
    requires p.PTable? && k in KeysOf(p.entries)
  {
    ContentOf(p.entries[IndexOf(KeysOf(p.entries), k)].val)
  }

  /** A table means the map from its keys to what the values under them mean. */
  lemma ContentOfTable(p: PVal)
    requires p.PTable?
    ensures ContentOf(p).CTable?
    ensures forall k :: k in ContentOf(p).m <==> k in KeysOf(p.entries)
    ensures forall k :: k in KeysOf(p.entries) ==> ContentOf(p).m[k] == FieldContent(p, k)
  {
    hide IndexOf, KeysOf;
  }

  lemma SameContent(p: PVal, q: PVal)
    requires p.PTable? && q.PTable?
    requires forall k :: k in KeysOf(p.entries) <==> k in KeysOf(q.entries)
    requires forall k :: k in KeysOf(p.entries) ==> FieldContent(p, k) == FieldContent(q, k)
    ensures ContentOf(p) == ContentOf(q)
  {
    hide ContentOf, FieldContent, IndexOf, KeysOf;
    ContentOfTable(p);
    ContentOfTable(q);
    assert ContentOf(p).m == ContentOf(q).m;
  }

  lemma IndexOfKey(es: seq<Entry<PVal>>, j: nat)
    requires Distinct(KeysOf(es)) && j < |es|
    ensures IndexOf(KeysOf(es), es[j].key) == j
  {
    assert KeysOf(es)[j] in KeysOf(es);
  }

  lemma FieldAt(p: PVal, j: nat)
    requires p.PTable? && Distinct(KeysOf(p.entries)) && j < |p.entries|
    ensures p.entries[j].key in KeysOf(p.entries)
    ensures FieldContent(p, p.entries[j].key) == ContentOf(p.entries[j].val)
  {
    hide ContentOf, IndexOf;
    assert KeysOf(p.entries)[j] == p.entries[j].key;
    IndexOfKey(p.entries, j);
  }

  lemma DecodedMapForm(p: PVal)
    requires Sane(p) && p.PTable? && IsHash(KeysOf(p.entries), p.next)
    ensures Decoded(p) == DecodedPairs(p, |p.entries|) && Distinct(KeysOf(p.entries))
  {
    hide IsHash, KeysOf;
  }

  /** Map form: the meaning survives exactly when every key is clean and every value survives. */
  lemma MapFormContent(p: PVal)
    requires Sane(p) && p.PTable? && IsHash(KeysOf(p.entries), p.next)
    ensures ContentOf(Decoded(p)) == ContentOf(p) <==>
      forall j :: 0 <= j < |p.entries| ==>
        && CleanKey(p.entries[j].key)
        && ContentOf(Decoded(p.entries[j].val)) == ContentOf(p.entries[j].val)
  {
    hide Decoded, ContentOf, FieldContent, DecodedKey, IndexOf, KeysOf, IsHash, Sane, DecodedPairs, CleanKey;
    var n, q := |p.entries|, DecodedPairs(p, |p.entries|);
    forall j | 0 <= j < n ensures DecodedKey(p.entries[j].key) == p.entries[j].key <==> CleanKey(p.entries[j].key) {
      DecodedKeyKeeps(p.entries[j].key);
    }
    assert Decoded(p) == q && Distinct(KeysOf(p.entries)) by { DecodedMapForm(p); }
    ContentOfTable(p);
    ContentOfTable(q);
    DecodedPairsKeys(p, n);
    if ContentOf(q) == ContentOf(p) {
      forall j | 0 <= j < n ensures DecodedKey(p.entries[j].key) == p.entries[j].key {
        assert KeysOf(p.entries)[j] in ContentOf(q).m;
      }
    }
    if CleanKeys(p, n) {
      DecodedPairsInOrder(p, n);
      assert KeysOf(q.entries) == KeysOf(p.entries);
      forall j | 0 <= j < n
        ensures p.entries[j].key in KeysOf(p.entries)
        ensures FieldContent(p, p.entries[j].key) == ContentOf(p.entries[j].val)
        ensures FieldContent(q, p.entries[j].key) == ContentOf(Decoded(p.entries[j].val))
      {
        FieldAt(p, j);
        FieldAt(q, j);
      }
      if forall j :: 0 <= j < n ==> ContentOf(Decoded(p.entries[j].val)) == ContentOf(p.entries[j].val) {
        forall k | k in KeysOf(p.entries) ensures FieldContent(p, k) == FieldContent(q, k) {
          var j := IndexOf(KeysOf(p.entries), k);
          assert p.entries[j].key == k;
        }
        SameContent(q, p);
      }
    }
  }

  lemma DecodedListForm(p: PVal)
    requires Sane(p) && p.PTable? && !IsHash(KeysOf(p.entries), p.next)
    ensures Decoded(p) == DecodedSlots(p, |p.entries|)
    ensures TableOk(KeysOf(p.entries), p.next)
    ensures forall j :: 0 <= j < |p.entries| ==> p.entries[j].key.IntKey?
  {
    assert forall j :: 0 <= j < |p.entries| ==> KeysOf(p.entries)[j] == p.entries[j].key;
  }

  lemma ListFieldAt(p: PVal, j: nat)
    requires Sane(p) && p.PTable? && !IsHash(KeysOf(p.entries), p.next) && j < |p.entries|
    requires ExactRange(KeysOf(p.entries))
    ensures var k, q := p.entries[j].key, DecodedSlots(p, |p.entries|);
      && k in KeysOf(p.entries) && FieldContent(p, k) == ContentOf(p.entries[j].val)
      && k in KeysOf(q.entries) && FieldContent(q, k) == ContentOf(Decoded(p.entries[j].val))
  {
    hide Decoded, ContentOf, FieldContent, IndexOf, KeysOf, IsHash, Sane, DecodedSlots;
    var k, q := p.entries[j].key, DecodedSlots(p, |p.entries|);
    DecodedListForm(p);
    FieldAt(p, j);
    IndexOfKey(p.entries, j);
    DecodedSlotAt(p, |p.entries|, k.n);
    FieldAt(q, k.n);
  }

  /** List form: the meaning survives exactly when no key is negative and every value survives. */
  lemma ListFormContent(p: PVal)
    requires Sane(p) && p.PTable? && !IsHash(KeysOf(p.entries), p.next)
    ensures ContentOf(Decoded(p)) == ContentOf(p) <==>
      NonNegative(KeysOf(p.entries)) &&
      forall j :: 0 <= j < |p.entries| ==> ContentOf(Decoded(p.entries[j].val)) == ContentOf(p.entries[j].val)
  {
    hide Decoded, ContentOf, FieldContent, IndexOf, KeysOf, IsHash, Sane, DecodedSlots;
    var n, q := |p.entries|, DecodedSlots(p, |p.entries|);
    DecodedListForm(p);
    ContentOfTable(p);
    ContentOfTable(q);
    if ContentOf(q) == ContentOf(p) {
      forall j | 0 <= j < n ensures 0 <= p.entries[j].key.n < n {
        assert KeysOf(p.entries)[j] in ContentOf(q).m;
      }
    }
    if NonNegative(KeysOf(p.entries)) {
      ListFormComplete(KeysOf(p.entries), p.next);
      forall j | 0 <= j < n
        ensures p.entries[j].key in KeysOf(p.entries)
        ensures FieldContent(p, p.entries[j].key) == ContentOf(p.entries[j].val)
        ensures p.entries[j].key in KeysOf(q.entries)
             && FieldContent(q, p.entries[j].key) == ContentOf(Decoded(p.entries[j].val))
      {
        ListFieldAt(p, j);
      }
      if forall j :: 0 <= j < n ==> ContentOf(Decoded(p.entries[j].val)) == ContentOf(p.entries[j].val) {
        forall k | k in KeysOf(p.entries) ensures k in KeysOf(q.entries) && FieldContent(p, k) == FieldContent(q, k) {
          var j := IndexOf(KeysOf(p.entries), k);
          assert p.entries[j].key == k;
        }
        forall k | k in KeysOf(q.entries) ensures k in KeysOf(p.entries) {
          var i := IndexOf(KeysOf(q.entries), k);
          assert q.entries[i].key == k;
        }
        SameContent(p, q);
      }
    }
  }

  lemma SurvivesTable(p: PVal)
    requires Sane(p) && p.PTable?
    requires forall j :: 0 <= j < |p.entries| ==>
      (ContentOf(Decoded(p.entries[j].val)) == ContentOf(p.entries[j].val) <==> Clean(p.entries[j].val))
    ensures ContentOf(Decoded(p)) == ContentOf(p) <==> Clean(p)
  {
    hide Decoded, ContentOf, IndexOf, KeysOf, IsHash, Sane, PrintsLong;
    if IsHash(KeysOf(p.entries), p.next) {
      MapFormContent(p);
    } else {
      ListFormContent(p);
      DecodedListForm(p);
    }
  }

  /** A value keeps its meaning through packing and unpacking exactly when it is clean. */
  lemma {:induction false} SurvivesExactlyWhenClean(p: PVal)
    requires Sane(p)
    ensures ContentOf(Decoded(p)) == ContentOf(p) <==> Clean(p)
    decreases p
  {
    if p.PTable? {
      forall j | 0 <= j < |p.entries|
        ensures ContentOf(Decoded(p.entries[j].val)) == ContentOf(p.entries[j].val) <==> Clean(p.entries[j].val)
      {
        SurvivesExactlyWhenClean(p.entries[j].val);
      }
      SurvivesTable(p);
    }
  }

  /** A clean map-form table comes back with its keys in the order they had. */
  lemma MapFormKeepsOrder(p: PVal)
    requires Sane(p) && p.PTable? && IsHash(KeysOf(p.entries), p.next) && Clean(p)
    ensures Decoded(p).PTable? && KeysOf(Decoded(p).entries) == KeysOf(p.entries)
  {
    hide IndexOf, KeysOf, IsHash, DecodedKey, CleanKey;
    DecodedMapForm(p);
    forall j | 0 <= j < |p.entries| ensures DecodedKey(p.entries[j].key) == p.entries[j].key {
      DecodedKeyKeeps(p.entries[j].key);
    }
    DecodedPairsInOrder(p, |p.entries|);
  }
}
