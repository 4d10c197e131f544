/**
 What unpacking makes of arbitrary bytes, said of the bytes and of the table that comes out: the keys a map is stored
 under, the engine's rules for every table that was filled, and what each wire format stands for.
 */
module UnpackLaws {
  import opened ByteStrings
  import opened MsgPuck
  import opened Wire
  import opened PhpValues
  import opened Codec
  import opened RoundTrip

  // ---- what a map is unpacked to ----

  /** A string that is a 64-bit integer as PHP prints it stores as that integer, and any other one as itself. */
  ghost predicate StringStoresAs(s: Bytes, k: Key) {
    match k
    case IntKey(n) => -TWO_63 <= n < TWO_63 && s == Printed(n)
    case StrKey(t) => s == t && !PrintsLong(s)
  }

  /** The key under which the value of a pair is stored, given the element before it. */
  ghost predicate StoresAs(key: Tree, k: Key) {
    match key.head.kind
    case Uint => k == IntKey(if key.head.num < TWO_63 then key.head.num else key.head.num - TWO_64)
    case Int => k == IntKey(key.head.num)
    case Str => StringStoresAs(key.head.payload, k)
    case Bin => StringStoresAs(key.head.payload, k)
    case _ => false
  }

  lemma SymKeyStores(s: Bytes, k: Key)
    ensures StringStoresAs(s, k) <==> k == SymKey(s)
  {
    hide Printed;
    SymKeyExact(s);
    if SymKey(s) != StrKey(s) {
      var n :| -TWO_63 <= n < TWO_63 && s == Printed(n);
    }
  }

  /** Numbers on the wire fit a machine word. */
  ghost predicate WordSized(t: Tree) {
    -TWO_63 <= t.head.num < TWO_64 && (t.head.kind.Int? ==> t.head.num < TWO_63)
  }

  lemma NoKeys(k: Key)
    ensures Distinct(KeysOf<PVal>([])) && k !in KeysOf<PVal>([])
  {
  }

  lemma PutKeeps(es: seq<Entry<PVal>>, k: Key, v: PVal, x: Key)
    requires Distinct(KeysOf(es))
    ensures Distinct(KeysOf(Put(es, k, v)))
    ensures x in KeysOf(Put(es, k, v)) <==> x == k || x in KeysOf(es)
  {
    hide IndexOf;
  }

  ghost predicate StoresOnly(key: Tree, l: Key) {
    forall k :: StoresAs(key, k) <==> k == l
  }

  lemma StoredUnder(p: PVal, key: Tree, val: PVal) returns (l: Key)
    requires p.PTable? && WordSized(key) && StorePair(p, FromTree(key), Value(val)).Value?
    ensures StorePair(p, FromTree(key), Value(val)) == Value(Store(p, l, val))
    ensures StoresOnly(key, l)
  {
    hide Store, SymKey, StringStoresAs, FromItems, FromPairs;
    var t := FromTree(key).v;
    if t.PLong? {
      l := IntKey(t.n);
    } else {
      l := SymKey(t.s);
      forall k ensures StringStoresAs(t.s, k) <==> k == l {
        SymKeyStores(t.s, k);
      }
    }
  }

  function PairKey(t: Tree, i: nat): Tree
    requires 2 * i < |t.items|
  {
    t.items[2 * i]
  }

  function PairValue(t: Tree, i: nat): Unpacked
    requires 2 * i + 1 < |t.items|
  {
    FromTree(t.items[2 * i + 1])
  }

  /** Among the first `n` pairs of a map, pair `i` is the last to store under `k`. */
  ghost predicate LastUnder(t: Tree, n: nat, i: nat, k: Key)
    requires 2 * n <= |t.items|
  {
    i < n && StoresAs(PairKey(t, i), k) && forall j :: i < j < n ==> !StoresAs(PairKey(t, j), k)
  }

  ghost predicate SomeUnder(t: Tree, n: nat, k: Key)
    requires 2 * n <= |t.items|
  {
    exists i :: 0 <= i < n && StoresAs(PairKey(t, i), k)
  }

  lemma UnderStep(t: Tree, n: nat, i: nat, k: Key)
    requires 0 < n && 2 * n <= |t.items|
    ensures SomeUnder(t, n, k) <==> SomeUnder(t, n - 1, k) || StoresAs(PairKey(t, n - 1), k)
    ensures LastUnder(t, n, i, k) ==>
      StoresAs(PairKey(t, i), k) && (i == n - 1 || (LastUnder(t, n - 1, i, k) && !StoresAs(PairKey(t, n - 1), k)))
  {
    hide StoresAs;
  }

  /** The table has `k` exactly when one of the first `n` pairs stores under it, with the value of the last of them. */
  ghost predicate Filled(t: Tree, n: nat, k: Key, w: PVal)
    requires 2 * n <= |t.items|
  {
    && w.PTable? && Distinct(KeysOf(w.entries))
    && (k in KeysOf(w.entries) <==> SomeUnder(t, n, k))
    && forall i :: 0 <= i < n && LastUnder(t, n, i, k) ==>
      PairValue(t, i).Value? && Find(w.entries, k) == Some(PairValue(t, i).v)
  }

  lemma FilledNone(t: Tree, k: Key)
    ensures Filled(t, 0, k, PTable([], 0))
  {
  }

  lemma FilledMore(t: Tree, n: nat, k: Key, w: PVal, l: Key)
    requires 0 < n && 2 * n <= |t.items| && Filled(t, n - 1, k, w) && PairValue(t, n - 1).Value?
    requires StoresOnly(PairKey(t, n - 1), l)
    ensures Filled(t, n, k, Store(w, l, PairValue(t, n - 1).v))
  {
    hide StoresAs, Find, KeysOf, Put, NextAfter, Distinct, LastUnder, SomeUnder, PairValue;
    PutFinds(w.entries, l, PairValue(t, n - 1).v, k);
    PutKeeps(w.entries, l, PairValue(t, n - 1).v, k);
    UnderStep(t, n, 0, k);
    forall i | 0 <= i < n && LastUnder(t, n, i, k)
      ensures StoresAs(PairKey(t, i), k)
      ensures i == n - 1 || (LastUnder(t, n - 1, i, k) && !StoresAs(PairKey(t, n - 1), k))
    {
      UnderStep(t, n, i, k);
    }
  }

  /**
   A map that is unpacked becomes a table with exactly the keys its pairs store under, each once and with the value of
   the last pair that stores there.
   */
  lemma {:induction false} PairsStored(t: Tree, n: nat, k: Key)
    requires 2 * n <= |t.items| && FromPairs(t, n).Value?
    requires forall i :: 0 <= i < n ==> WordSized(PairKey(t, i))
    ensures Filled(t, n, k, FromPairs(t, n).v)
    decreases n
  {
    hide FromTree, Filled, StoresAs, WordSized, Store;
    if n == 0 {
      FilledNone(t, k);
    } else {
      PairsStored(t, n - 1, k);
      var p := FromPairs(t, n - 1).v;
      var l := StoredUnder(p, PairKey(t, n - 1), PairValue(t, n - 1).v);
      FilledMore(t, n, k, p, l);
    }
  }

  // ---- the rules every filled table keeps ----

  predicate EndsAt(n: int, next: int) {
    n + 1 == next || n == next == LONG_MAX
  }

  /** The next free index is one above the largest non-negative integer key, or 0, and stays at the largest `long`. */
  ghost predicate NextExact(keys: seq<Key>, next: int) {
    && (forall i :: 0 <= i < |keys| && keys[i].IntKey? ==> keys[i].n < next || next == LONG_MAX)
    && 0 <= next <= LONG_MAX
    && (next == 0 || exists i :: 0 <= i < |keys| && keys[i].IntKey? && EndsAt(keys[i].n, next))
  }

  ghost predicate RulesKept(p: PVal) {
    p.PTable? ==>
      && TableOk(KeysOf(p.entries), p.next) && NextExact(KeysOf(p.entries), p.next)
      && forall i :: 0 <= i < |p.entries| ==> RulesKept(p.entries[i].val)
  }

  ghost predicate Bounded(t: Tree) {
    WordSized(t) && |t.items| < TWO_31 && forall i :: 0 <= i < |t.items| ==> Bounded(t.items[i])
  }

  lemma NextAfterExact(es: seq<Entry<PVal>>, next: int, k: Key, v: PVal)
    requires NextExact(KeysOf(es), next) && (k.IntKey? ==> -TWO_63 <= k.n < TWO_63)
    ensures NextExact(KeysOf(Put(es, k, v)), NextAfter(next, k))
  {
    hide IndexOf;
    var keys, r := KeysOf(es), KeysOf(Put(es, k, v));
    var next' := NextAfter(next, k);
    assert forall i :: 0 <= i < |keys| ==> r[i] == keys[i];
    assert k in r;
    if next' != next {
      var i :| 0 <= i < |r| && r[i] == k;
      assert EndsAt(r[i].n, next');
    } else if next != 0 {
      var i :| 0 <= i < |keys| && keys[i].IntKey? && EndsAt(keys[i].n, next);
      assert r[i] == keys[i];
    }
  }

  predicate SaneInt(k: Key) {
    k.IntKey? ==> -TWO_63 <= k.n < TWO_63
  }

  /** A table under construction: at most `n` entries, and the rules kept in it and below it. */
  ghost predicate Ruled(p: PVal, n: nat) {
    && p.PTable? && |p.entries| <= n && Distinct(KeysOf(p.entries)) && NextExact(KeysOf(p.entries), p.next)
    && forall i :: 0 <= i < |p.entries| ==> SaneInt(p.entries[i].key) && RulesKept(p.entries[i].val)
  }

  lemma NextIsAbove(keys: seq<Key>, next: int)
    requires NextExact(keys, next)
    ensures forall i :: 0 <= i < |keys| && keys[i].IntKey? ==> keys[i].n < next || next >= LONG_MAX
  {
  }

  lemma RuledKept(p: PVal, n: nat)
    requires Ruled(p, n) && n < TWO_31
    ensures RulesKept(p)
  {
    hide NextExact, Distinct;
    assert NextExact(KeysOf(p.entries), p.next);
    NextIsAbove(KeysOf(p.entries), p.next);
    assert forall i :: 0 <= i < |p.entries| ==> KeysOf(p.entries)[i] == p.entries[i].key;
  }

  lemma RuledNone()
    ensures Ruled(PTable([], 0), 0)
  {
  }

  lemma RuledMore(p: PVal, n: nat, k: Key, v: PVal)
    requires Ruled(p, n) && SaneInt(k) && RulesKept(v)
    ensures Ruled(Store(p, k, v), n + 1)
  {
    hide NextExact, RulesKept, NextAfter, IndexOf;
    NextAfterExact(p.entries, p.next, k, v);
    var es, r := p.entries, Put(p.entries, k, v);
    forall i | 0 <= i < |r| ensures SaneInt(r[i].key) && RulesKept(r[i].val) {
      assert r[i].key == KeysOf(r)[i];
    }
  }

  lemma SymKeySane(s: Bytes)
    ensures SaneInt(SymKey(s))
  {
    hide Digits, DigitsValue;
  }

  lemma ScalarRules(t: Tree)
    requires WordSized(t) && !t.head.kind.Array? && !t.head.kind.Map? && FromTree(t).Value?
    ensures RulesKept(FromTree(t).v) && (FromTree(t).v.PLong? ==> SaneInt(IntKey(FromTree(t).v.n)))
  {
  }

  /** Every table that unpacking fills keeps the engine's rules, at every depth. */
  lemma {:induction false} TreeRules(t: Tree)
    requires Bounded(t) && FromTree(t).Value?
    ensures RulesKept(FromTree(t).v) && (FromTree(t).v.PLong? ==> SaneInt(IntKey(FromTree(t).v.n)))
    decreases t, 1
  {
    hide RulesKept, Ruled, FromItems, FromPairs;
    match t.head.kind
    case Array =>
      ItemsRules(t, |t.items|);
      RuledKept(FromTree(t).v, |t.items|);
    case Map =>
      PairsRules(t, |t.items| / 2);
      RuledKept(FromTree(t).v, |t.items| / 2);
    case _ => ScalarRules(t);
  }

  lemma StoreAtEnd(p: PVal, n: nat, v: PVal)
    requires p.PTable? && |p.entries| == n == p.next && n < LONG_MAX
    requires forall i :: 0 <= i < n ==> p.entries[i].key == IntKey(i)
    ensures Store(p, IntKey(n), v) == PTable(p.entries + [Entry(IntKey(n), v)], n + 1)
  {
    hide IndexOf;
    assert IntKey(n) !in KeysOf(p.entries);
  }

  lemma {:induction false} ItemsRules(t: Tree, n: nat)
    requires Bounded(t) && n <= |t.items| && FromItems(t, n).Value?
    ensures Ruled(FromItems(t, n).v, n) && FromItems(t, n).v.next == n
    ensures forall i :: 0 <= i < n ==> FromItems(t, n).v.entries[i].key == IntKey(i)
    decreases t, 0, n
  {
    hide FromTree, Ruled, Store;
    if n == 0 {
      RuledNone();
    } else {
      ItemsRules(t, n - 1);
      TreeRules(t.items[n - 1]);
      var p, v := FromItems(t, n - 1).v, FromTree(t.items[n - 1]).v;
      RuledMore(p, n - 1, IntKey(n - 1), v);
      StoreAtEnd(p, n - 1, v);
    }
  }

  lemma {:induction false} PairsRules(t: Tree, n: nat)
    requires Bounded(t) && 2 * n <= |t.items| && FromPairs(t, n).Value?
    ensures Ruled(FromPairs(t, n).v, n)
    decreases t, 0, n
  {
    hide FromTree, Ruled, Store, RulesKept, SaneInt, SymKey;
    if n == 0 {
      RuledNone();
    } else {
      PairsRules(t, n - 1);
      var k, v := FromTree(t.items[2 * n - 2]).v, FromTree(t.items[2 * n - 1]).v;
      TreeRules(t.items[2 * n - 2]);
      TreeRules(t.items[2 * n - 1]);
      var key := if k.PLong? then IntKey(k.n) else SymKey(k.s);
      if k.PStr? {
        SymKeySane(k.s);
      }
      RuledMore(FromPairs(t, n - 1).v, n - 1, key, v);
    }
  }

  lemma SmallForm(c: Byte)
    ensures -0x20 <= FormOf(c).imm < 0x100
  {
  }

  lemma MeaningFits(f: Form, arg: int)
    requires f.width == 0 || f.width == 1 || f.width == 2 || f.width == 4 || f.width == 8
    requires if f.width == 0 then arg == f.imm && -0x20 <= arg < 0x100 else 0 <= arg < Pow256(f.width)
    requires f.imm < 0 ==> f.kind.Int?
    ensures -TWO_63 <= Meaning(f, arg) < TWO_64 && (f.kind.Int? ==> Meaning(f, arg) < TWO_63)
  {
    hide Pow256;
    Widths();
  }

  /** Numbers in heads fit a machine word. */
  lemma TokenFits(s: Bytes)
    requires ReadToken(s).Some?
    ensures var t := ReadToken(s).value.0; -TWO_63 <= t.num < TWO_64 && (t.kind.Int? ==> t.num < TWO_63)
  {
    hide FromBigEndian, FormOf, Meaning, PayloadLen, Pow256;
    var f := FormOf(s[0]);
    SmallForm(s[0]);
    MeaningFits(f, if f.width == 0 then f.imm else FromBigEndian(s[1..][..f.width]));
  }

  lemma {:induction false} ManyBytes(s: Bytes, k: nat)
    requires ParseMany(s, k).Some?
    ensures k + |ParseMany(s, k).value.1| <= |s|
    decreases k
  {
    hide Parse;
    if k > 0 {
      ManyBytes(Parse(s).value.1, k - 1);
    }
  }

  lemma {:induction false} ParseBounded(s: Bytes)
    requires |s| < TWO_31 && Parse(s).Some?
    ensures Bounded(Parse(s).value.0)
    decreases |s|, 0
  {
    hide ReadToken, Token.Children, ParseMany;
    var (head, rest) := ReadToken(s).value;
    TokenFits(s);
    ManyBytes(rest, head.Children());
    ManyBounded(rest, head.Children());
  }

  lemma {:induction false} ManyBounded(s: Bytes, k: nat)
    requires |s| < TWO_31 && ParseMany(s, k).Some?
    ensures forall i :: 0 <= i < k ==> Bounded(ParseMany(s, k).value.0[i])
    decreases |s|, 1
  {
    hide Parse, Bounded;
    if k > 0 {
      ParseBounded(s);
      ManyBounded(Parse(s).value.1, k - 1);
    }
  }

  /**
   Whatever bytes are unpacked: every table in the value keeps the engine's rules, so that it can be packed again, and
   its next free index, which then decides between list and map, is the one its keys call for.
   */
  lemma UnpackKeepsRules(s: Bytes)
    requires |s| < TWO_31 && Unpack(s).Got?
    ensures RulesKept(Unpack(s).v)
  {
    hide Parse, FromTree, RulesKept, Bounded;
    ParseBounded(s);
    TreeRules(Parse(s).value.0);
  }

  // ---- two maps in literal bytes ----

  lemma OneStringEncoded(key: Bytes)
    requires |key| <= 31
    ensures var p := PTable([Entry(StrKey(key), PLong(1))], 0);
      Sane(p) && IsHash(KeysOf(p.entries), 0) && Encode(p) == [0x81] + ([] + EncodeStr(key) + [0x01])
  {
    var p := PTable([Entry(StrKey(key), PLong(1))], 0);
    assert Encode(p.entries[0].val) == [0x01];
    assert EncodePairs(p, 0) == [];
  }

  lemma OneStringDecoded(key: Bytes)
    ensures var p := PTable([Entry(StrKey(key), PLong(1))], 0);
      IsHash(KeysOf(p.entries), 0) && Decoded(p) == Store(PTable([], 0), SymKey(key), PLong(1))
  {
    hide SymKey, Store;
    var p := PTable([Entry(StrKey(key), PLong(1))], 0);
    assert DecodedPairs(p, 0) == PTable([], 0);
    assert Decoded(p.entries[0].val) == PLong(1);
  }

  lemma OneStringKey(key: Bytes)
    requires |key| <= 31
    ensures Unpack([0x81, 0xa0 + |key|] + key + [0x01])
      == Got(PTable([Entry(SymKey(key), PLong(1))], NextAfter(0, SymKey(key))), [])
  {
    hide Unpack, Encode, IsHash, SymKey;
    var p := PTable([Entry(StrKey(key), PLong(1))], 0);
    assert KeysOf(p.entries) == [StrKey(key)];
    assert Encode(p) == [0x81] + ([] + EncodeStr(key) + [0x01]) by { OneStringEncoded(key); }
    assert EncodeStr(key) == [0xa0 + |key|] + key;
    assert [0x81, 0xa0 + |key|] + key + [0x01] == Encode(p) + [];
    PackUnpack(p, []);
    assert Decoded(p) == Store(PTable([], 0), SymKey(key), PLong(1)) by { OneStringDecoded(key); }
    NoKeys(SymKey(key));
  }

  /** A string with a leading zero is no printed integer: the map `{"01234": 1}` keeps its key. */
  lemma LeadingZeroStays()
    ensures Unpack([0x81, 0xa5, 0x30, 0x31, 0x32, 0x33, 0x34, 0x01])
      == Got(PTable([Entry(StrKey([0x30, 0x31, 0x32, 0x33, 0x34]), PLong(1))], 0), [])
  {
    hide Unpack, Encode, IsHash, Digits, DigitsValue;
    var key: Bytes := [0x30, 0x31, 0x32, 0x33, 0x34];
    assert SymKey(key) == StrKey(key);
    OneStringKey(key);
    assert [0x81, 0xa5, 0x30, 0x31, 0x32, 0x33, 0x34, 0x01] == [0x81, 0xa0 + |key|] + key + [0x01];
  }

  lemma PrintOf1234()
    ensures Printed(1234) == [0x31, 0x32, 0x33, 0x34]
  {
    assert PrintedNat(1) == [0x31];
    assert PrintedNat(12) == [0x31, 0x32];
    assert PrintedNat(123) == [0x31, 0x32, 0x33];
  }

  /** The map `{"1234": 1}` is stored under the integer. */
  lemma PrintedKeyTurns()
    ensures Unpack([0x81, 0xa4, 0x31, 0x32, 0x33, 0x34, 0x01])
      == Got(PTable([Entry(IntKey(1234), PLong(1))], 1235), [])
  {
    hide Unpack, Encode, IsHash, DigitsValue, SymKey, CanonicalDecimal, Printed, PrintedNat, Digits;
    var key: Bytes := [0x31, 0x32, 0x33, 0x34];
    SymKeyExact(key);
    PrintOf1234();
    OneStringKey(key);
    assert [0x81, 0xa4, 0x31, 0x32, 0x33, 0x34, 0x01] == [0x81, 0xa0 + |key|] + key + [0x01];
  }

  // ---- what is refused ----

  predicate KeyKind(k: Kind) { k.Uint? || k.Int? || k.Str? || k.Bin? }

  /** No extension value anywhere, and every key of a map an integer, a string or binary data. */
  ghost predicate Storable(t: Tree) {
    && !t.head.kind.Ext?
    && (t.head.kind.Array? ==> forall i :: 0 <= i < |t.items| ==> Storable(t.items[i]))
    && (t.head.kind.Map? ==> forall i :: 0 <= i < |t.items| / 2 ==>
          KeyKind(t.items[2 * i].head.kind) && Storable(t.items[2 * i + 1]))
  }

  ghost predicate PairUnpacks(t: Tree, i: nat)
    requires 2 * i + 1 < |t.items|
  {
    KeyKind(t.items[2 * i].head.kind) && Storable(t.items[2 * i + 1])
  }

  lemma StorableMap(t: Tree)
    requires t.head.kind.Map?
    ensures Storable(t) <==> forall i :: 0 <= i < |t.items| / 2 ==> PairUnpacks(t, i)
  {
    assert forall i :: 0 <= i < |t.items| / 2 ==>
      (PairUnpacks(t, i) <==> KeyKind(t.items[2 * i].head.kind) && Storable(t.items[2 * i + 1]));
  }

  /** An element unpacks exactly when it is storable throughout. */
  lemma {:induction false} UnpacksExactly(t: Tree)
    ensures FromTree(t).Value? <==> Storable(t)
    decreases t, 1
  {
    hide FromItems, FromPairs;
    match t.head.kind
    case Array => ItemsUnpack(t, |t.items|);
    case Map =>
      var n := |t.items| / 2;
      PairsUnpack(t, n);
      assert Storable(t) <==> forall i :: 0 <= i < n ==> PairUnpacks(t, i) by { StorableMap(t); }
    case _ =>
  }

  lemma {:induction false} ItemsUnpack(t: Tree, n: nat)
    requires n <= |t.items|
    ensures FromItems(t, n).Value? <==> forall i :: 0 <= i < n ==> Storable(t.items[i])
    decreases t, 0, n
  {
    hide FromTree, Storable;
    if n > 0 {
      ItemsUnpack(t, n - 1);
      UnpacksExactly(t.items[n - 1]);
    }
  }

  lemma ListIsTable(t: Tree)
    ensures FromItems(t, |t.items|).Value? ==> FromItems(t, |t.items|).v.PTable?
    ensures FromPairs(t, |t.items| / 2).Value? ==> FromPairs(t, |t.items| / 2).v.PTable?
  {
  }

  lemma KeyUnpacks(t: Tree)
    ensures KeyKind(t.head.kind) <==> FromTree(t).Value? && (FromTree(t).v.PLong? || FromTree(t).v.PStr?)
  {
    hide FromItems, FromPairs;
    if FromTree(t).Value? && t.head.kind.Array? {
      assert FromItems(t, |t.items|).v.PTable? by { ListIsTable(t); }
    }
    if FromTree(t).Value? && t.head.kind.Map? {
      assert FromPairs(t, |t.items| / 2).v.PTable? by { ListIsTable(t); }
    }
  }

  lemma {:induction false} PairsUnpack(t: Tree, n: nat)
    requires 2 * n <= |t.items|
    ensures FromPairs(t, n).Value? <==> forall i :: 0 <= i < n ==> PairUnpacks(t, i)
    decreases t, 0, n
  {
    hide FromTree, Storable, Store, SymKey;
    if n > 0 {
      PairsUnpack(t, n - 1);
      UnpacksExactly(t.items[2 * n - 1]);
      KeyUnpacks(t.items[2 * n - 2]);
      assert PairUnpacks(t, n - 1) <==> KeyKind(t.items[2 * n - 2].head.kind) && Storable(t.items[2 * n - 1]);
    }
  }
}
