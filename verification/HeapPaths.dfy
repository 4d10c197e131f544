/**
 What packing leaves of a heap, path by path: a path of entry positions leads from a value through nested tables, and
 on every heap, cyclic ones included, it leads to the same in the unpacked value until a table has been entered too
 often.
 */
module HeapPaths {
  import opened ByteStrings
  import opened MsgPuck
  import opened PhpValues
  import opened Codec
  import opened RoundTrip
  import opened UnpackLaws
  import opened ZendHeap

  ghost predicate SaneZ(v: ZVal) {
    match v
    case ZLong(n) => -TWO_63 <= n < TWO_63
    case ZDouble(bits) => |bits| == 8
    case ZStr(s) => |s| < TWO_32
    case _ => true
  }

  /** Every table keeps the engine's rules and holds values in range. */
  ghost predicate SaneHeap(g: Graph) {
    && Closed(g)
    && (forall t :: t in g ==> TableOk(KeysOf(g[t].entries), g[t].next))
    && forall t, i :: t in g && 0 <= i < |g[t].entries| ==> SaneKey(g[t].entries[i].key) && SaneZ(g[t].entries[i].val)
  }

  lemma {:induction false} UnfoldSane(g: Graph, c: Counts, v: ZVal)
    requires SaneHeap(g) && SaneZ(v) && Inside(g, v) && c.Keys == g.Keys
    ensures Sane(Unfold(g, c, v)) && WideDoubles(Unfold(g, c, v))
    decreases Budget(g, c), if v.ZArr? then 1 else 0
  {
    if v.ZArr? {
      var es, p := g[v.ht].entries, Unfold(g, c, v);
      UnfoldKeys(g, c, v.ht);
      forall i | 0 <= i < |es| ensures Sane(p.entries[i].val) && WideDoubles(p.entries[i].val) {
        if es[i].val.ZArr? && !Barred(c, es[i].val) {
          EnterSpends(g, c, es[i].val.ht);
          UnfoldSane(g, Enter(c, es[i].val.ht), es[i].val);
        } else if !es[i].val.ZArr? {
          UnfoldSane(g, c, es[i].val);
        }
      }
    }
  }

  // ---- paths in the heap ----

  /** What a path of entry positions leads to. */
  ghost function Reach(g: Graph, v: ZVal, path: seq<nat>): (r: Option<ZVal>)
    requires Closed(g) && Inside(g, v)
    ensures r.Some? ==> Inside(g, r.value)
    decreases |path|
  {
    if path == [] then Some(v)
    else if v.ZArr? && path[0] < |g[v.ht].entries| then Reach(g, g[v.ht].entries[path[0]].val, path[1..])
    else None
  }

  /** How often a path enters the table `t`; the value it starts from does not count. */
  ghost function Entered(g: Graph, v: ZVal, path: seq<nat>, t: HashTable): nat
    requires Closed(g) && Inside(g, v) && Reach(g, v, path).Some?
    decreases |path|
  {
    if path == [] then 0
    else
      var child := g[v.ht].entries[path[0]].val;
      (if child == ZArr(t) then 1 else 0) + Entered(g, child, path[1..], t)
  }

  /** The path leads to a table whose counter, raised by the entries on the way there, is above 1. */
  ghost predicate Cut(g: Graph, c: Counts, v: ZVal, path: seq<nat>)
    requires Closed(g) && c.Keys == g.Keys && Inside(g, v) && Reach(g, v, path).Some?
  {
    && path != [] && Reach(g, v, path).value.ZArr?
    && var t := Reach(g, v, path).value.ht;
    c[t] + Entered(g, v, path, t) - 1 > 1
  }

  /** No step of the path before the last one leads to a table that is cut. */
  ghost predicate Open(g: Graph, c: Counts, v: ZVal, path: seq<nat>)
    requires Closed(g) && c.Keys == g.Keys && Inside(g, v)
  {
    && Reach(g, v, path).Some?
    && forall i :: 0 <= i < |path| ==> Reach(g, v, path[..i]).Some? && !Cut(g, c, v, path[..i])
  }

  // ---- the same places in the unpacked value ----

  ghost predicate KeyStores(key: Key, k: Key) {
    match key
    case IntKey(_) => k == key
    case StrKey(s) => StringStoresAs(s, k)
  }

  /**
   The value of entry `i` is found under `k` when the table is unpacked: in a map unless a later entry stores there
   too, in a list if its index is not negative.
   */
  ghost predicate FoundAs(es: seq<Entry<ZVal>>, next: int, i: nat, k: Key)
    requires i < |es|
  {
    if IsHash(KeysOf(es), next)
    then KeyStores(es[i].key, k) && forall j :: i < j < |es| ==> !KeyStores(es[j].key, k)
    else es[i].key == k && k.IntKey? && k.n >= 0
  }

  /** The keys along the path. */
  ghost predicate Named(g: Graph, v: ZVal, path: seq<nat>, names: seq<Key>)
    requires Closed(g) && Inside(g, v)
    decreases |path|
  {
    && |names| == |path|
    && (path == [] ||
        (&& v.ZArr? && path[0] < |g[v.ht].entries|
         && FoundAs(g[v.ht].entries, g[v.ht].next, path[0], names[0])
         && Named(g, g[v.ht].entries[path[0]].val, path[1..], names[1..])))
  }

  function NodeAt(w: PVal, names: seq<Key>): Option<PVal>
    decreases |names|
  {
    if names == [] then Some(w)
    else if w.PTable? && Find(w.entries, names[0]).Some? then NodeAt(Find(w.entries, names[0]).value, names[1..])
    else None
  }

  /** The keys of a table after packing and unpacking: those its entries store under, or 0 up to their number. */
  ghost predicate KeyShown(es: seq<Entry<ZVal>>, next: int, k: Key) {
    if IsHash(KeysOf(es), next) then exists i :: 0 <= i < |es| && KeyStores(es[i].key, k)
    else k.IntKey? && 0 <= k.n < |es|
  }

  /** A table comes back with its keys; a list has null where an index is missing. */
  ghost predicate TableShown(es: seq<Entry<ZVal>>, next: int, w: PVal) {
    && w.PTable?
    && (forall k :: k in KeysOf(w.entries) <==> KeyShown(es, next, k))
    && (!IsHash(KeysOf(es), next) ==>
          forall k :: KeyShown(es, next, k) && k !in KeysOf(es) ==> Find(w.entries, k) == Some(PNull))
  }

  /** What stands at the end of a path: null if it is cut, and else the scalar there or a table with its keys. */
  ghost predicate Shows(g: Graph, c: Counts, v: ZVal, path: seq<nat>, w: PVal)
    requires Closed(g) && c.Keys == g.Keys && Inside(g, v) && Reach(g, v, path).Some?
  {
    if Cut(g, c, v, path) then w == PNull
    else
      match Reach(g, v, path).value
      case ZNull => w == PNull
      case ZBool(b) => w == PBool(b)
      case ZLong(n) => w == PLong(n)
      case ZDouble(bits) => w == PDouble(bits)
      case ZStr(s) => w == PStr(s)
      case ZOther => w == PNull
      case ZArr(t) => TableShown(g[t].entries, g[t].next, w)
  }

  /** A value agrees with the heap at the end of every open path. */
  ghost predicate Mirrors(g: Graph, c: Counts, v: ZVal, w: PVal)
    requires Closed(g) && c.Keys == g.Keys && Inside(g, v)
  {
    forall path, names :: Open(g, c, v, path) && Named(g, v, path, names) ==>
      NodeAt(w, names).Some? && Shows(g, c, v, path, NodeAt(w, names).value)
  }

  // ---- the guarded walk keeps to the paths ----

  lemma KeyStoresDecoded(key: Key, k: Key)
    ensures KeyStores(key, k) <==> k == DecodedKey(key)
  {
    hide StringStoresAs, SymKey;
    if key.StrKey? {
      SymKeyStores(key.s, k);
    }
  }

  /** Among the first `n` entries of a table, the last whose key decodes to `k` decides what is found there. */
  lemma {:induction false} DecodedPairsFind(p: PVal, n: nat, i: nat, k: Key)
    requires p.PTable? && i < n <= |p.entries| && DecodedKey(p.entries[i].key) == k
    requires forall j :: i < j < n ==> DecodedKey(p.entries[j].key) != k
    ensures Find(DecodedPairs(p, n).entries, k) == Some(Decoded(p.entries[i].val))
    decreases n
  {
    hide Decoded, DecodedKey, NextAfter, Put, IndexOf, KeysOf, Find;
    DecodedPairsKeys(p, n - 1);
    var e := p.entries[n - 1];
    PutFinds(DecodedPairs(p, n - 1).entries, DecodedKey(e.key), Decoded(e.val), k);
    if i < n - 1 {
      DecodedPairsFind(p, n - 1, i, k);
    }
  }

  lemma {:induction false} DecodedPairsHas(p: PVal, n: nat, k: Key)
    requires p.PTable? && n <= |p.entries|
    ensures k in KeysOf(DecodedPairs(p, n).entries) <==>
      exists i :: 0 <= i < n && DecodedKey(p.entries[i].key) == k
    decreases n
  {
    hide Decoded, DecodedKey, NextAfter, Put, IndexOf, KeysOf;
    if n == 0 {
      NoKeys(k);
    } else {
      DecodedPairsKeys(p, n - 1);
      DecodedPairsHas(p, n - 1, k);
      PutKeeps(DecodedPairs(p, n - 1).entries, DecodedKey(p.entries[n - 1].key), Decoded(p.entries[n - 1].val), k);
    }
  }

  lemma SlotFound(p: PVal, i: nat)
    requires p.PTable? && TableOk(KeysOf(p.entries), p.next) && |p.entries| == p.next && i < |p.entries|
    requires p.entries[i].key.IntKey? && p.entries[i].key.n >= 0
    ensures Find(DecodedSlots(p, |p.entries|).entries, p.entries[i].key) == Some(Decoded(p.entries[i].val))
  {
    hide Decoded;
    var k, q := p.entries[i].key, DecodedSlots(p, |p.entries|);
    assert KeysOf(p.entries)[i] == k;
    DecodedSlotAt(p, |p.entries|, k.n);
    IndexOfKey(p.entries, i);
    IndexOfKey(q.entries, k.n);
  }

  /** An entry of a table is found in the decoded table under its key. */
  lemma ChildFound(p: PVal, es: seq<Entry<ZVal>>, next: int, i: nat, k: Key)
    requires Sane(p) && p.PTable? && p.next == next && KeysOf(p.entries) == KeysOf(es) && |p.entries| == |es|
    requires i < |es| && FoundAs(es, next, i, k)
    ensures Decoded(p).PTable? && Find(Decoded(p).entries, k) == Some(Decoded(p.entries[i].val))
  {
    hide Decoded, DecodedKey, Find, Sane, KeyStores, DecodedPairs, DecodedSlots;
    forall j | 0 <= j < |es|
      ensures p.entries[j].key == es[j].key && (KeyStores(es[j].key, k) <==> k == DecodedKey(p.entries[j].key))
    {
      assert KeysOf(p.entries)[j] == KeysOf(es)[j];
      KeyStoresDecoded(es[j].key, k);
    }
    if IsHash(KeysOf(es), next) {
      DecodedMapForm(p);
      DecodedPairsFind(p, |es|, i, k);
    } else {
      DecodedListForm(p);
      SlotFound(p, i);
    }
  }

  lemma MissingSlot(p: PVal, k: nat)
    requires p.PTable? && k < |p.entries| && IntKey(k) !in KeysOf(p.entries)
    ensures Find(DecodedSlots(p, |p.entries|).entries, IntKey(k)) == Some(PNull)
  {
    hide Decoded;
    DecodedSlotAt(p, |p.entries|, k);
    IndexOfKey(DecodedSlots(p, |p.entries|).entries, k);
  }

  lemma DecodedTableShown(p: PVal, es: seq<Entry<ZVal>>, next: int)
    requires Sane(p) && p.PTable? && p.next == next && KeysOf(p.entries) == KeysOf(es) && |p.entries| == |es|
    ensures TableShown(es, next, Decoded(p))
  {
    hide Decoded, DecodedKey, Sane, KeyStores, DecodedPairs, DecodedSlots, IsHash;
    if IsHash(KeysOf(es), next) {
      DecodedMapForm(p);
      forall k ensures k in KeysOf(Decoded(p).entries) <==> KeyShown(es, next, k) {
        DecodedPairsHas(p, |es|, k);
        forall j | 0 <= j < |es| ensures KeyStores(es[j].key, k) <==> k == DecodedKey(p.entries[j].key) {
          assert KeysOf(p.entries)[j] == KeysOf(es)[j];
          KeyStoresDecoded(es[j].key, k);
        }
      }
    } else {
      DecodedListForm(p);
      var q := DecodedSlots(p, |es|);
      assert forall i :: 0 <= i < |es| ==> KeysOf(q.entries)[i] == IntKey(i);
      forall k | KeyShown(es, next, k) && k !in KeysOf(es) ensures Find(q.entries, k) == Some(PNull) {
        MissingSlot(p, k.n);
      }
    }
  }

  ghost function Step(g: Graph, v: ZVal, i: nat): (child: ZVal)
    requires Closed(g) && Inside(g, v) && v.ZArr? && i < |g[v.ht].entries|
    ensures Inside(g, child)
  {
    g[v.ht].entries[i].val
  }

  ghost function Raised(c: Counts, v: ZVal): Counts
    requires v.ZArr? ==> v.ht in c
  {
    if v.ZArr? then Enter(c, v.ht) else c
  }

  lemma CutFirst(g: Graph, c: Counts, v: ZVal, i: nat)
    requires Closed(g) && c.Keys == g.Keys && Inside(g, v) && v.ZArr? && i < |g[v.ht].entries|
    ensures Reach(g, v, [i]) == Some(Step(g, v, i))
    ensures Cut(g, c, v, [i]) <==> Step(g, v, i).ZArr? && c[Step(g, v, i).ht] > 1
  {
    var child := Step(g, v, i);
    assert [i][1..] == [];
    assert Reach(g, child, []) == Some(child);
    if child.ZArr? {
      assert Entered(g, child, [], child.ht) == 0;
      assert Entered(g, v, [i], child.ht) == 1;
    }
  }

  /** A longer path is cut as its rest is from the first step on, with the counter of that step raised. */
  lemma CutLater(g: Graph, c: Counts, v: ZVal, path: seq<nat>)
    requires Closed(g) && c.Keys == g.Keys && Inside(g, v) && |path| > 1 && Reach(g, v, path).Some?
    ensures v.ZArr? && path[0] < |g[v.ht].entries|
    ensures var child := Step(g, v, path[0]);
      && Reach(g, child, path[1..]) == Reach(g, v, path)
      && (Cut(g, c, v, path) <==> Cut(g, Raised(c, child), child, path[1..]))
  {
  }

  lemma NothingCut(g: Graph, c: Counts, v: ZVal)
    requires Closed(g) && c.Keys == g.Keys && Inside(g, v)
    ensures Reach(g, v, []) == Some(v) && !Cut(g, c, v, [])
  {
  }

  lemma OpenLater(g: Graph, c: Counts, v: ZVal, path: seq<nat>)
    requires Closed(g) && c.Keys == g.Keys && Inside(g, v) && path != [] && Open(g, c, v, path)
    ensures v.ZArr? && path[0] < |g[v.ht].entries|
    ensures var child := Step(g, v, path[0]); Open(g, Raised(c, child), child, path[1..])
  {
    hide Cut;
    var child, rest := Step(g, v, path[0]), path[1..];
    forall i | 0 <= i < |rest|
      ensures Reach(g, child, rest[..i]).Some? && !Cut(g, Raised(c, child), child, rest[..i])
    {
      if i == 0 {
        NothingCut(g, Raised(c, child), child);
      } else {
        assert path[..i + 1][1..] == rest[..i];
        assert !Cut(g, c, v, path[..i + 1]);
        CutLater(g, c, v, path[..i + 1]);
      }
    }
  }

  lemma RootShown(g: Graph, c: Counts, v: ZVal)
    requires SaneHeap(g) && SaneZ(v) && Inside(g, v) && c.Keys == g.Keys
    ensures Shows(g, c, v, [], Decoded(Unfold(g, c, v)))
  {
    hide Cut, TableShown, IsHash, Sane;
    NothingCut(g, c, v);
    if v.ZArr? {
      UnfoldSane(g, c, v);
      UnfoldKeys(g, c, v.ht);
      DecodedTableShown(Unfold(g, c, v), g[v.ht].entries, g[v.ht].next);
    }
  }

  lemma SlotSeen(g: Graph, c: Counts, child: ZVal)
    requires Closed(g) && c.Keys == g.Keys && Inside(g, child)
    ensures UnfoldSlot(g, c, child)
      == if child.ZArr? && c[child.ht] > 1 then PNull else Unfold(g, Raised(c, child), child)
  {
    hide Unfold;
    if child.ZArr? && c[child.ht] <= 1 {
      EnterSpends(g, c, child.ht);
    }
  }

  lemma PastCut(g: Graph, c: Counts, v: ZVal, path: seq<nat>)
    requires Closed(g) && c.Keys == g.Keys && Inside(g, v) && |path| > 1 && Open(g, c, v, path)
    ensures v.ZArr? && path[0] < |g[v.ht].entries|
    ensures var child := Step(g, v, path[0]); !(child.ZArr? && c[child.ht] > 1)
  {
    hide Cut;
    CutLater(g, c, v, path);
    assert path[..1] == [path[0]];
    CutFirst(g, c, v, path[0]);
    assert !Cut(g, c, v, path[..1]);
  }

  lemma HeapFacts(g: Graph, t: HashTable, i: nat)
    requires SaneHeap(g) && t in g && i < |g[t].entries|
    ensures Closed(g) && SaneZ(g[t].entries[i].val)
  {
  }

  lemma UnfoldTable(g: Graph, c: Counts, t: HashTable, i: nat)
    requires Closed(g) && c.Keys == g.Keys && t in g && i < |g[t].entries|
    ensures var p := Unfold(g, c, ZArr(t));
      && p.PTable? && p.next == g[t].next && KeysOf(p.entries) == KeysOf(g[t].entries)
      && |p.entries| == |g[t].entries| && p.entries[i].val == UnfoldSlot(g, c, Step(g, ZArr(t), i))
  {
    hide UnfoldSlot;
    UnfoldKeys(g, c, t);
  }

  lemma LastShown(g: Graph, c: Counts, v: ZVal, i: nat)
    requires SaneHeap(g) && c.Keys == g.Keys && Inside(g, v) && v.ZArr? && i < |g[v.ht].entries|
    ensures Reach(g, v, [i]).Some?
    ensures Shows(g, c, v, [i], Decoded(UnfoldSlot(g, c, Step(g, v, i))))
  {
    hide Cut, TableShown, Unfold, UnfoldSlot, SaneZ;
    var child := Step(g, v, i);
    CutFirst(g, c, v, i);
    SlotSeen(g, c, child);
    HeapFacts(g, v.ht, i);
    if child.ZArr? && c[child.ht] > 1 {
      assert Decoded(PNull) == PNull;
    } else {
      RootShown(g, Raised(c, child), child);
      NothingCut(g, Raised(c, child), child);
    }
  }

  lemma ShowsLater(g: Graph, c: Counts, v: ZVal, path: seq<nat>, w: PVal)
    requires Closed(g) && c.Keys == g.Keys && Inside(g, v) && |path| > 1 && Reach(g, v, path).Some?
    ensures v.ZArr? && path[0] < |g[v.ht].entries|
    ensures var child := Step(g, v, path[0]);
      && Reach(g, child, path[1..]).Some?
      && (Shows(g, Raised(c, child), child, path[1..], w) ==> Shows(g, c, v, path, w))
  {
    hide Cut, TableShown;
    CutLater(g, c, v, path);
  }

  /** What the guarded walk sees agrees with the heap at the end of every open path. */
  lemma {:induction false} WalkShows(g: Graph, c: Counts, v: ZVal, path: seq<nat>, names: seq<Key>)
    requires SaneHeap(g) && SaneZ(v) && Inside(g, v) && c.Keys == g.Keys
    requires Open(g, c, v, path) && Named(g, v, path, names)
    ensures var w := Decoded(Unfold(g, c, v));
      NodeAt(w, names).Some? && Shows(g, c, v, path, NodeAt(w, names).value)
    decreases |path|
  {
    hide Cut, Shows, FoundAs, Decoded, Unfold, UnfoldSlot, Sane, SaneZ, SaneKey, TableOk, Find, KeysOf;
    if path == [] {
      RootShown(g, c, v);
    } else {
      var t, i, k := v.ht, path[0], names[0];
      var p, child, rest := Unfold(g, c, v), Step(g, v, path[0]), path[1..];
      HeapFacts(g, t, i);
      UnfoldSane(g, c, v);
      UnfoldTable(g, c, t, i);
      ChildFound(p, g[t].entries, g[t].next, i, k);
      SlotSeen(g, c, child);
      if rest == [] {
        assert path == [i];
        LastShown(g, c, v, i);
      } else {
        PastCut(g, c, v, path);
        OpenLater(g, c, v, path);
        CutLater(g, c, v, path);
        WalkShows(g, Raised(c, child), child, rest, names[1..]);
        ShowsLater(g, c, v, path, NodeAt(Decoded(p), names).value);
      }
    }
  }

  /** On every heap: what a value is packed to unpacks to a value that agrees with it at the end of every open path. */
  lemma WalkMirrors(g: Graph, c: Counts, v: ZVal)
    requires SaneHeap(g) && SaneZ(v) && Inside(g, v) && c.Keys == g.Keys
    ensures Mirrors(g, c, v, Decoded(Unfold(g, c, v)))
  {
    hide Cut, Shows, Named, NodeAt, Unfold, Decoded, SaneZ, SaneKey, TableOk;
    forall path, names | Open(g, c, v, path) && Named(g, v, path, names)
      ensures var w := Decoded(Unfold(g, c, v)); NodeAt(w, names).Some? && Shows(g, c, v, path, NodeAt(w, names).value)
    {
      WalkShows(g, c, v, path, names);
    }
  }

  /** The bytes are one element, and unpack to a value that agrees with the heap at the end of every open path. */
  ghost predicate PackedAs(g: Graph, c: Counts, v: ZVal, bytes: Bytes)
    requires Closed(g) && c.Keys == g.Keys && Inside(g, v)
  {
    Unpack(bytes).Got? && Unpack(bytes).rest == [] && Mirrors(g, c, v, Unpack(bytes).v)
  }

  lemma EncodedMirrors(g: Graph, c: Counts, v: ZVal)
    requires SaneHeap(g) && SaneZ(v) && Inside(g, v) && c.Keys == g.Keys
    ensures PackedAs(g, c, v, Encode(Unfold(g, c, v)))
  {
    hide Mirrors, Unfold, Decoded, SaneZ, SaneKey, TableOk, Sane, Encode, Unpack;
    var p := Unfold(g, c, v);
    UnfoldSane(g, c, v);
    PackUnpack(p, []);
    assert Encode(p) + [] == Encode(p);
    WalkMirrors(g, c, v);
  }

  // ---- a list that holds itself ----

  /** The list `[1, itself]`. */
  ghost function LoopList(t: HashTable): Graph {
    map[t := Image([Entry(IntKey(0), ZLong(1)), Entry(IntKey(1), ZArr(t))], 2)]
  }

  ghost function Once(v: PVal): PVal {
    PTable([Entry(IntKey(0), PLong(1)), Entry(IntKey(1), v)], 2)
  }

  lemma LoopScalar(g: Graph, c: Counts)
    requires Closed(g) && c.Keys == g.Keys
    ensures UnfoldSlot(g, c, ZLong(1)) == PLong(1)
  {
  }

  lemma LoopSeen(t: HashTable, c: Counts)
    requires c.Keys == {t}
    ensures var g := LoopList(t);
      Closed(g) && Unfold(g, c, ZArr(t)) == Once(UnfoldSlot(g, c, ZArr(t)))
  {
    hide UnfoldSlot, Barred;
    var g := LoopList(t);
    var p := Unfold(g, c, ZArr(t));
    assert UnfoldSlot(g, c, ZLong(1)) == PLong(1) by { LoopScalar(g, c); }
    assert p.entries == Once(UnfoldSlot(g, c, ZArr(t))).entries;
  }

  lemma OnceIsList(keys: seq<Key>)
    requires keys == [IntKey(0), IntKey(1)]
    ensures !IsHash(keys, 2)
  {
  }

  lemma OneEncoded()
    ensures Encode(PLong(1)) == [0x01]
  {
  }

  lemma ListEncoded(p: PVal)
    requires p.PTable? && !IsHash(KeysOf(p.entries), p.next)
    ensures Encode(p) == EncodeArray(|p.entries|) + EncodeSlots(p, |p.entries|)
  {
    hide IsHash;
  }

  lemma OnceEncoded(v: PVal)
    ensures Encode(Once(v)) == [0x92, 0x01] + Encode(v)
  {
    hide Encode, IsHash;
    var p := Once(v);
    var keys := KeysOf(p.entries);
    assert keys == [IntKey(0), IntKey(1)];
    assert !IsHash(keys, 2) by { OnceIsList(keys); }
    assert IndexOf(keys, IntKey(0)) == 0 && IndexOf(keys, IntKey(1)) == 1;
    assert EncodeSlots(p, 0) == [];
    assert EncodeSlot(p, 0) == Encode(PLong(1)) && EncodeSlot(p, 1) == Encode(v);
    assert Encode(PLong(1)) == [0x01] by { OneEncoded(); }
    assert EncodeSlots(p, 2) == [] + [0x01] + Encode(v);
    assert Encode(p) == EncodeArray(2) + EncodeSlots(p, 2) by { ListEncoded(p); }
  }

  lemma NullEncoded()
    ensures Encode(PNull) == [0xc0]
  {
  }

  /** The list `[1, itself]` is packed three tables deep, with nil where it would be entered once more. */
  lemma LoopPacked(t: HashTable)
    ensures var g, c := LoopList(t), map[t := 0];
      Closed(g) && Encode(Unfold(g, c, ZArr(t))) == [0x92, 0x01, 0x92, 0x01, 0x92, 0x01, 0xc0]
  {
    hide Encode, Unfold, UnfoldSlot, Once, Budget;
    var g := LoopList(t);
    var c0: Counts, c1: Counts, c2: Counts := map[t := 0], map[t := 1], map[t := 2];
    LoopSeen(t, c0);
    LoopSeen(t, c1);
    LoopSeen(t, c2);
    assert Enter(c0, t) == c1 && Enter(c1, t) == c2;
    SlotSeen(g, c0, ZArr(t));
    SlotSeen(g, c1, ZArr(t));
    SlotSeen(g, c2, ZArr(t));
    OnceEncoded(Once(Once(PNull)));
    OnceEncoded(Once(PNull));
    OnceEncoded(PNull);
    assert Encode(PNull) == [0xc0] by { NullEncoded(); }
  }
}
