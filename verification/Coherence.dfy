/** The allocated cache as a plain one: each load and the flush do to it what the run of events says. */
module Coherence {
  import opened ByteStrings
  import opened Proto
  import opened PairTables
  import opened Rows
  import opened Schema
  import opened Catalogue

  // ---- one table against a catalogue ----

  lemma ShelvedViewOf<R>(t: Table<R>)
    requires Shelved(t)
    ensures ShelvedView(ViewOf(t))
  {
    hide NumberKey;
  }

  ghost predicate NamesListed(names: seq<Named>, m: map<Bytes, U32>) {
    forall i :: 0 <= i < |names| ==> names[i].0 in m && m[names[i].0] == names[i].1
  }

  lemma ListedOver<R>(t: Table<R>, m: map<Bytes, U32>)
    requires Numbered(m)
    ensures Apart(m.Keys, m.Values)
    ensures Listed(ViewOf(t), m) ==> Over(t, m.Keys, m.Values)
  {
    hide NumberKey;
    forall name, number | name in m.Keys && number in m.Values ensures name != NumberKey(number) {
      var b :| b in m && m[b] == number;
    }
    if Listed(ViewOf(t), m) {
      forall k | k in t ensures t[k].name in m.Keys && t[k].number in m.Values {
        assert k in ViewOf(t);
        assert t[k].name in m;
      }
    }
  }

  lemma {:induction false} AddNamedListed(v: View, names: seq<Named>, m: map<Bytes, U32>)
    requires ShelvedView(v) && Listed(v, m) && Numbered(m) && NamesListed(names, m)
    ensures ShelvedView(AddNamed(v, names)) && Listed(AddNamed(v, names), m)
  {
    if names != [] {
      hide AddView, ShelvedView, Listed, Numbered;
      var n := |names| - 1;
      AddNamedListed(v, names[..n], m);
      AddViewListed(AddNamed(v, names[..n]), m, names[n].0, names[n].1);
    }
  }

  /** Faithful additions keep a table in agreement with the catalogue, and its entries under names backed by numbers. */
  lemma AddAllListed<R>(t: Table<R>, added: seq<Node<R>>, names: seq<Named>, m: map<Bytes, U32>)
    requires Shelved(t) && Freshly(t, added) && Backed(t) && Listed(ViewOf(t), m) && Numbered(m)
    requires NodesOf(added, names) && NamesListed(names, m)
    ensures Listed(ViewOf(AddAll(t, added)), m) && Backed(AddAll(t, added))
    ensures ViewOf(AddAll(t, added)) == AddNamed(ViewOf(t), names)
  {
    hide Shelved, Freshly, Backed, ViewOf, Numbered, Listed, AddAll, Over, Apart, ShelvedView;
    ViewOfAddAll(t, added, names);
    ShelvedViewOf(t);
    AddNamedListed(ViewOf(t), names, m);
    ListedOver(t, m);
    forall i | 0 <= i < |added| ensures added[i].name in m.Keys && added[i].number in m.Values {
      assert (added[i].name, added[i].number) == names[i];
    }
    AddAllBacked(t, added, m.Keys, m.Values);
  }

  /** A table that agrees with a catalogue is flushed without loss: every record is released once. */
  lemma ListedReleasesAll<R>(t: Table<R>, order: seq<Bytes>, m: map<Bytes, U32>)
    requires Shelved(t) && Backed(t) && Listed(ViewOf(t), m) && Numbered(m) && IsOrder(order, t)
    ensures ReleasesAll(t, order)
  {
    hide NumberKey, Shelved, Backed, IsOrder, ReleasesAll;
    forall k | k in t ensures t[k].name in m && m[t[k].name] == t[k].number {
      assert k in ViewOf(t);
    }
    BijectiveReleasesAll(t, order);
  }

  // ---- the abstraction ----

  ghost function NumbersOf(t: Table<SpaceRes>): set<U32> {
    set k | k in t && k == NumberKey(t[k].number) :: t[k].number
  }

  lemma NumbersAreKeys(t: Table<SpaceRes>, n: U32)
    ensures n in NumbersOf(t) <==> NumberKey(n) in t && t[NumberKey(n)].number == n
  {
    hide NumberKey;
    if n in NumbersOf(t) {
      var k :| k in t && k == NumberKey(t[k].number) && t[k].number == n;
    }
  }

  /** What lies under a space number, given the views of the index tables. */
  ghost function ViewUnder(t: Table<SpaceRes>, f: map<IndexTable, View>, n: U32): View {
    if NumberKey(n) in t && t[NumberKey(n)].res.index in f then f[t[NumberKey(n)].res.index] else map[]
  }

  ghost function IndexesUnder(t: Table<SpaceRes>, f: map<IndexTable, View>): map<U32, View> {
    map n | n in NumbersOf(t) :: ViewUnder(t, f, n)
  }

  /** The plain cache behind a space table whose index tables have the views `f`. */
  ghost function AbsOf(t: Table<SpaceRes>, f: map<IndexTable, View>): Cache {
    Cache(ViewOf(t), IndexesUnder(t, f))
  }

  type Tables = map<IndexTable, Table<NameBuffer>>

  ghost function ViewsOf(inner: Tables): map<IndexTable, View> {
    map t | t in inner :: ViewOf(inner[t])
  }

  ghost function Abs(cache: SchemaCache): Cache
    reads cache, cache.Tables()
  {
    AbsOf(cache.nodes, ViewsOf(cache.Inner()))
  }

  ghost predicate TidyIndex(t: Table<NameBuffer>, space: U32, cat: Catalog) {
    Backed(t) && Listed(ViewOf(t), IndexesOf(cat, space))
  }

  ghost predicate TidyOf(t: Table<SpaceRes>, inner: Tables, cat: Catalog) {
    && Backed(t) && Listed(ViewOf(t), cat.spaces)
    && forall k :: k in t ==> t[k].res.index in inner && TidyIndex(inner[t[k].res.index], t[k].number, cat)
  }

  /**
   The cache agrees with the catalogue, and at both levels entries under names are backed by entries under numbers.
   */
  ghost predicate Tidy(cache: SchemaCache, cat: Catalog)
    reads cache, cache.Tables()
  {
    TidyOf(cache.nodes, cache.Inner(), cat)
  }

  lemma EmptyTidy(cache: SchemaCache, cat: Catalog)
    requires cache.nodes == map[]
    ensures Tidy(cache, cat) && Abs(cache) == EMPTY
  {
  }

  lemma TidyAgrees(cache: SchemaCache, cat: Catalog)
    requires cache.Valid() && Tidy(cache, cat)
    ensures Agrees(Abs(cache), cat)
  {
    hide NumberKey, ShelvedView, Listed, Shelved, Backed, NumbersOf;
    ShelvedViewOf(cache.nodes);
    var c := Abs(cache);
    forall n | n in c.indexes ensures ShelvedView(c.indexes[n]) && Listed(c.indexes[n], IndexesOf(cat, n)) {
      NumbersAreKeys(cache.nodes, n);
      var node := cache.nodes[NumberKey(n)];
      assert TidyIndex(node.res.index.nodes, n, cat);
      ShelvedViewOf(node.res.index.nodes);
    }
  }

  lemma SidIsAnswer(cache: SchemaCache, name: Bytes)
    ensures cache.Sid(name) == Answer(Abs(cache).spaces, name)
  {
    hide NumberKey, IndexesUnder;
  }

  /** Below a space number that is not the image of a space name, lookups see the indexes of that space. */
  lemma IidIsAnswer(cache: SchemaCache, space: U32, name: Bytes, cat: Catalog)
    requires Shelved(cache.nodes) && Tidy(cache, cat) && NumberKey(space) !in cat.spaces
    ensures cache.Iid(space, name) == Answer(IndexView(Abs(cache), space), name)
  {
    hide NumberKey, NumbersOf, Backed, TidyIndex;
    NumbersAreKeys(cache.nodes, space);
    var k := NumberKey(space);
    if k in cache.nodes {
      assert k in ViewOf(cache.nodes);
      Image32InjectiveKey(space, cache.nodes[k].number);
    }
  }

  // ---- loading spaces ----

  /** No clash arises when `node` joins the table. */
  ghost predicate Joins(t: Table<SpaceRes>, node: Node<SpaceRes>) {
    && node.name != NumberKey(node.number)
    && forall k :: k in t ==> node.name != NumberKey(t[k].number) && t[k].name != NumberKey(node.number)
  }

  lemma NumberAfterAdd(t: Table<SpaceRes>, node: Node<SpaceRes>, f: map<IndexTable, View>, n: U32)
    requires Joins(t, node) && node.res.index in f && f[node.res.index] == map[]
    ensures n in NumbersOf(Add(t, node)) <==> n in NumbersOf(t) || n == node.number
    ensures n in NumbersOf(Add(t, node)) ==>
      ViewUnder(Add(t, node), f, n) == if n == node.number then map[] else ViewUnder(t, f, n)
  {
    hide NumberKey, NumbersOf;
    var u := Add(t, node);
    NumbersAreKeys(t, n);
    NumbersAreKeys(u, n);
    if n != node.number && NumberKey(n) == NumberKey(node.number) {
      Image32InjectiveKey(n, node.number);
    }
  }

  lemma AbsOfAdd(t: Table<SpaceRes>, node: Node<SpaceRes>, f: map<IndexTable, View>, row: SpaceRow)
    requires Joins(t, node) && node.name == row.name && node.number == row.number
    requires node.res.index in f && f[node.res.index] == map[]
    ensures AbsOf(Add(t, node), f) == LoadSpace(AbsOf(t, f), row)
  {
    hide NumberKey, NumbersOf, Joins, ViewOf, AddView, Add, ViewUnder;
    ViewOfAdd(t, node);
    forall n: U32
      ensures n in NumbersOf(Add(t, node)) <==> n in NumbersOf(t) || n == node.number
      ensures n in NumbersOf(Add(t, node)) ==>
        ViewUnder(Add(t, node), f, n) == if n == node.number then map[] else ViewUnder(t, f, n)
    {
      NumberAfterAdd(t, node, f, n);
    }
    assert IndexesUnder(Add(t, node), f) == IndexesUnder(t, f)[node.number := map[]];
  }

  lemma OverJoins(t: Table<SpaceRes>, node: Node<SpaceRes>, names: set<Bytes>, numbers: set<U32>)
    requires Over(t, names, numbers) && Apart(names, numbers) && node.name in names && node.number in numbers
    ensures Joins(t, node)
  {
    hide NumberKey;
  }

  lemma InitMatches<R>(added: seq<Node<R>>, rows: seq<SpaceRow>, m: map<Bytes, U32>)
    requires |rows| > 0 && NodesOf(added, SpaceNames(rows)) && NamesListed(SpaceNames(rows), m)
    ensures var n := |rows| - 1;
      |added| == |rows| && NodesOf(added[..n], SpaceNames(rows[..n])) && NamesListed(SpaceNames(rows[..n]), m)
  {
    assert SpaceNames(rows[..|rows| - 1]) == SpaceNames(rows)[..|rows| - 1];
  }

  lemma AddedOver<R>(added: seq<Node<R>>, rows: seq<SpaceRow>, m: map<Bytes, U32>)
    requires NodesOf(added, SpaceNames(rows)) && NamesListed(SpaceNames(rows), m)
    ensures forall i :: 0 <= i < |added| ==>
      && added[i].name in m.Keys && added[i].number in m.Values
      && added[i].name == rows[i].name && added[i].number == rows[i].number
  {
    forall i | 0 <= i < |added|
      ensures added[i].name in m.Keys && added[i].number in m.Values
      ensures added[i].name == rows[i].name && added[i].number == rows[i].number
    {
      assert SpaceNames(rows)[i] == (rows[i].name, rows[i].number);
    }
  }

  lemma {:induction false} AbsOfAddAll(t: Table<SpaceRes>, added: seq<Node<SpaceRes>>, rows: seq<SpaceRow>,
      f: map<IndexTable, View>,
      m: map<Bytes, U32>)
    requires Shelved(t) && Freshly(t, added) && Listed(ViewOf(t), m) && Numbered(m)
    requires NodesOf(added, SpaceNames(rows)) && NamesListed(SpaceNames(rows), m)
    requires forall i :: 0 <= i < |added| ==> added[i].res.index in f && f[added[i].res.index] == map[]
    ensures AbsOf(AddAll(t, added), f) == LoadSpaces(AbsOf(t, f), rows)
  {
    if added != [] {
      hide NumberKey, Shelved, Listed, ViewOf, Numbered, NumbersOf, AbsOf, Joins, Add, LoadSpace, Over, Apart, NodesOf;
      InitMatches(added, rows, m);
      var n := |rows| - 1;
      AbsOfAddAll(t, added[..n], rows[..n], f, m);
      ListedOver(t, m);
      AddedOver(added, rows, m);
      AddAllOver(t, added[..n], m.Keys, m.Values);
      OverJoins(AddAll(t, added[..n]), added[n], m.Keys, m.Values);
      AbsOfAdd(AddAll(t, added[..n]), added[n], f, rows[n]);
    }
  }

  lemma AbsSame(t: Table<SpaceRes>, f: map<IndexTable, View>, g: map<IndexTable, View>)
    requires forall k :: k in t ==> t[k].res.index in f && t[k].res.index in g && f[t[k].res.index] == g[t[k].res.index]
    ensures AbsOf(t, f) == AbsOf(t, g)
  {
    hide NumberKey, NumbersOf, ViewOf;
    assert forall n :: ViewUnder(t, f, n) == ViewUnder(t, g, n);
  }

  lemma FaithfulNames(rows: seq<SpaceRow>, cat: Catalog)
    requires FaithfulSpaces(rows, cat)
    ensures NamesListed(SpaceNames(rows), cat.spaces)
  {
  }

  /** `now` holds the index tables after a load of spaces: those that are left of `was`, and new ones that are empty. */
  ghost predicate Renewed(t: Table<SpaceRes>, was: Tables, added: seq<Node<SpaceRes>>, now: Tables) {
    && (forall k :: k in AddAll(t, added) ==> AddAll(t, added)[k].res.index in now)
    && (forall x :: x in was && x in now ==> now[x] == was[x])
    && forall i :: 0 <= i < |added| ==>
        added[i].res.index !in was && (added[i].res.index in now ==> now[added[i].res.index] == map[])
  }

  lemma EmptyIndexTidy(space: U32, cat: Catalog)
    ensures TidyIndex(map[], space, cat)
  {
  }

  lemma SpacesStayTidy(t: Table<SpaceRes>, was: Tables, added: seq<Node<SpaceRes>>, now: Tables, rows: seq<SpaceRow>,
      cat: Catalog)
    requires Good(cat) && FaithfulSpaces(rows, cat) && Shelved(t) && TidyOf(t, was, cat)
    requires Freshly(t, added) && NodesOf(added, SpaceNames(rows)) && Renewed(t, was, added, now)
    ensures TidyOf(AddAll(t, added), now, cat)
  {
    hide NumberKey, Shelved, Freshly, Backed, ViewOf, Numbered, Listed, AddAll;
    FaithfulNames(rows, cat);
    AddAllListed(t, added, SpaceNames(rows), cat.spaces);
    AddAllFrom(t, added);
    var u := AddAll(t, added);
    forall k | k in u ensures TidyIndex(now[u[k].res.index], u[k].number, cat) {
      if !(k in t && u[k] == t[k]) {
        EmptyIndexTidy(u[k].number, cat);
      }
    }
  }

  lemma EmptyViewOf<R>()
    ensures ViewOf<R>(map[]) == map[]
  {
  }

  /** A load of catalogued spaces does to the plain cache what the event says. */
  lemma SpacesLoaded(t: Table<SpaceRes>, was: Tables, added: seq<Node<SpaceRes>>, now: Tables, rows: seq<SpaceRow>,
      cat: Catalog)
    requires Good(cat) && FaithfulSpaces(rows, cat) && Shelved(t) && TidyOf(t, was, cat)
    requires Freshly(t, added) && NodesOf(added, SpaceNames(rows)) && Renewed(t, was, added, now)
    ensures AbsOf(AddAll(t, added), ViewsOf(now)) == LoadSpaces(AbsOf(t, ViewsOf(was)), rows)
  {
    hide NumberKey, Shelved, Freshly, Backed, ViewOf, Numbered, Listed, AbsOf, AddAll, LoadSpaces, TidyIndex;
    FaithfulNames(rows, cat);
    AddAllFrom(t, added);
    EmptyViewOf<NameBuffer>();
    var g := map x | x in was.Keys + (set i | 0 <= i < |added| :: added[i].res.index) ::
      if x in was then ViewOf(was[x]) else map[];
    AbsOfAddAll(t, added, rows, g, cat.spaces);
    AbsSame(t, g, ViewsOf(was));
    AbsSame(AddAll(t, added), g, ViewsOf(now));
  }

  // ---- loading indexes ----

  lemma {:induction false} LoadIndexesUnder(c: Cache, rows: seq<IndexRow>, n: U32, ks: set<Bytes>)
    requires n in c.indexes && forall i :: 0 <= i < |rows| ==> (NumberKey(rows[i].space) in ks <==> rows[i].space == n)
    ensures n in LoadIndexes(c, rows).indexes
    ensures LoadIndexes(c, rows).indexes[n] == AddNamed(c.indexes[n], NamesUnder(rows, ks))
  {
    if rows != [] {
      hide NumberKey, AddView;
      LoadIndexesUnder(c, rows[..|rows| - 1], n, ks);
    }
  }

  lemma {:induction false} LoadIndexesKeeps(c: Cache, rows: seq<IndexRow>)
    ensures LoadIndexes(c, rows).spaces == c.spaces && LoadIndexes(c, rows).indexes.Keys == c.indexes.Keys
  {
    if rows != [] {
      hide AddView;
      LoadIndexesKeeps(c, rows[..|rows| - 1]);
    }
  }

  /** Entries of one number in a tidy table are halves of one record. */
  lemma SameRecord<R>(t: Table<R>, k: Bytes, l: Bytes, m: map<Bytes, U32>)
    requires Shelved(t) && Backed(t) && Listed(ViewOf(t), m) && Numbered(m)
    requires k in t && l in t && t[k].number == t[l].number && l == NumberKey(t[l].number)
    ensures t[k] == t[l]
  {
    hide NumberKey;
    assert k in ViewOf(t) && l in ViewOf(t);
    assert t[k].name == t[l].name;
  }

  /** The keys that share an index table include the image of just one catalogued space number. */
  lemma OneSpacePerTable(cache: SchemaCache, k: Bytes, space: U32, cat: Catalog)
    requires Shelved(cache.nodes) && Owned(cache.nodes)
    requires Good(cat) && Listed(ViewOf(cache.nodes), cat.spaces) && Backed(cache.nodes)
    requires k in cache.nodes && space in cat.indexes && NumberKey(space) in cache.nodes
    ensures NumberKey(space) in cache.KeysOfTable(cache.nodes[k].res.index) <==> space == cache.nodes[k].number
  {
    hide NumberKey;
    var t, m := cache.nodes, cat.spaces;
    assert k in ViewOf(t) && NumberKey(space) in ViewOf(t);
    var l := NumberKey(space);
    var b :| b in m && m[b] == space;
    assert t[l].name in m && l != t[l].name;
    Image32InjectiveKey(space, t[l].number);
    assert t[l].number == space;
    if space == t[k].number {
      assert m[t[k].name] == m[t[l].name];
      SameRecord(t, k, l, m);
    }
  }

  lemma {:induction false} UnderListed(rows: seq<IndexRow>, ks: set<Bytes>, n: U32, cat: Catalog)
    requires FaithfulIndexes(rows, cat)
    requires forall i :: 0 <= i < |rows| && NumberKey(rows[i].space) in ks ==> rows[i].space == n
    ensures NamesListed(NamesUnder(rows, ks), IndexesOf(cat, n))
  {
    if rows != [] {
      hide NumberKey;
      UnderListed(rows[..|rows| - 1], ks, n, cat);
    }
  }

  /** What a load of catalogued indexes does to the table of one space. */
  lemma IndexTableLoaded(cache: SchemaCache, was: Tables, added: map<IndexTable, seq<Node<NameBuffer>>>,
      rows: seq<IndexRow>, cat: Catalog, k: Bytes)
    requires Good(cat) && FaithfulIndexes(rows, cat) && Shelved(cache.nodes) && Owned(cache.nodes)
    requires TidyOf(cache.nodes, was, cat) && cache.Follows(was, rows, added) && k in cache.nodes
    requires Shelved(was[cache.nodes[k].res.index])
    ensures TidyIndex(cache.nodes[k].res.index.nodes, cache.nodes[k].number, cat)
    ensures var t := cache.nodes[k].res.index;
      ViewOf(t.nodes) == AddNamed(ViewOf(was[t]), NamesUnder(rows, cache.KeysOfTable(t)))
    ensures forall i :: 0 <= i < |rows| ==>
      (NumberKey(rows[i].space) in cache.KeysOfTable(cache.nodes[k].res.index) <==>
        rows[i].space == cache.nodes[k].number)
  {
    hide NumberKey, Shelved, Freshly, Backed, ViewOf, Numbered, Listed, AddAll, Owned, AddNamed, NamesUnder, NodesOf;
    var node := cache.nodes[k];
    var t := node.res.index;
    var ks := cache.KeysOfTable(t);
    forall i | 0 <= i < |rows| ensures NumberKey(rows[i].space) in ks <==> rows[i].space == node.number {
      OneSpacePerTable(cache, k, rows[i].space, cat);
    }
    UnderListed(rows, ks, node.number, cat);
    IndexesNumbered(cat, node.number);
    AddAllListed(was[t], added[t], NamesUnder(rows, ks), IndexesOf(cat, node.number));
  }

  /** A load of catalogued indexes keeps the cache tidy and does to the plain cache what the event says. */
  lemma IndexesLoaded(cache: SchemaCache, was: Tables, added: map<IndexTable, seq<Node<NameBuffer>>>,
      rows: seq<IndexRow>,
      cat: Catalog)
    requires Good(cat) && FaithfulIndexes(rows, cat) && Shelved(cache.nodes) && Owned(cache.nodes)
    requires TidyOf(cache.nodes, was, cat) && cache.Follows(was, rows, added)
    requires forall k :: k in cache.nodes ==> Shelved(was[cache.nodes[k].res.index])
    ensures Tidy(cache, cat) && Abs(cache) == LoadIndexes(AbsOf(cache.nodes, ViewsOf(was)), rows)
  {
    hide NumberKey, Shelved, Backed, ViewOf, Listed, Owned, AddNamed, NamesUnder, NumbersOf, LoadIndexes, Good,
      TidyIndex;
    var c, d := AbsOf(cache.nodes, ViewsOf(was)), Abs(cache);
    LoadIndexesKeeps(c, rows);
    forall k | k in cache.nodes ensures TidyIndex(cache.nodes[k].res.index.nodes, cache.nodes[k].number, cat) {
      IndexTableLoaded(cache, was, added, rows, cat, k);
    }
    forall n | n in c.indexes ensures d.indexes[n] == LoadIndexes(c, rows).indexes[n] {
      NumbersAreKeys(cache.nodes, n);
      var node := cache.nodes[NumberKey(n)];
      IndexTableLoaded(cache, was, added, rows, cat, NumberKey(n));
      LoadIndexesUnder(c, rows, n, cache.KeysOfTable(node.res.index));
    }
    assert d.indexes == LoadIndexes(c, rows).indexes;
  }

  /**
   The flush of a tidy cache loses nothing: every space record, and every record of every index table, is released once.
   */
  lemma TidyFlushesAll(cache: SchemaCache, order: seq<Bytes>, cat: Catalog)
    requires cache.Valid() && Tidy(cache, cat) && Good(cat)
    requires IsOrder(order, cache.nodes)
    ensures ReleasesAll(cache.nodes, order)
    ensures forall k, inner :: k in cache.nodes && IsOrder(inner, cache.nodes[k].res.index.nodes) ==>
      ReleasesAll(cache.nodes[k].res.index.nodes, inner)
  {
    hide NumberKey, Shelved, Backed, ViewOf, Listed, Owned, IsOrder, ReleasesAll, Numbered;
    ListedReleasesAll(cache.nodes, order, cat.spaces);
    forall k, inner | k in cache.nodes && IsOrder(inner, cache.nodes[k].res.index.nodes)
      ensures ReleasesAll(cache.nodes[k].res.index.nodes, inner)
    {
      assert TidyIndex(cache.nodes[k].res.index.nodes, cache.nodes[k].number, cat);
      IndexesNumbered(cat, cache.nodes[k].number);
      ListedReleasesAll(cache.nodes[k].res.index.nodes, inner, IndexesOf(cat, cache.nodes[k].number));
    }
  }

  /**
   The flush after any number of loads of catalogued records into an empty table, the table of spaces or that of the
   indexes of one space: a record is released exactly when it is the newest one loaded under its name. A record that
   was loaded again is overwritten in both its places and is lost with its name buffer and, for a space, with its
   index table.
   */
  lemma CataloguedHistoryReleases<R>(added: seq<Node<R>>, m: map<Bytes, U32>, order: seq<Bytes>, i: nat)
    requires Numbered(m) && Freshly(map[], added) && i < |added|
    requires forall j :: 0 <= j < |added| ==> added[j].name in m && m[added[j].name] == added[j].number
    requires IsOrder(order, AddAll(map[], added))
    ensures added[i].res in FlushTo(AddAll(map[], added), order, |order|).1 <==> Newest(added, i)
  {
    hide NumberKey, AddAll, FlushTo, IsOrder, Newest, Freshly;
    HistoryReleases(added, m.Keys, m.Values, order, i);
  }
}
