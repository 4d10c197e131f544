/**
 The cache seen from outside: names and numbers, without allocations; what every run of lookups, loads and flushes
 answers when the server's catalogue does not change.
 */
module Catalogue {
  import opened ByteStrings
  import opened Proto
  import opened PairTables
  import opened Rows
  import opened Schema

  /** Space names with their numbers, and per space number its index names with theirs. */
  datatype Catalog = Catalog(spaces: map<Bytes, U32>, indexes: map<U32, map<Bytes, U32>>)

  function IndexesOf(cat: Catalog, space: U32): map<Bytes, U32> {
    if space in cat.indexes then cat.indexes[space] else map[]
  }

  /** Names and numbers in bijection, and no name is the four bytes of a number: both kinds of key share one table. */
  ghost predicate Numbered(m: map<Bytes, U32>) {
    && (forall a, b :: a in m && b in m && m[a] == m[b] ==> a == b)
    && forall a, b :: a in m && b in m ==> a != NumberKey(m[b])
  }

  /** Only catalogued spaces have indexes. */
  ghost predicate Good(cat: Catalog) {
    && Numbered(cat.spaces)
    && (forall n :: n in cat.indexes ==> Numbered(cat.indexes[n]))
    && forall n :: n in cat.indexes ==> n in cat.spaces.Values
  }

  // ---- one table ----

  ghost predicate ShelvedView(v: View) {
    forall k :: k in v ==> k == v[k].0 || k == NumberKey(v[k].1)
  }

  /** Everything cached is catalogued. */
  ghost predicate Listed(v: View, m: map<Bytes, U32>) {
    forall k :: k in v ==> v[k].0 in m && m[v[k].0] == v[k].1
  }

  function Answer(v: View, name: Bytes): int {
    if name in v then ToInt32(v[name].1) else -1
  }

  /** -1 or exactly the number in the catalogue. */
  predicate Right(answer: int, m: map<Bytes, U32>, name: Bytes) {
    answer == -1 || (name in m && answer == ToInt32(m[name]))
  }

  /** The query is the four bytes of a catalogued number (other than 2^32 - 1, which reads as "not found"). */
  ghost predicate ImageOf(m: map<Bytes, U32>, name: Bytes) {
    exists b :: b in m && name == NumberKey(m[b]) && m[b] != TWO_32 - 1
  }

  lemma Image32InjectiveKey(a: U32, b: U32)
    requires NumberKey(a) == NumberKey(b)
    ensures a == b
  {
    Image32Injective(a, b);
  }

  /** The cache answers rightly exactly when the query is not the four-byte image of a catalogued number it holds. */
  lemma RightExactlyWhenNoImage(v: View, m: map<Bytes, U32>, name: Bytes)
    requires ShelvedView(v) && Listed(v, m) && Numbered(m)
    ensures Right(Answer(v, name), m, name) <==> !(name in v && ImageOf(m, name))
  {
    hide NumberKey;
    if name in v {
      var (own, number) := v[name];
      assert own in m && m[own] == number;
      if name == NumberKey(number) {
        assert name !in m;
        if ImageOf(m, name) {
          var b :| b in m && name == NumberKey(m[b]) && m[b] != TWO_32 - 1;
          Image32InjectiveKey(m[b], number);
        }
      }
    }
  }

  lemma NumberKeyOfOne()
    ensures NumberKey(1) == [1, 0, 0, 0]
  {
    ImageBytes(1);
  }

  /**
   With space "a" of number 1 cached, the query of its four-byte image is answered 1, though no space has that name.
   */
  lemma ImageAnswered()
    ensures var m: map<Bytes, U32>, v := map[[0x61] := 1], AddView(map[], [0x61], 1);
      var query: Bytes := [1, 0, 0, 0];
      && ShelvedView(v) && Listed(v, m) && Numbered(m)
      && query !in m && Answer(v, query) == 1 && !Right(Answer(v, query), m, query)
  {
    hide NumberKey;
    assert NumberKey(1) == [1, 0, 0, 0] by { NumberKeyOfOne(); }
  }

  /** Two caches that agree with the catalogue and both hold a key give it the same answer. */
  lemma SameAnswer(v: View, w: View, m: map<Bytes, U32>, name: Bytes)
    requires ShelvedView(v) && Listed(v, m) && ShelvedView(w) && Listed(w, m) && Numbered(m)
    requires name in v && name in w
    ensures Answer(v, name) == Answer(w, name)
  {
    hide NumberKey;
    var (a, i) := v[name];
    var (b, j) := w[name];
    assert a in m && m[a] == i && b in m && m[b] == j;
    if name == NumberKey(i) && name == NumberKey(j) {
      Image32InjectiveKey(i, j);
    }
  }

  lemma AddViewListed(v: View, m: map<Bytes, U32>, name: Bytes, number: U32)
    requires ShelvedView(v) && Listed(v, m) && Numbered(m) && name in m && m[name] == number
    ensures var w := AddView(v, name, number);
      ShelvedView(w) && Listed(w, m) && v.Keys <= w.Keys && name in w && Answer(w, name) == ToInt32(number)
  {
    hide NumberKey;
  }

  // ---- the whole cache ----

  /** The index views are those found under space numbers. */
  datatype Cache = Cache(spaces: View, indexes: map<U32, View>)

  const EMPTY := Cache(map[], map[])

  function IndexView(c: Cache, space: U32): View {
    if space in c.indexes then c.indexes[space] else map[]
  }

  ghost predicate Agrees(c: Cache, cat: Catalog) {
    && ShelvedView(c.spaces) && Listed(c.spaces, cat.spaces)
    && forall n :: n in c.indexes ==> ShelvedView(c.indexes[n]) && Listed(c.indexes[n], IndexesOf(cat, n))
  }

  /** A space row that the cache takes in starts with no indexes, also when the space was known before. */
  function LoadSpace(c: Cache, row: SpaceRow): Cache {
    Cache(AddView(c.spaces, row.name, row.number), c.indexes[row.number := map[]])
  }

  function LoadSpaces(c: Cache, rows: seq<SpaceRow>): Cache {
    if rows == [] then c else LoadSpace(LoadSpaces(c, rows[..|rows| - 1]), rows[|rows| - 1])
  }

  /** An index row joins the indexes of its space. */
  function LoadIndex(c: Cache, row: IndexRow): Cache {
    if row.space in c.indexes
    then Cache(c.spaces, c.indexes[row.space := AddView(c.indexes[row.space], row.name, row.number)]) else c
  }

  function LoadIndexes(c: Cache, rows: seq<IndexRow>): Cache {
    if rows == [] then c else LoadIndex(LoadIndexes(c, rows[..|rows| - 1]), rows[|rows| - 1])
  }

  ghost predicate FaithfulSpaces(rows: seq<SpaceRow>, cat: Catalog) {
    forall i :: 0 <= i < |rows| ==> rows[i].name in cat.spaces && cat.spaces[rows[i].name] == rows[i].number
  }

  ghost predicate FaithfulIndexes(rows: seq<IndexRow>, cat: Catalog) {
    forall i :: 0 <= i < |rows| ==>
      rows[i].name in IndexesOf(cat, rows[i].space) && IndexesOf(cat, rows[i].space)[rows[i].name] == rows[i].number
  }

  ghost predicate Grows(c: Cache, d: Cache) {
    && c.spaces.Keys <= d.spaces.Keys && c.indexes.Keys <= d.indexes.Keys
  }

  lemma EmptyView(m: map<Bytes, U32>)
    ensures ShelvedView(map[]) && Listed(map[], m)
  {
  }

  lemma LoadSpaceAgrees(c: Cache, row: SpaceRow, cat: Catalog)
    requires Good(cat) && Agrees(c, cat) && FaithfulSpaces([row], cat)
    ensures Agrees(LoadSpace(c, row), cat) && Grows(c, LoadSpace(c, row))
    ensures row.name in LoadSpace(c, row).spaces && Answer(LoadSpace(c, row).spaces, row.name) == ToInt32(row.number)
  {
    hide AddView, ShelvedView, Numbered, Listed, Answer;
    assert [row][0] == row;
    AddViewListed(c.spaces, cat.spaces, row.name, row.number);
    EmptyView(IndexesOf(cat, row.number));
  }

  lemma {:induction false} LoadSpacesAgrees(c: Cache, rows: seq<SpaceRow>, cat: Catalog)
    requires Good(cat) && Agrees(c, cat) && FaithfulSpaces(rows, cat)
    ensures Agrees(LoadSpaces(c, rows), cat) && Grows(c, LoadSpaces(c, rows))
  {
    if rows != [] {
      hide LoadSpace, Agrees, Good;
      LoadSpacesAgrees(c, rows[..|rows| - 1], cat);
      LoadSpaceAgrees(LoadSpaces(c, rows[..|rows| - 1]), rows[|rows| - 1], cat);
    }
  }

  /** Every space a load has taken in is answered with its number. */
  lemma {:induction false} LoadedSpaces(c: Cache, rows: seq<SpaceRow>, cat: Catalog, i: nat)
    requires Good(cat) && Agrees(c, cat) && FaithfulSpaces(rows, cat) && i < |rows|
    ensures var v := LoadSpaces(c, rows).spaces;
      rows[i].name in v && Answer(v, rows[i].name) == ToInt32(rows[i].number)
  {
    hide LoadSpace, Answer, ShelvedView, Listed, Numbered;
    var init, row := rows[..|rows| - 1], rows[|rows| - 1];
    var d := LoadSpaces(c, init);
    LoadSpacesAgrees(c, init, cat);
    LoadSpaceAgrees(d, row, cat);
    if i < |init| {
      LoadedSpaces(c, init, cat, i);
      SameAnswer(d.spaces, LoadSpace(d, row).spaces, cat.spaces, rows[i].name);
    }
  }

  lemma LoadIndexAgrees(c: Cache, row: IndexRow, cat: Catalog)
    requires Good(cat) && Agrees(c, cat) && FaithfulIndexes([row], cat)
    ensures var d := LoadIndex(c, row);
      Agrees(d, cat) && d.spaces == c.spaces && d.indexes.Keys == c.indexes.Keys
    ensures forall n :: n in c.indexes ==> c.indexes[n].Keys <= LoadIndex(c, row).indexes[n].Keys
    ensures row.space in c.indexes ==>
      var v := LoadIndex(c, row).indexes[row.space];
      row.name in v && Answer(v, row.name) == ToInt32(row.number)
  {
    hide AddView, ShelvedView, Numbered, Listed, Answer;
    assert [row][0] == row;
    if row.space in c.indexes {
      assert row.space in cat.indexes;
      AddViewListed(c.indexes[row.space], IndexesOf(cat, row.space), row.name, row.number);
    }
  }

  lemma {:induction false} LoadIndexesAgrees(c: Cache, rows: seq<IndexRow>, cat: Catalog)
    requires Good(cat) && Agrees(c, cat) && FaithfulIndexes(rows, cat)
    ensures var d := LoadIndexes(c, rows);
      Agrees(d, cat) && d.spaces == c.spaces && d.indexes.Keys == c.indexes.Keys
    ensures forall n :: n in c.indexes ==> c.indexes[n].Keys <= LoadIndexes(c, rows).indexes[n].Keys
  {
    if rows != [] {
      hide LoadIndex, Agrees, Good;
      LoadIndexesAgrees(c, rows[..|rows| - 1], cat);
      LoadIndexAgrees(LoadIndexes(c, rows[..|rows| - 1]), rows[|rows| - 1], cat);
    }
  }

  lemma IndexesNumbered(cat: Catalog, n: U32)
    requires Good(cat)
    ensures Numbered(IndexesOf(cat, n))
  {
  }

  /** Every index a load has taken in is answered with its number. */
  lemma {:induction false} LoadedIndexes(c: Cache, rows: seq<IndexRow>, cat: Catalog, i: nat)
    requires Good(cat) && Agrees(c, cat) && FaithfulIndexes(rows, cat) && i < |rows| && rows[i].space in c.indexes
    ensures rows[i].space in LoadIndexes(c, rows).indexes
    ensures var v := LoadIndexes(c, rows).indexes[rows[i].space];
      rows[i].name in v && Answer(v, rows[i].name) == ToInt32(rows[i].number)
  {
    hide LoadIndex, Answer, ShelvedView, Listed, Numbered, Good;
    var init, row, n := rows[..|rows| - 1], rows[|rows| - 1], rows[i].space;
    var d := LoadIndexes(c, init);
    LoadIndexesAgrees(c, init, cat);
    LoadIndexAgrees(d, row, cat);
    if i < |init| {
      LoadedIndexes(c, init, cat, i);
      IndexesNumbered(cat, n);
      SameAnswer(d.indexes[n], LoadIndex(d, row).indexes[n], IndexesOf(cat, n), rows[i].name);
    }
  }

  // ---- runs ----

  /**
   What happens to a cache. A resolver that misses asks the server and takes in the rows of the reply that could be
   loaded; `complete` tells that the exchange and the load went through. Bulk loads come with authentication.
   */
  datatype Event =
    | AskSpace(name: Bytes, spaces: seq<SpaceRow>, complete: bool)
    | AskIndex(space: U32, name: Bytes, indexes: seq<IndexRow>, complete: bool)
    | BulkSpaces(spaces: seq<SpaceRow>)
    | BulkIndexes(indexes: seq<IndexRow>)
    | FlushAll

  /** Whether a lookup goes to the server. */
  predicate Asks(c: Cache, e: Event) {
    match e
    case AskSpace(name, _, _) => Answer(c.spaces, name) == -1
    case AskIndex(space, name, _, _) => Answer(IndexView(c, space), name) == -1
    case _ => false
  }

  function After(c: Cache, e: Event): Cache {
    match e
    case AskSpace(_, rows, _) => if Asks(c, e) then LoadSpaces(c, rows) else c
    case AskIndex(_, _, rows, _) => if Asks(c, e) then LoadIndexes(c, rows) else c
    case BulkSpaces(rows) => LoadSpaces(c, rows)
    case BulkIndexes(rows) => LoadIndexes(c, rows)
    case FlushAll => EMPTY
  }

  /** What a lookup returns. */
  function Reply(c: Cache, e: Event): int {
    match e
    case AskSpace(name, _, complete) =>
      if Asks(c, e) && !complete then -1 else Answer(After(c, e).spaces, name)
    case AskIndex(space, name, _, complete) =>
      if Asks(c, e) && !complete then -1 else Answer(IndexView(After(c, e), space), name)
    case _ => -1
  }

  function Run(es: seq<Event>, i: nat): Cache
    requires i <= |es|
  {
    if i == 0 then EMPTY else After(Run(es, i - 1), es[i - 1])
  }

  lemma {:induction false} RunPrefix(es: seq<Event>, e: Event, i: nat)
    requires i <= |es|
    ensures Run(es + [e], i) == Run(es, i)
  {
    hide After;
    if i > 0 {
      RunPrefix(es, e, i - 1);
    }
  }

  /** One more event. */
  lemma RunMore(es: seq<Event>, e: Event)
    ensures Run(es + [e], |es|) == Run(es, |es|) && Run(es + [e], |es| + 1) == After(Run(es, |es|), e)
  {
    hide After;
    RunPrefix(es, e, |es|);
  }

  ghost predicate Faithful(e: Event, cat: Catalog) {
    match e
    case AskSpace(_, rows, _) => FaithfulSpaces(rows, cat)
    case AskIndex(_, _, rows, _) => FaithfulIndexes(rows, cat)
    case BulkSpaces(rows) => FaithfulSpaces(rows, cat)
    case BulkIndexes(rows) => FaithfulIndexes(rows, cat)
    case FlushAll => true
  }

  ghost predicate FaithfulRun(es: seq<Event>, cat: Catalog) {
    forall i :: 0 <= i < |es| ==> Faithful(es[i], cat)
  }

  lemma AfterAgrees(c: Cache, e: Event, cat: Catalog)
    requires Good(cat) && Agrees(c, cat) && Faithful(e, cat)
    ensures Agrees(After(c, e), cat) && (e.FlushAll? || Grows(c, After(c, e)))
  {
    hide LoadSpaces, LoadIndexes, Good, Answer;
    match e
    case AskSpace(_, rows, _) => LoadSpacesAgrees(c, rows, cat);
    case AskIndex(_, _, rows, _) => LoadIndexesAgrees(c, rows, cat);
    case BulkSpaces(rows) => LoadSpacesAgrees(c, rows, cat);
    case BulkIndexes(rows) => LoadIndexesAgrees(c, rows, cat);
    case FlushAll =>
  }

  /** In every run with a fixed catalogue the cache agrees with the catalogue after every event. */
  lemma {:induction false} RunAgrees(es: seq<Event>, i: nat, cat: Catalog)
    requires Good(cat) && FaithfulRun(es, cat) && i <= |es|
    ensures Agrees(Run(es, i), cat)
  {
    hide Good, After, Faithful;
    if i > 0 {
      RunAgrees(es, i - 1, cat);
      AfterAgrees(Run(es, i - 1), es[i - 1], cat);
    } else {
      EmptyView(cat.spaces);
    }
  }

  /** The number the catalogue has for what a lookup asks. */
  function Wanted(e: Event, cat: Catalog): map<Bytes, U32> {
    if e.AskIndex? then IndexesOf(cat, e.space) else cat.spaces
  }

  lemma IndexViewAgrees(c: Cache, n: U32, cat: Catalog)
    requires Agrees(c, cat)
    ensures ShelvedView(IndexView(c, n)) && Listed(IndexView(c, n), IndexesOf(cat, n))
  {
  }

  /** The table that answers a lookup, once what the lookup brought is loaded. */
  function Answering(c: Cache, e: Event): View {
    if e.AskIndex? then IndexView(After(c, e), e.space) else After(c, e).spaces
  }

  lemma GoodSpaces(cat: Catalog)
    requires Good(cat)
    ensures Numbered(cat.spaces)
  {
  }

  lemma AnsweringAgrees(es: seq<Event>, i: nat, cat: Catalog)
    requires Good(cat) && FaithfulRun(es, cat) && i < |es|
    ensures var v := Answering(Run(es, i), es[i]);
      ShelvedView(v) && Listed(v, Wanted(es[i], cat)) && Numbered(Wanted(es[i], cat))
  {
    hide After, Run, Good, ShelvedView, Listed, Numbered, IndexView;
    RunAgrees(es, i, cat);
    AfterAgrees(Run(es, i), es[i], cat);
    var c := After(Run(es, i), es[i]);
    if es[i].AskIndex? {
      IndexesNumbered(cat, es[i].space);
      IndexViewAgrees(c, es[i].space, cat);
    } else {
      assert Numbered(cat.spaces) by { GoodSpaces(cat); }
    }
  }

  predicate IsAsk(e: Event) { e.AskSpace? || e.AskIndex? }

  lemma ReplyIsAnswer(c: Cache, e: Event)
    requires IsAsk(e)
    ensures Reply(c, e) == -1 || Reply(c, e) == Answer(Answering(c, e), e.name)
  {
    hide After, IndexView, Answer, Asks;
  }

  /**
   Every lookup in every run returns -1 or exactly the catalogue's number, as long as the query is not the four-byte
   image of a catalogued number.
   */
  lemma EveryAnswerIsRight(es: seq<Event>, i: nat, cat: Catalog)
    requires Good(cat) && FaithfulRun(es, cat) && i < |es| && IsAsk(es[i])
    requires !ImageOf(Wanted(es[i], cat), es[i].name)
    ensures Right(Reply(Run(es, i), es[i]), Wanted(es[i], cat), es[i].name)
  {
    hide After, Run, Good, ShelvedView, Listed, Numbered, IndexView, Answer, Asks, ImageOf, FaithfulRun;
    AnsweringAgrees(es, i, cat);
    var e, c := es[i], Run(es, i);
    RightExactlyWhenNoImage(Answering(c, e), Wanted(e, cat), e.name);
    ReplyIsAnswer(c, e);
  }

  /** Two lookups of one query: the same space name, or the same index name below the same space. */
  predicate SameQuery(a: Event, b: Event) {
    match a
    case AskSpace(name, _, _) => b.AskSpace? && b.name == name
    case AskIndex(space, name, _, _) => b.AskIndex? && b.space == space && b.name == name
    case _ => false
  }

  /** Loads and flushes between them never change what successful lookups of one query return, in every run. */
  lemma SuccessfulAnswersAreEqual(es: seq<Event>, i: nat, j: nat, cat: Catalog)
    requires Good(cat) && FaithfulRun(es, cat) && i < |es| && j < |es| && SameQuery(es[i], es[j])
    requires Reply(Run(es, i), es[i]) != -1 && Reply(Run(es, j), es[j]) != -1
    ensures Reply(Run(es, i), es[i]) == Reply(Run(es, j), es[j])
  {
    hide After, Run, Good, ShelvedView, Listed, Numbered, IndexView, Asks, FaithfulRun, Reply;
    AnsweringAgrees(es, i, cat);
    AnsweringAgrees(es, j, cat);
    ReplyIsAnswer(Run(es, i), es[i]);
    ReplyIsAnswer(Run(es, j), es[j]);
    SameAnswer(Answering(Run(es, i), es[i]), Answering(Run(es, j), es[j]), Wanted(es[i], cat), es[i].name);
  }

  /** Between flushes the keys of the cache only grow. */
  lemma {:induction false} RunGrows(es: seq<Event>, i: nat, j: nat, cat: Catalog)
    requires Good(cat) && FaithfulRun(es, cat) && i <= j <= |es|
    requires forall k :: i <= k < j ==> !es[k].FlushAll?
    ensures Grows(Run(es, i), Run(es, j))
    decreases j
  {
    hide Good, After, Agrees, Faithful;
    if i < j {
      RunGrows(es, i, j - 1, cat);
      RunAgrees(es, j - 1, cat);
      AfterAgrees(Run(es, j - 1), es[j - 1], cat);
    }
  }

  lemma NotAsked(c: Cache, e: Event)
    requires IsAsk(e) && !Asks(c, e)
    ensures After(c, e) == c
  {
  }

  /** A space name that has resolved once causes no further request until the cache is flushed. */
  lemma ResolvedAsksOnce(es: seq<Event>, i: nat, j: nat, cat: Catalog)
    requires Good(cat) && FaithfulRun(es, cat) && i < j < |es|
    requires es[i].AskSpace? && es[j].AskSpace? && es[j].name == es[i].name
    requires Reply(Run(es, i), es[i]) != -1
    requires forall k :: i < k < j ==> !es[k].FlushAll?
    ensures !Asks(Run(es, j), es[j]) && Reply(Run(es, j), es[j]) == Reply(Run(es, i), es[i])
  {
    hide After, Good, ShelvedView, Listed, Numbered, FaithfulRun;
    var name := es[i].name;
    RunGrows(es, i + 1, j, cat);
    RunAgrees(es, i + 1, cat);
    RunAgrees(es, j, cat);
    GoodSpaces(cat);
    assert Run(es, i + 1) == After(Run(es, i), es[i]);
    SameAnswer(Run(es, i + 1).spaces, Run(es, j).spaces, cat.spaces, name);
    NotAsked(Run(es, j), es[j]);
  }

  /** A lookup that misses and is answered with a faithful load holding the name resolves to the catalogue's number. */
  lemma ServedAskResolves(es: seq<Event>, i: nat, cat: Catalog, k: nat)
    requires Good(cat) && FaithfulRun(es, cat) && i < |es| && es[i].AskSpace? && es[i].complete
    requires Asks(Run(es, i), es[i]) && k < |es[i].spaces| && es[i].spaces[k].name == es[i].name
    ensures es[i].name in cat.spaces && Reply(Run(es, i), es[i]) == ToInt32(cat.spaces[es[i].name])
  {
    hide Run, Good, ShelvedView, Listed, Numbered, LoadSpaces, Answer;
    RunAgrees(es, i, cat);
    assert Faithful(es[i], cat);
    LoadedSpaces(Run(es, i), es[i].spaces, cat, k);
  }

  lemma NothingAnswered(name: Bytes)
    ensures Answer(map[], name) == -1
  {
  }

  /**
   An index lookup that misses and is answered with a faithful load holding the name resolves to the catalogue's number
   exactly when the space is cached under its number. Below a space that is not, as after a flush, it finds nothing.
   */
  lemma ServedAskIndexResolves(es: seq<Event>, i: nat, cat: Catalog, k: nat)
    requires Good(cat) && FaithfulRun(es, cat) && i < |es| && es[i].AskIndex? && es[i].complete
    requires Asks(Run(es, i), es[i]) && k < |es[i].indexes|
    requires es[i].indexes[k].space == es[i].space && es[i].indexes[k].name == es[i].name
    ensures es[i].name in IndexesOf(cat, es[i].space)
    ensures Reply(Run(es, i), es[i])
      == if es[i].space in Run(es, i).indexes then ToInt32(IndexesOf(cat, es[i].space)[es[i].name]) else -1
  {
    hide Run, Good, ShelvedView, Listed, Numbered, LoadIndexes, Answer;
    var c, rows := Run(es, i), es[i].indexes;
    RunAgrees(es, i, cat);
    assert Faithful(es[i], cat);
    LoadIndexesAgrees(c, rows, cat);
    if es[i].space in c.indexes {
      LoadedIndexes(c, rows, cat, k);
    } else {
      assert IndexView(LoadIndexes(c, rows), es[i].space) == map[];
      NothingAnswered(es[i].name);
    }
  }

  /** The event adds a space again (or for the first time). */
  ghost predicate Readds(e: Event, space: U32) {
    (e.AskSpace? || e.BulkSpaces?) && exists i :: 0 <= i < |e.spaces| && e.spaces[i].number == space
  }

  lemma {:induction false} LoadKeepsIndexes(c: Cache, rows: seq<SpaceRow>, n: U32)
    requires forall i :: 0 <= i < |rows| ==> rows[i].number != n
    ensures IndexView(LoadSpaces(c, rows), n) == IndexView(c, n)
    ensures n in LoadSpaces(c, rows).indexes <==> n in c.indexes
  {
    if rows != [] {
      hide AddView;
      LoadKeepsIndexes(c, rows[..|rows| - 1], n);
    }
  }

  lemma IndexesKept(c: Cache, e: Event, cat: Catalog, n: U32)
    requires Good(cat) && Agrees(c, cat) && Faithful(e, cat)
    requires !e.FlushAll? && !Readds(e, n)
    ensures IndexView(c, n).Keys <= IndexView(After(c, e), n).Keys
  {
    hide LoadSpaces, LoadIndexes, Good, Answer;
    match e
    case AskSpace(_, rows, _) => LoadKeepsIndexes(c, rows, n);
    case BulkSpaces(rows) => LoadKeepsIndexes(c, rows, n);
    case AskIndex(_, _, rows, _) => LoadIndexesAgrees(c, rows, cat);
    case BulkIndexes(rows) => LoadIndexesAgrees(c, rows, cat);
  }

  lemma {:induction false} RunKeepsIndexes(es: seq<Event>, i: nat, j: nat, cat: Catalog, n: U32)
    requires Good(cat) && FaithfulRun(es, cat) && i <= j <= |es|
    requires forall k :: i <= k < j ==> !es[k].FlushAll? && !Readds(es[k], n)
    ensures IndexView(Run(es, i), n).Keys <= IndexView(Run(es, j), n).Keys
    decreases j
  {
    hide Good, After, Agrees, Faithful, IndexView, Readds;
    if i < j {
      RunKeepsIndexes(es, i, j - 1, cat, n);
      RunAgrees(es, j - 1, cat);
      IndexesKept(Run(es, j - 1), es[j - 1], cat, n);
    }
  }

  /** An index that has resolved once is found, with no further request, until its space is added again or flushed. */
  lemma ResolvedIndexAsksOnce(es: seq<Event>, i: nat, j: nat, cat: Catalog)
    requires Good(cat) && FaithfulRun(es, cat) && i < j < |es|
    requires es[i].AskIndex? && SameQuery(es[i], es[j]) && Reply(Run(es, i), es[i]) != -1
    requires forall k :: i < k < j ==> !es[k].FlushAll? && !Readds(es[k], es[i].space)
    ensures !Asks(Run(es, j), es[j]) && Reply(Run(es, j), es[j]) == Reply(Run(es, i), es[i])
  {
    hide After, Good, ShelvedView, Listed, Numbered, FaithfulRun, IndexView, Readds;
    var n, name := es[i].space, es[i].name;
    RunKeepsIndexes(es, i + 1, j, cat, n);
    RunAgrees(es, i + 1, cat);
    RunAgrees(es, j, cat);
    IndexesNumbered(cat, n);
    IndexViewAgrees(Run(es, i + 1), n, cat);
    IndexViewAgrees(Run(es, j), n, cat);
    assert Run(es, i + 1) == After(Run(es, i), es[i]);
    SameAnswer(IndexView(Run(es, i + 1), n), IndexView(Run(es, j), n), IndexesOf(cat, n), name);
    NotAsked(Run(es, j), es[j]);
  }

  /** The event makes the cache take in these space rows. */
  predicate TakesSpaces(c: Cache, e: Event, rows: seq<SpaceRow>) {
    (e.BulkSpaces? || (e.AskSpace? && Asks(c, e))) && e.spaces == rows
  }

  predicate TakesIndexes(c: Cache, e: Event, rows: seq<IndexRow>) {
    (e.BulkIndexes? || (e.AskIndex? && Asks(c, e))) && e.indexes == rows
  }

  lemma SpacesTaken(es: seq<Event>, i: nat, rows: seq<SpaceRow>)
    requires i < |es| && TakesSpaces(Run(es, i), es[i], rows)
    ensures Run(es, i + 1) == LoadSpaces(Run(es, i), rows)
  {
    hide Asks, LoadSpaces;
  }

  lemma IndexesTaken(es: seq<Event>, i: nat, rows: seq<IndexRow>)
    requires i < |es| && TakesIndexes(Run(es, i), es[i], rows)
    ensures Run(es, i + 1) == LoadIndexes(Run(es, i), rows)
  {
    hide Asks, LoadIndexes;
  }

  /** A lookup that finds a number other than 2^32 - 1 does not ask and returns it. */
  lemma HeldIsAnswered(c: Cache, e: Event, number: U32)
    requires IsAsk(e) && number != TWO_32 - 1
    requires Answer(if e.AskIndex? then IndexView(c, e.space) else c.spaces, e.name) == ToInt32(number)
    ensures !Asks(c, e) && Reply(c, e) == ToInt32(number)
  {
    hide Answer, IndexView;
  }

  /** A space that was loaded, by whatever event, is found by every later lookup without a request until the flush. */
  lemma LoadedSpaceFoundLater(es: seq<Event>, i: nat, j: nat, cat: Catalog, rows: seq<SpaceRow>, r: nat)
    requires Good(cat) && FaithfulRun(es, cat) && i < j < |es| && r < |rows| && rows[r].number != TWO_32 - 1
    requires TakesSpaces(Run(es, i), es[i], rows) && es[j].AskSpace? && es[j].name == rows[r].name
    requires forall k :: i < k < j ==> !es[k].FlushAll?
    ensures !Asks(Run(es, j), es[j]) && Reply(Run(es, j), es[j]) == ToInt32(rows[r].number)
  {
    hide LoadSpaces, Good, ShelvedView, Listed, Numbered, Answer, Run, Asks, Reply, FaithfulSpaces;
    var name := rows[r].name;
    RunAgrees(es, i, cat);
    assert Faithful(es[i], cat);
    SpacesTaken(es, i, rows);
    LoadedSpaces(Run(es, i), rows, cat, r);
    RunGrows(es, i + 1, j, cat);
    RunAgrees(es, i + 1, cat);
    RunAgrees(es, j, cat);
    GoodSpaces(cat);
    SameAnswer(Run(es, i + 1).spaces, Run(es, j).spaces, cat.spaces, name);
    HeldIsAnswered(Run(es, j), es[j], rows[r].number);
  }

  /**
   An index that was added through the number of its space, by whatever event, is found by every later lookup on that
   space without a request until the space is added again or the cache is flushed.
   */
  lemma LoadedIndexFoundLater(es: seq<Event>, i: nat, j: nat, cat: Catalog, rows: seq<IndexRow>, r: nat)
    requires Good(cat) && FaithfulRun(es, cat) && i < j < |es| && r < |rows| && rows[r].number != TWO_32 - 1
    requires TakesIndexes(Run(es, i), es[i], rows) && rows[r].space in Run(es, i).indexes
    requires es[j].AskIndex? && es[j].space == rows[r].space && es[j].name == rows[r].name
    requires forall k :: i < k < j ==> !es[k].FlushAll? && !Readds(es[k], rows[r].space)
    ensures !Asks(Run(es, j), es[j]) && Reply(Run(es, j), es[j]) == ToInt32(rows[r].number)
  {
    hide LoadIndexes, Good, ShelvedView, Listed, Numbered, Answer, Readds, Run, Asks, Reply, FaithfulIndexes;
    var n, name := rows[r].space, rows[r].name;
    RunAgrees(es, i, cat);
    assert Faithful(es[i], cat);
    IndexesTaken(es, i, rows);
    LoadedIndexes(Run(es, i), rows, cat, r);
    RunKeepsIndexes(es, i + 1, j, cat, n);
    RunAgrees(es, i + 1, cat);
    RunAgrees(es, j, cat);
    IndexesNumbered(cat, n);
    IndexViewAgrees(Run(es, i + 1), n, cat);
    IndexViewAgrees(Run(es, j), n, cat);
    SameAnswer(IndexView(Run(es, i + 1), n), IndexView(Run(es, j), n), IndexesOf(cat, n), name);
    HeldIsAnswered(Run(es, j), es[j], rows[r].number);
  }

  // ---- histories ----

  /** Index lookups are made below numbers that are not the image of a space name. */
  ghost predicate Proper(e: Event, cat: Catalog) {
    e.AskIndex? ==> NumberKey(e.space) !in cat.spaces
  }

  /** All that came from the server so far is catalogued. */
  ghost predicate InStep(es: seq<Event>, cat: Catalog) {
    Good(cat) && forall i :: 0 <= i < |es| ==> Faithful(es[i], cat) && Proper(es[i], cat)
  }

  /** A tidy cache with the contents `c` is what the events lead to, for as long as all that came in is catalogued. */
  ghost predicate Explains(es: seq<Event>, cat: Catalog, tidy: bool, c: Cache) {
    InStep(es, cat) ==> tidy && c == Run(es, |es|)
  }

  lemma ExplainsMore(es: seq<Event>, e: Event, cat: Catalog, tidy: bool, c: Cache, tidy': bool, c': Cache)
    requires Explains(es, cat, tidy, c)
    requires Good(cat) && tidy && Faithful(e, cat) && Proper(e, cat) ==> tidy' && c' == After(c, e)
    ensures Explains(es + [e], cat, tidy', c')
    ensures InStep(es + [e], cat) ==> Good(cat) && tidy && Faithful(e, cat) && Proper(e, cat) && c == Run(es, |es|)
  {
    hide Good, Faithful, Proper, After;
    RunMore(es, e);
    if InStep(es + [e], cat) {
      assert (es + [e])[|es|] == e;
      assert forall i :: 0 <= i < |es| ==> (es + [e])[i] == es[i];
    }
  }

  /** What a resolver returns as the reply to its event is -1 or exactly the catalogue's number. */
  lemma ResolvedIsRight(es: seq<Event>, e: Event, cat: Catalog)
    requires InStep(es + [e], cat) && IsAsk(e) && !ImageOf(Wanted(e, cat), e.name)
    ensures Right(Reply(Run(es, |es|), e), Wanted(e, cat), e.name)
  {
    hide Good, Faithful, Proper, After, Run, Reply, ImageOf, Right;
    RunMore(es, e);
    assert (es + [e])[|es|] == e;
    EveryAnswerIsRight(es + [e], |es|, cat);
  }

  lemma InStepPrefix(es: seq<Event>, more: seq<Event>, cat: Catalog)
    requires InStep(es + more, cat)
    ensures InStep(es, cat)
  {
    hide Good, Faithful, Proper;
    assert forall i :: 0 <= i < |es| ==> (es + more)[i] == es[i];
  }

  lemma ExplainsStill(es: seq<Event>, cat: Catalog, tidy: bool, c: Cache, tidy': bool, c': Cache)
    requires Explains(es, cat, tidy, c) && (Good(cat) && tidy ==> tidy' && c' == c)
    ensures Explains(es, cat, tidy', c')
  {
    hide Good, Run, Faithful, Proper;
  }
}
