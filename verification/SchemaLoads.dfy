/**
 Loading what a reply brings into the cache, seen against a catalogue: the bulk loads of rows, and the handling of one
 reply of the authentication batch by its sync.
 */
module SchemaLoads {
  import opened ByteStrings
  import opened MsgPuck
  import opened Wire
  import opened Proto
  import opened Responses
  import opened Network
  import opened PairTables
  import opened Rows
  import opened Schema
  import opened Catalogue
  import opened Coherence
  import opened SchemaReplies

  lemma NoRows(cache: SchemaCache, reply: Option<Response>)
    requires reply.None? || reply.value.error.Some?
    ensures SpacesFrom(reply, [], false) && IndexesFrom(reply, [], false, cache.nodes.Keys)
    ensures LoadSpaces(Abs(cache), []) == Abs(cache) && LoadIndexes(Abs(cache), []) == Abs(cache)
  {
  }

  lemma NodesOfNone<R>(added: seq<Node<R>>)
    ensures added == [] ==> NodesOf(added, SpaceNames([]))
  {
  }

  /** A bulk load of spaces, seen against a catalogue that its rows may come from. */
  method TakeSpaces(schema: SchemaCache, data: Slice, ghost cat: Catalog)
    returns (done: bool, crashed: bool, ghost rows: seq<SpaceRow>)
    requires schema.Valid()
    modifies schema
    ensures schema.Valid() && SpacesRead(data, rows, done)
    ensures crashed <==> !done && SpaceRowBreaks(data, |rows|)
    ensures forall t :: t in schema.Tables() ==> t in old(schema.Tables()) || fresh(t)
    ensures Good(cat) && old(Tidy(schema, cat)) && FaithfulSpaces(rows, cat) ==>
      Tidy(schema, cat) && Abs(schema) == LoadSpaces(old(Abs(schema)), rows)
  {
    hide IsArrayOf, Scan, ReadToken, SpaceRowsTo, SpaceRowRefused, Shelved, Owned, Freshly, NodesOf, AddAll, Good,
      AbsOf, LoadSpaces, TidyOf;
    ghost var t, was := schema.nodes, schema.Inner();
    var step, loaded, p;
    ghost var added;
    step, loaded, p, added := schema.AddSpaces(data);
    done, crashed := step.Done?, step == Stop(Fault);
    rows := if IsArrayOf(data) then SpaceRowsTo(ArrayStart(data), loaded).value.0 else [];
    AddAllFrom(t, added);
    if Good(cat) && old(Tidy(schema, cat)) && FaithfulSpaces(rows, cat) {
      NodesOfNone(added);
      SpacesStayTidy(t, was, added, schema.Inner(), rows, cat);
      SpacesLoaded(t, was, added, schema.Inner(), rows, cat);
    }
  }

  /** A bulk load of indexes, seen against a catalogue that its rows may come from. */
  method TakeIndexes(schema: SchemaCache, data: Slice, ghost cat: Catalog)
    returns (done: bool, crashed: bool, ghost rows: seq<IndexRow>)
    requires schema.Valid()
    modifies schema.Tables()
    ensures schema.Valid() && schema.nodes == old(schema.nodes)
    ensures IndexesRead(data, rows, done, schema.nodes.Keys)
    ensures crashed <==> !done && IndexRowBreaks(data, |rows|, schema.nodes.Keys)
    ensures crashed ==> IsArrayOf(data) && IndexRowsTo(ArrayStart(data), ArrayCount(data)).None?
    ensures done <==>
      && IsArrayOf(data) && IndexRowsTo(ArrayStart(data), ArrayCount(data)).Some?
      && schema.Known(IndexRowsTo(ArrayStart(data), ArrayCount(data)).value.0)
    ensures Good(cat) && old(Tidy(schema, cat)) && FaithfulIndexes(rows, cat) ==>
      Tidy(schema, cat) && Abs(schema) == LoadIndexes(old(Abs(schema)), rows)
  {
    hide IsArrayOf, Scan, ReadToken, IndexRowsTo, IndexRowRefused, Shelved, Owned, Good, AbsOf, LoadIndexes, TidyOf,
      SchemaCache.Follows;
    ghost var was := schema.Inner();
    var step, loaded, p;
    ghost var added;
    step, loaded, p, added := schema.AddIndexes(data);
    done, crashed := step.Done?, step == Stop(Fault);
    rows := if IsArrayOf(data) then IndexRowsTo(ArrayStart(data), loaded).value.0 else [];
    schema.RowsKnown(was, rows, added);
    if Good(cat) && old(Tidy(schema, cat)) && FaithfulIndexes(rows, cat) {
      IndexesLoaded(schema, was, added, rows, cat);
    }
  }

  lemma SpaceRowsShort(data: Slice, rows: seq<SpaceRow>)
    requires SpacesRead(data, rows, false) && IsArrayOf(data)
    ensures SpaceRowsTo(ArrayStart(data), ArrayCount(data)).None?
  {
    hide IsArrayOf, SpaceRowsTo;
    SpaceRowsFail(ArrayStart(data), |rows| + 1, ArrayCount(data));
  }

  /** The parser has read a well-formed reply. */
  ghost predicate Tells(window: Bytes, r: Response, len: nat) {
    WellFormedReply(window) && Describes(window, r, len)
  }

  lemma BrokenSpacesNotTame(p: Packet, r: Response, rows: seq<SpaceRow>)
    requires Replied(p, Some(r)) && SpacesRead(DataOf(r), rows, false) && SpaceRowBreaks(DataOf(r), |rows|)
    ensures !TameSpaces(p)
  {
    hide Replied, TameSpaces, SpacesRead, IsArrayOf, SpaceRowsTo, SpaceRowRefused;
    SpaceRowsShort(DataOf(r), rows);
    TameLoads(p, r);
  }

  lemma BrokenIndexesNotTame(p: Packet, r: Response)
    requires Replied(p, Some(r)) && IsArrayOf(DataOf(r))
    requires IndexRowsTo(ArrayStart(DataOf(r)), ArrayCount(DataOf(r))).None?
    ensures !TameIndexes(p)
  {
    hide Replied, TameIndexes, IsArrayOf, IndexRowsTo;
    TameLoads(p, r);
  }

  /** Loads the data of the space reply; a full answer leaves all spaces of the catalogue in the cache. */
  method TakeSpaceReply(schema: SchemaCache, r: Response, ghost window: Bytes, ghost sync: nat, ghost len: nat,
      ghost cat: Catalog)
    returns (done: bool, crashed: bool, ghost rows: seq<SpaceRow>)
    requires schema.Valid()
    modifies schema
    ensures SpacesRead(DataOf(r), rows, done)
    ensures Good(cat) && old(Tidy(schema, cat)) && FaithfulSpaces(rows, cat) ==>
      Tidy(schema, cat) && Abs(schema) == LoadSpaces(old(Abs(schema)), rows)
    ensures schema.Valid() && forall t :: t in schema.Tables() ==> t in old(schema.Tables()) || fresh(t)
    ensures crashed ==> !done && IsArrayOf(DataOf(r)) && SpaceRowsTo(ArrayStart(DataOf(r)), ArrayCount(DataOf(r))).None?
    ensures Good(cat) && old(Tidy(schema, cat)) && SpaceAnswer(window, sync, cat) && Tells(window, r, len) ==>
      done && Tidy(schema, cat) && HoldsSpaces(Abs(schema), cat)
  {
    hide Good, AbsOf, TidyOf, LoadSpaces, SpacesRead, FaithfulSpaces, Shelved, Owned, ViewsOf, HasSpaces, HoldsSpaces,
      Agrees, GoodReply, NameField, NumberField;
    ghost var before := Abs(schema);
    if Tidy(schema, cat) {
      TidyAgrees(schema, cat);
    }
    done, crashed, rows := TakeSpaces(schema, DataOf(r), cat);
    if crashed {
      SpaceRowsShort(DataOf(r), rows);
    }
    if Good(cat) && old(Tidy(schema, cat)) && SpaceAnswer(window, sync, cat) && Tells(window, r, len) {
      SpaceAnswerRead(window, sync, cat, r, len, rows, done);
      AllSpacesHeld(before, rows, cat);
    }
  }

  lemma RowsAreKnown(schema: SchemaCache, rows: seq<IndexRow>, cat: Catalog)
    requires schema.Valid() && Tidy(schema, cat) && Good(cat)
    requires HoldsSpaces(Abs(schema), cat) && FaithfulIndexes(rows, cat)
    ensures schema.Known(rows) && forall i :: 0 <= i < |rows| ==> rows[i].space in Abs(schema).indexes
  {
    hide NumberKey, HoldsSpaces, AbsOf, TidyOf, Shelved, Owned;
    forall i | 0 <= i < |rows|
      ensures NumberKey(rows[i].space) in schema.nodes && rows[i].space in Abs(schema).indexes
    {
      assert rows[i].space in cat.indexes;
      SpacesHaveNumbers(schema, cat, rows[i].space);
    }
  }

  lemma IndexesReadAll(data: Slice, rows: seq<IndexRow>, known: set<Bytes>)
    requires IndexesRead(data, rows, true, known)
    ensures IsArrayOf(data) && IndexRowsTo(ArrayStart(data), ArrayCount(data)).Some?
    ensures rows == IndexRowsTo(ArrayStart(data), ArrayCount(data)).value.0
  {
    hide IsArrayOf;
  }

  lemma SpacesStillHeld(c: Cache, d: Cache, cat: Catalog)
    requires HoldsSpaces(c, cat) && d.spaces == c.spaces
    ensures HoldsSpaces(d, cat)
  {
  }

  /** Loads the data of the index reply; a full answer after all spaces leaves the whole catalogue in the cache. */
  method TakeIndexReply(schema: SchemaCache, r: Response, ghost window: Bytes, ghost sync: nat, ghost len: nat,
      ghost cat: Catalog)
    returns (done: bool, crashed: bool, ghost rows: seq<IndexRow>)
    requires schema.Valid()
    modifies schema.Tables()
    ensures IndexesRead(DataOf(r), rows, done, schema.nodes.Keys)
    ensures Good(cat) && old(Tidy(schema, cat)) && FaithfulIndexes(rows, cat) ==>
      Tidy(schema, cat) && Abs(schema) == LoadIndexes(old(Abs(schema)), rows)
    ensures schema.Valid() && schema.nodes == old(schema.nodes)
    ensures crashed ==> !done && IsArrayOf(DataOf(r)) && IndexRowsTo(ArrayStart(DataOf(r)), ArrayCount(DataOf(r))).None?
    ensures
      && Good(cat) && old(Tidy(schema, cat) && HoldsSpaces(Abs(schema), cat))
      && IndexAnswer(window, sync, cat) && Tells(window, r, len) ==>
      done && Tidy(schema, cat) && HoldsSpaces(Abs(schema), cat) && HoldsIndexes(Abs(schema), cat)
  {
    hide WellFormedReply, Describes, Good, AbsOf, TidyOf, LoadIndexes, IndexesRead, FaithfulIndexes, Shelved, Owned,
      ViewsOf, HasIndexes, HoldsSpaces, HoldsIndexes, IndexAnswer, Agrees, IsArrayOf, IndexRowsTo, NumberKey;
    ghost var before := Abs(schema);
    ghost var full := Good(cat) && Tidy(schema, cat) && HoldsSpaces(before, cat)
      && IndexAnswer(window, sync, cat) && Tells(window, r, len);
    ghost var all: seq<IndexRow> := [];
    if full {
      TidyAgrees(schema, cat);
      IndexAnswerRead(window, sync, cat, r, len);
      all := IndexRowsTo(ArrayStart(DataOf(r)), ArrayCount(DataOf(r))).value.0;
      RowsAreKnown(schema, all, cat);
    }
    done, crashed, rows := TakeIndexes(schema, DataOf(r), cat);
    if full {
      IndexesReadAll(DataOf(r), rows, schema.nodes.Keys);
      AllIndexesHeld(before, rows, cat);
      LoadIndexesKeeps(before, rows);
      SpacesStillHeld(before, LoadIndexes(before, rows), cat);
    }
  }

  /** Which of the good replies of a batch a window can be is told by the sync the parser finds. */
  lemma SyncTells(window: Bytes, auth: U32, space: U32, index: U32, cat: Catalog, r: Response, len: nat)
    requires WellFormedReply(window) ==> Describes(window, r, len)
    ensures
      || NoError(window) || GoodReply(window, auth)
      || SpaceAnswer(window, space, cat) || IndexAnswer(window, index, cat) ==>
      WellFormedReply(window) && r.error.None?
    ensures WellFormedReply(window) && r.error.None? ==> NoError(window)
    ensures Orderly(window, space, index) ==> WellFormedReply(window)
    ensures GoodReply(window, auth) ==> r.sync == auth
    ensures SpaceAnswer(window, space, cat) ==> r.sync == space
    ensures IndexAnswer(window, index, cat) ==> r.sync == index
  {
    hide Describes, LastValue, DataTree, Parse, SyncOf;
    if WellFormedReply(window) {
      ReplyParsed(window, r, len);
    }
  }

  /**
   Takes one reply of the authentication batch: the rows of the space reply and of the index reply are loaded. A
   reply that fails to parse is carried on with as far as it was filled in.
   */
  method TakeBatchReply(schema: SchemaCache, window: Bytes, auth: U32, space: U32, index: U32, ghost cat: Catalog)
    returns (ok: bool, crashed: bool, ghost r: Response, ghost load: Option<Event>, ghost done: bool)
    requires schema.Valid() && auth != space && auth != index && space != index
    modifies schema, schema.Tables()
    ensures schema.Valid() && forall t :: t in schema.Tables() ==> t in old(schema.Tables()) || fresh(t)
    ensures WellFormedReply(window) ==> exists len :: Describes(window, r, len)
    ensures load.Some? ==> load.value.BulkSpaces? || load.value.BulkIndexes?
    ensures !crashed ==> LoadOf(r, space, index, schema.nodes.Keys, load, done)
    ensures ok <==> NoError(window) && !crashed && done
    ensures Good(cat) && old(Tidy(schema, cat)) && (load.Some? ==> Faithful(load.value, cat)) ==>
      Tidy(schema, cat) && Abs(schema) == if load.Some? then After(old(Abs(schema)), load.value) else old(Abs(schema))
    ensures Orderly(window, space, index) ==> !crashed
    ensures Good(cat) && old(Tidy(schema, cat)) && GoodReply(window, auth) ==>
      ok && Tidy(schema, cat) && Abs(schema) == old(Abs(schema))
    ensures Good(cat) && old(Tidy(schema, cat)) && SpaceAnswer(window, space, cat) ==>
      ok && Tidy(schema, cat) && HoldsSpaces(Abs(schema), cat)
    ensures
      && Good(cat) && old(Tidy(schema, cat)) && old(HoldsSpaces(Abs(schema), cat))
      && IndexAnswer(window, index, cat) ==>
      ok && Tidy(schema, cat) && HoldsSpaces(Abs(schema), cat) && HoldsIndexes(Abs(schema), cat)
  {
    hide WellFormedReply, Describes, Good, AbsOf, TidyOf, Shelved, Owned, ViewsOf, HoldsSpaces, HoldsIndexes, NoError,
      SpaceAnswer, IndexAnswer, Orderly, IsArrayOf, SpaceRowsTo, IndexRowsTo, SyncOf, LoadSpaces, LoadIndexes,
      SpacesRead, IndexesRead, FaithfulSpaces, FaithfulIndexes, NumberKey;
    var reply, outcome := ParseResponse(window);
    r, load, done := reply, None, true;
    ok, crashed := outcome.Parsed? && reply.error.None?, outcome.Fault?;
    ghost var len := if outcome.Parsed? then outcome.len else 0;
    SyncTells(window, auth, space, index, cat, r, len);
    if crashed {
      return;
    }
    if outcome.Parsed? && Orderly(window, space, index) && IsArrayOf(DataOf(r)) {
      OrderlyLoads(window, space, index, r, len);
    }
    if reply.sync == space {
      var all;
      ghost var rows;
      all, crashed, rows := TakeSpaceReply(schema, reply, window, space, len, cat);
      ok, done, load := ok && all, all, Some(BulkSpaces(rows));
    } else if reply.sync == index {
      var all;
      ghost var rows;
      all, crashed, rows := TakeIndexReply(schema, reply, window, index, len, cat);
      ok, done, load := ok && all, all, Some(BulkIndexes(rows));
    }
  }
}
