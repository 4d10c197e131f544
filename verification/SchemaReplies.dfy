/**
 What replies to schema requests bring: the rows a load takes from them, and answers that hold the whole catalogue.
 */
module SchemaReplies {
  import opened ByteStrings
  import opened MsgPuck
  import opened Wire
  import opened Proto
  import opened Responses
  import opened Network
  import opened PairTables
  import opened Rows
  import opened Schema
  import opened Catalogue
  import opened Coherence

  /** The packet lies at the start of the buffer. */
  ghost predicate LiesIn(p: Packet, window: Bytes) {
    p.Body? ==> |p.payload| <= |window| && window[..|p.payload|] == p.payload
  }

  /**
   What the slice parser makes of a packet at the start of the buffer `window`; nothing if there is no packet or the
   parser fails. It does not look at the length of the packet.
   */
  ghost predicate ReplyFrom(p: Packet, window: Bytes, reply: Option<Response>) {
    && LiesIn(p, window)
    && if p.Body? && WellFormedReply(window)
       then reply.Some? && exists len :: Describes(window, reply.value, len)
       else reply.None?
  }

  /** Five bytes that are no length, or a packet whose parse leaves defined behaviour. */
  ghost predicate Breaks(p: Packet, window: Bytes) {
    p.BadLength? || (p.Body? && !WellFormedReply(window) && !ReplyRefused(window))
  }

  function DataOf(r: Response): Slice {
    if r.data.Some? then r.data.value else Pointer([], 0)
  }

  /** The rows a load takes from `data`, and whether it takes all of them. */
  ghost predicate SpacesRead(data: Slice, rows: seq<SpaceRow>, complete: bool) {
    if !IsArrayOf(data) then rows == [] && !complete
    else
      && |rows| <= ArrayCount(data) && (complete <==> |rows| == ArrayCount(data))
      && SpaceRowsTo(ArrayStart(data), |rows|).Some? && SpaceRowsTo(ArrayStart(data), |rows|).value.0 == rows
      && (!complete ==> SpaceRowsTo(ArrayStart(data), |rows| + 1).None?)
  }

  /** The same for index rows, given the keys of the space table. */
  ghost predicate IndexesRead(data: Slice, rows: seq<IndexRow>, complete: bool, known: set<Bytes>) {
    if !IsArrayOf(data) then rows == [] && !complete
    else
      && |rows| <= ArrayCount(data) && (complete <==> |rows| == ArrayCount(data))
      && IndexRowsTo(ArrayStart(data), |rows|).Some? && IndexRowsTo(ArrayStart(data), |rows|).value.0 == rows
      && (forall i :: 0 <= i < |rows| ==> NumberKey(rows[i].space) in known)
      && (!complete ==> NextRefused(ArrayStart(data), |rows|, known))
  }

  /** The row after the first `i` is not refused: where it cannot be read, the code leaves defined behaviour. */
  ghost predicate SpaceRowBreaks(data: Slice, i: nat) {
    && IsArrayOf(data) && SpaceRowsTo(ArrayStart(data), i).Some?
    && !SpaceRowRefused(SpaceRowsTo(ArrayStart(data), i).value.1)
  }

  ghost predicate IndexRowBreaks(data: Slice, i: nat, known: set<Bytes>) {
    && IsArrayOf(data) && IndexRowsTo(ArrayStart(data), i).Some?
    && !IndexRowRefused(IndexRowsTo(ArrayStart(data), i).value.1, known)
  }

  /** The rows that come with a reply: none without a reply, and none with a reply that reports an error. */
  ghost predicate SpacesFrom(reply: Option<Response>, rows: seq<SpaceRow>, complete: bool) {
    if reply.None? || reply.value.error.Some? then rows == [] && !complete
    else SpacesRead(DataOf(reply.value), rows, complete)
  }

  ghost predicate IndexesFrom(reply: Option<Response>, rows: seq<IndexRow>, complete: bool, known: set<Bytes>) {
    if reply.None? || reply.value.error.Some? then rows == [] && !complete
    else IndexesRead(DataOf(reply.value), rows, complete, known)
  }

  /** What a reply of the authentication batch makes the cache take in, by its sync; `done` tells whether all of it. */
  ghost predicate LoadOf(r: Response, space: U32, index: U32, known: set<Bytes>, load: Option<Event>, done: bool) {
    if r.sync == space then
      load.Some? && load.value.BulkSpaces? && SpacesRead(DataOf(r), load.value.spaces, done)
    else if r.sync == index then
      load.Some? && load.value.BulkIndexes? && IndexesRead(DataOf(r), load.value.indexes, done, known)
    else load.None? && done
  }

  // ---- answers to the authentication batch ----

  /** A well-formed reply that reports no error. */
  ghost predicate NoError(payload: Bytes) {
    && WellFormedReply(payload)
    && var (_, rest) := Parse(payload).value;
    && var (b, _) := Parse(rest).value;
    && LastValue(b.items, |b.items| / 2, 0x31).None?
  }

  ghost function SyncOf(payload: Bytes): nat
    requires WellFormedReply(payload)
  {
    var (h, _) := Parse(payload).value;
    Number(LastValue(h.items, |h.items| / 2, 0x01))
  }

  /** A well-formed reply without an error and with the given sync. */
  ghost predicate GoodReply(payload: Bytes, sync: nat) {
    NoError(payload) && SyncOf(payload) == sync
  }

  ghost function DataTree(payload: Bytes): Option<Tree>
    requires WellFormedReply(payload)
  {
    var (_, rest) := Parse(payload).value;
    var (b, _) := Parse(rest).value;
    LastValue(b.items, |b.items| / 2, 0x30)
  }

  /** Its data is an array of space tuples: catalogued ones only, and all of them. */
  ghost predicate SpaceAnswer(payload: Bytes, sync: nat, cat: Catalog) {
    && GoodReply(payload, sync) && DataTree(payload).Some?
    && var ts := DataTree(payload).value.items;
    && (forall j :: 0 <= j < |ts| ==>
        SpaceTuple(ts[j]) && NameField(ts[j]) in cat.spaces && cat.spaces[NameField(ts[j])] == NumberField(ts[j], 0))
    && forall name :: name in cat.spaces ==> exists j :: 0 <= j < |ts| && NameField(ts[j]) == name
  }

  /** Its data is an array of index tuples: catalogued ones only, and all of them. */
  ghost predicate IndexAnswer(payload: Bytes, sync: nat, cat: Catalog) {
    && GoodReply(payload, sync) && DataTree(payload).Some?
    && var ts := DataTree(payload).value.items;
    && (forall j :: 0 <= j < |ts| ==>
        && IndexTuple(ts[j]) && NameField(ts[j]) in IndexesOf(cat, NumberField(ts[j], 0))
        && IndexesOf(cat, NumberField(ts[j], 0))[NameField(ts[j])] == NumberField(ts[j], 1))
    && forall n, name :: n in cat.indexes && name in cat.indexes[n] ==>
        exists j :: 0 <= j < |ts| && NumberField(ts[j], 0) == n && NameField(ts[j]) == name
  }

  /** The places of the three replies in the batch; the space reply comes before the index reply. */
  datatype Order = Order(auth: nat, space: nat, index: nat)

  ghost predicate BatchAnswered(ps: seq<Packet>, order: Order, auth: U32, space: U32, index: U32, cat: Catalog) {
    && |ps| == 3 && order.auth < 3 && order.space < order.index < 3
    && order.auth != order.space && order.auth != order.index
    && (forall k :: 0 <= k < 3 ==> ps[k].Body?)
    && GoodReply(ps[order.auth].payload, auth)
    && SpaceAnswer(ps[order.space].payload, space, cat)
    && IndexAnswer(ps[order.index].payload, index, cat)
  }

  /** A well-formed reply with space tuples, or with no data. */
  ghost predicate SpaceData(payload: Bytes) {
    && WellFormedReply(payload)
    && (DataTree(payload).Some? ==>
          var ts := DataTree(payload).value.items; forall j :: 0 <= j < |ts| ==> SpaceTuple(ts[j]))
  }

  /** A well-formed reply with index tuples, or with no data. */
  ghost predicate IndexData(payload: Bytes) {
    && WellFormedReply(payload)
    && (DataTree(payload).Some? ==>
          var ts := DataTree(payload).value.items; forall j :: 0 <= j < |ts| ==> IndexTuple(ts[j]))
  }

  /** The reply to a schema request, if it is one, carries tuples of that schema, or no data. */
  ghost predicate Orderly(payload: Bytes, space: U32, index: U32) {
    && WellFormedReply(payload)
    && (SyncOf(payload) == space ==> SpaceData(payload))
    && (SyncOf(payload) == index ==> IndexData(payload))
  }

  ghost predicate OrderlyPacket(p: Packet, space: U32, index: U32) {
    !p.BadLength? && (p.Body? ==> Orderly(p.payload, space, index))
  }

  ghost predicate AllOrderly(ps: seq<Packet>, space: U32, index: U32) {
    forall k :: 0 <= k < |ps| ==> OrderlyPacket(ps[k], space, index)
  }

  lemma EachPacket(ps: seq<Packet>, space: U32, index: U32, n: nat)
    requires n < |ps|
    ensures AllBodies(ps) ==> ps[n].Body?
    ensures AllOrderly(ps, space, index) ==> OrderlyPacket(ps[n], space, index)
  {
    hide OrderlyPacket;
  }

  /** The reply at one place of an answered batch. */
  lemma BatchAt(ps: seq<Packet>, order: Order, auth: U32, space: U32, index: U32, cat: Catalog, n: nat)
    requires BatchAnswered(ps, order, auth, space, index, cat) && n < 3
    ensures |ps| == 3 && ps[n].Body? && order.space < order.index < 3
    ensures n == order.space || n == order.index || GoodReply(ps[n].payload, auth)
    ensures n == order.space ==> SpaceAnswer(ps[n].payload, space, cat)
    ensures n == order.index ==> IndexAnswer(ps[n].payload, index, cat)
  {
    hide GoodReply, SpaceAnswer, IndexAnswer;
  }

  lemma AnsweredIsOrderly(ps: seq<Packet>, order: Order, auth: U32, space: U32, index: U32, cat: Catalog)
    requires BatchAnswered(ps, order, auth, space, index, cat) && auth != space && auth != index && space != index
    ensures AllOrderly(ps, space, index)
  {
    hide WellFormedReply, DataTree, SyncOf, SpaceTuple, IndexTuple, NameField, NumberField;
    forall k | 0 <= k < |ps| ensures OrderlyPacket(ps[k], space, index) {
      assert k == order.auth || k == order.space || k == order.index;
    }
  }

  /** What a reply says does not depend on what follows it in the buffer. */
  lemma ReplyMore(payload: Bytes, more: Bytes)
    requires WellFormedReply(payload)
    ensures WellFormedReply(payload + more) && SyncOf(payload + more) == SyncOf(payload)
    ensures (NoError(payload + more) <==> NoError(payload)) && DataTree(payload + more) == DataTree(payload)
  {
    hide Parse, LastValue, HeaderShape, BodyShape;
    WellFormedMore(payload, more);
  }

  lemma NoErrorIsWellFormed(payload: Bytes)
    ensures NoError(payload) ==> WellFormedReply(payload)
  {
    hide WellFormedReply;
  }

  /** Well-formed replies keep what they are when they are read from a buffer they lie at the start of. */
  lemma ReplyInWindow(payload: Bytes, window: Bytes, sync: nat, space: U32, index: U32, cat: Catalog)
    requires |payload| <= |window| && window[..|payload|] == payload
    ensures NoError(payload) ==> NoError(window)
    ensures GoodReply(payload, sync) ==> GoodReply(window, sync)
    ensures SpaceAnswer(payload, space, cat) ==> SpaceAnswer(window, space, cat)
    ensures IndexAnswer(payload, index, cat) ==> IndexAnswer(window, index, cat)
    ensures Orderly(payload, space, index) ==> Orderly(window, space, index)
  {
    hide WellFormedReply, NoError, SyncOf, DataTree, SpaceTuple, IndexTuple, NameField, NumberField;
    assert window == payload + window[|payload|..];
    if WellFormedReply(payload) {
      ReplyMore(payload, window[|payload|..]);
    }
    NoErrorIsWellFormed(payload);
  }

  /** The reply to a lookup of a space, if there is a packet at all. */
  ghost predicate TameSpaces(p: Packet) {
    !p.BadLength? && (p.Body? ==> SpaceData(p.payload))
  }

  /** The reply to a lookup of an index, if there is a packet at all. */
  ghost predicate TameIndexes(p: Packet) {
    !p.BadLength? && (p.Body? ==> IndexData(p.payload))
  }

  /** Some buffer that the packet lies at the start of is parsed to this reply, or to none. */
  ghost predicate Replied(p: Packet, reply: Option<Response>) {
    exists window :: ReplyFrom(p, window, reply)
  }

  /** What the slice parser hands over of a well-formed reply. */
  lemma ReplyParsed(payload: Bytes, r: Response, len: nat)
    requires WellFormedReply(payload) && Describes(payload, r, len)
    ensures r.sync == SyncOf(payload) && (r.error.None? <==> NoError(payload))
    ensures DataTree(payload).None? ==> r.data.None?
    ensures DataTree(payload).Some? ==>
      Holds(DataOf(r), DataTree(payload).value) && DataTree(payload).value.head.kind.Array?
  {
    hide Parse, LastValue, HeaderShape, Holds;
    if DataTree(payload).Some? {
      var (_, rest) := Parse(payload).value;
      var (b, _) := Parse(rest).value;
      LastValueFrom(b.items, |b.items| / 2, 0x30);
    }
  }

  lemma EmptyIsNoArray()
    ensures !IsArrayOf(Pointer([], 0))
  {
  }

  /** Data made of tuples of its schema never leads a load out of defined behaviour. */
  lemma DataLoads(payload: Bytes, r: Response, len: nat)
    requires WellFormedReply(payload) && Describes(payload, r, len) && IsArrayOf(DataOf(r))
    ensures SpaceData(payload) ==> SpaceRowsTo(ArrayStart(DataOf(r)), ArrayCount(DataOf(r))).Some?
    ensures IndexData(payload) ==> IndexRowsTo(ArrayStart(DataOf(r)), ArrayCount(DataOf(r))).Some?
  {
    hide Holds, Describes, WellFormedReply, LastValue, SpaceTuple, IndexTuple, SpaceRowsTo, IndexRowsTo, ReadToken,
      DataTree, SyncOf, NoError;
    ReplyParsed(payload, r, len);
    if DataTree(payload).Some? {
      var t := DataTree(payload).value;
      if SpaceData(payload) {
        SpaceArrayLoads(DataOf(r), t);
      }
      if IndexData(payload) {
        IndexArrayLoads(DataOf(r), t);
      }
    } else {
      EmptyIsNoArray();
    }
  }

  /** The loads keep to defined behaviour on data made of tuples of their schema. */
  lemma TameLoads(p: Packet, r: Response)
    requires Replied(p, Some(r)) && IsArrayOf(DataOf(r))
    ensures TameSpaces(p) ==> SpaceRowsTo(ArrayStart(DataOf(r)), ArrayCount(DataOf(r))).Some?
    ensures TameIndexes(p) ==> IndexRowsTo(ArrayStart(DataOf(r)), ArrayCount(DataOf(r))).Some?
  {
    hide Describes, WellFormedReply, SpaceRowsTo, IndexRowsTo, SpaceTuple, IndexTuple, DataTree, SyncOf, NoError,
      IsArrayOf;
    var window :| ReplyFrom(p, window, Some(r));
    var len :| Describes(window, r, len);
    if TameSpaces(p) || TameIndexes(p) {
      assert window == p.payload + window[|p.payload|..];
      ReplyMore(p.payload, window[|p.payload|..]);
      DataLoads(window, r, len);
    }
  }

  /** The packet goes through as a reply that reports no error. */
  ghost predicate Passes(p: Packet) {
    p.Body? && exists window :: LiesIn(p, window) && NoError(window)
  }

  /** A packet that is itself a well-formed reply goes through exactly when it reports no error. */
  lemma PassesExactlyWithoutError(p: Packet)
    requires p.Body? && WellFormedReply(p.payload)
    ensures Passes(p) <==> NoError(p.payload)
  {
    hide WellFormedReply, NoError, SyncOf, DataTree;
    forall window | LiesIn(p, window) ensures NoError(window) <==> NoError(p.payload) {
      assert window == p.payload + window[|p.payload|..];
      ReplyMore(p.payload, window[|p.payload|..]);
    }
    assert LiesIn(p, p.payload);
  }

  /** A packet that is a well-formed reply is one in every buffer it lies at the start of. */
  lemma WellFormedInWindow(p: Packet, window: Bytes)
    requires p.Body? && LiesIn(p, window) && WellFormedReply(p.payload)
    ensures WellFormedReply(window)
  {
    hide WellFormedReply;
    assert window == p.payload + window[|p.payload|..];
    WellFormedMore(p.payload, window[|p.payload|..]);
  }

  /** The same for the data of a reply that is orderly, by its sync. */
  lemma OrderlyLoads(payload: Bytes, space: U32, index: U32, r: Response, len: nat)
    requires Orderly(payload, space, index) && Describes(payload, r, len) && IsArrayOf(DataOf(r))
    ensures r.sync == space ==> SpaceRowsTo(ArrayStart(DataOf(r)), ArrayCount(DataOf(r))).Some?
    ensures r.sync == index ==> IndexRowsTo(ArrayStart(DataOf(r)), ArrayCount(DataOf(r))).Some?
  {
    hide Describes, WellFormedReply, SpaceData, IndexData, SpaceRowsTo, IndexRowsTo, SyncOf, NoError, DataTree,
      IsArrayOf, Holds;
    ReplyParsed(payload, r, len);
    DataLoads(payload, r, len);
  }

  ghost predicate HasSpaces(rows: seq<SpaceRow>, cat: Catalog) {
    forall name :: name in cat.spaces ==> exists i :: 0 <= i < |rows| && rows[i].name == name
  }

  ghost predicate HasIndexes(rows: seq<IndexRow>, cat: Catalog) {
    forall n, name :: n in cat.indexes && name in cat.indexes[n] ==>
      exists i :: 0 <= i < |rows| && rows[i].space == n && rows[i].name == name
  }

  /** A load of a full space answer takes all spaces of the catalogue and nothing else. */
  lemma SpaceAnswerRead(payload: Bytes, sync: nat, cat: Catalog, r: Response, len: nat, rows: seq<SpaceRow>,
      complete: bool)
    requires SpaceAnswer(payload, sync, cat) && Describes(payload, r, len) && SpacesRead(DataOf(r), rows, complete)
    ensures complete && FaithfulSpaces(rows, cat) && HasSpaces(rows, cat)
  {
    hide Holds, Describes, WellFormedReply, LastValue, NameField, NumberField, SpaceTuple, SpaceRowsTo, IsArrayOf,
      ReadToken;
    ReplyParsed(payload, r, len);
    var ts := DataTree(payload).value.items;
    SpaceArrayLoads(DataOf(r), DataTree(payload).value);
    if !complete {
      SpaceRowsFail(ArrayStart(DataOf(r)), |rows| + 1, |ts|);
    }
    assert forall j :: 0 <= j < |ts| ==> rows[j].name == NameField(ts[j]) && rows[j].number == NumberField(ts[j], 0);
    forall name | name in cat.spaces ensures exists i :: 0 <= i < |rows| && rows[i].name == name {
      var j :| 0 <= j < |ts| && NameField(ts[j]) == name;
      assert rows[j].name == name;
    }
  }

  /** The rows of a full index answer are all indexes of the catalogue and nothing else. */
  lemma IndexAnswerRead(payload: Bytes, sync: nat, cat: Catalog, r: Response, len: nat)
    requires IndexAnswer(payload, sync, cat) && Describes(payload, r, len)
    ensures var data := DataOf(r);
      && IsArrayOf(data) && IndexRowsTo(ArrayStart(data), ArrayCount(data)).Some?
      && var rows := IndexRowsTo(ArrayStart(data), ArrayCount(data)).value.0;
      FaithfulIndexes(rows, cat) && HasIndexes(rows, cat)
  {
    hide Holds, Describes, WellFormedReply, LastValue, NameField, NumberField, IndexTuple, IndexRowsTo, IsArrayOf,
      ReadToken;
    ReplyParsed(payload, r, len);
    var ts := DataTree(payload).value.items;
    var data := DataOf(r);
    IndexArrayLoads(data, DataTree(payload).value);
    var rows := IndexRowsTo(ArrayStart(data), ArrayCount(data)).value.0;
    forall n, name | n in cat.indexes && name in cat.indexes[n]
      ensures exists i :: 0 <= i < |rows| && rows[i].space == n && rows[i].name == name
    {
      var j :| 0 <= j < |ts| && NumberField(ts[j], 0) == n && NameField(ts[j]) == name;
      assert rows[j].space == n && rows[j].name == name;
    }
  }

  // ---- a cache that holds the catalogue ----

  ghost predicate HoldsSpaces(c: Cache, cat: Catalog) {
    forall name :: name in cat.spaces ==> name in c.spaces && Answer(c.spaces, name) == ToInt32(cat.spaces[name])
  }

  ghost predicate HoldsIndexes(c: Cache, cat: Catalog) {
    forall n, name :: n in cat.indexes && name in cat.indexes[n] ==>
      n in c.indexes && name in c.indexes[n] && Answer(c.indexes[n], name) == ToInt32(cat.indexes[n][name])
  }

  lemma AllSpacesHeld(c: Cache, rows: seq<SpaceRow>, cat: Catalog)
    requires Good(cat) && Agrees(c, cat) && FaithfulSpaces(rows, cat) && HasSpaces(rows, cat)
    ensures HoldsSpaces(LoadSpaces(c, rows), cat)
  {
    hide Good, Agrees, LoadSpaces, Answer;
    var d := LoadSpaces(c, rows);
    forall name | name in cat.spaces ensures name in d.spaces && Answer(d.spaces, name) == ToInt32(cat.spaces[name]) {
      var i :| 0 <= i < |rows| && rows[i].name == name;
      LoadedSpaces(c, rows, cat, i);
    }
  }

  lemma AllIndexesHeld(c: Cache, rows: seq<IndexRow>, cat: Catalog)
    requires Good(cat) && Agrees(c, cat) && FaithfulIndexes(rows, cat) && HasIndexes(rows, cat)
    requires forall i :: 0 <= i < |rows| ==> rows[i].space in c.indexes
    ensures HoldsIndexes(LoadIndexes(c, rows), cat)
  {
    hide Good, Agrees, LoadIndexes, Answer;
    var d := LoadIndexes(c, rows);
    forall n, name | n in cat.indexes && name in cat.indexes[n]
      ensures n in d.indexes && name in d.indexes[n] && Answer(d.indexes[n], name) == ToInt32(cat.indexes[n][name])
    {
      var i :| 0 <= i < |rows| && rows[i].space == n && rows[i].name == name;
      LoadedIndexes(c, rows, cat, i);
    }
  }

  lemma NameHasNumber<R>(t: Table<R>, m: map<Bytes, U32>, name: Bytes)
    requires Shelved(t) && Backed(t) && Listed(ViewOf(t), m) && Numbered(m) && name in m && name in t
    ensures NumberKey(m[name]) in t && t[NumberKey(m[name])].number == m[name]
  {
    hide NumberKey;
    assert name in ViewOf(t);
    var k := NumberKey(m[name]);
    assert t[name].name == name && t[name].number == m[name];
    assert k in ViewOf(t);
    Image32InjectiveKey(m[name], t[k].number);
  }

  /** A tidy cache that holds all spaces has each of them under its number. */
  lemma SpacesHaveNumbers(cache: SchemaCache, cat: Catalog, n: U32)
    requires cache.Valid() && Tidy(cache, cat) && Good(cat) && HoldsSpaces(Abs(cache), cat) && n in cat.spaces.Values
    ensures NumberKey(n) in cache.nodes && n in Abs(cache).indexes
  {
    hide NumberKey, TidyIndex, NumbersOf, Owned, Good, Answer;
    GoodSpaces(cat);
    var name :| name in cat.spaces && cat.spaces[name] == n;
    assert name in Abs(cache).spaces;
    NameHasNumber(cache.nodes, cat.spaces, name);
    NumbersAreKeys(cache.nodes, n);
  }
}
